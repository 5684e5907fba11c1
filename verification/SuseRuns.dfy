/** Semaphores, joins and closes of suse/src/suse.c, and whole runs of its requests. */
module SuseRuns {
  import opened Options
  import opened Suse
  import opened SuseOps

  // ---- wait -----------------------------------------------------------------

  /** The thread leaves the place its state names; only a NEW one was outside memory. */
  function Sacar(s: Sistema, t: Hilo): Sistema
    requires t in s.hilos && t.prog < |s.programas|
  {
    match s.hilos[t].estado
    case EXEC => SacarDeExec(s, t.prog)
    case READY => SacarDeReady(s, t)
    case NEW => s.(nuevos := Quitar(s.nuevos, t))
    case BLOCKED => s
  }

  lemma SacarKeeps(s: Sistema, t: Hilo)
    requires Lugares(s, {}) && t in s.hilos && s.hilos[t].estado != BLOCKED
    ensures t.prog < |s.programas|
    ensures var s' := Sacar(s, t);
            && Lugares(s', {t})
            && s'.hilos == s.hilos && s'.semaforos == s.semaforos && s'.enMemoria == s.enMemoria
            && s'.maxMultiprog == s.maxMultiprog && |s'.programas| == |s.programas|
            && s'.programas[t.prog].joinedBy == s.programas[t.prog].joinedBy
  {
    LimboOne(t);
    assert Ubicado(s, t);
    hide Lugares, NuevosOk, ReadyOk, ExecOk, ColasOk, JoinOk, Quitar, SinRepetidos;
    match s.hilos[t].estado
    case EXEC => SacarDeExecKeeps(s, {}, t.prog);
    case READY => SacarDeReadyKeeps(s, {}, t);
    case NEW => SacarDeNuevosKeeps(s, {}, t);
  }

  /** A main thread that is not BLOCKED waits for nobody. */
  lemma NotWaiting(s: Sistema, t: Hilo)
    requires Lugares(s, {}) && t in s.hilos && s.hilos[t].estado != BLOCKED
    ensures !EsperaJoin(s, t)
  {
  }

  lemma WaitBlocks(s: Sistema, t: Hilo, n: string)
    requires Inv(s) && t in s.hilos && n in s.semaforos && s.hilos[t].estado != BLOCKED
    requires s.semaforos[n].valor <= 0
    ensures t.prog < |s.programas| && Wait(s, t, n).Some?
    ensures var s' := Wait(s, t, n).value;
            && Lugares(s', {}) && SemaforosOk(s')
            && s'.enMemoria == s.enMemoria && s'.maxMultiprog == s.maxMultiprog
            && EnMemoria(s'.hilos) == EnMemoria(s.hilos) + {t}
            && s'.hilos == s.hilos[t := s.hilos[t].(estado := BLOCKED)]
            && s'.semaforos.Keys == s.semaforos.Keys
            && s'.semaforos[n].cola == s.semaforos[n].cola + [t]
  {
    hide Lugares, Quitar, SemaforosOk, Sacar;
    InvPunteros(s);
    SacarKeeps(s, t);
    NotWaiting(s, t);
    LimboOne(t);
    WaitIs(s, t, n);
    var s1 := Sacar(s, t);
    PonerEnColaKeeps(s1, {t}, t, n, s.semaforos[n].valor - 1);
    PonerEnColaSemaforos(s, s1, t, n);
    EnMemoriaSet(s.hilos, t, s.hilos[t].(estado := BLOCKED));
  }

  lemma WaitIs(s: Sistema, t: Hilo, n: string)
    requires t in s.hilos && t.prog < |s.programas| && n in s.semaforos
    requires s.hilos[t].estado != BLOCKED && s.semaforos[n].valor <= 0
    ensures var s1 := Sacar(s, t);
            && t in s1.hilos && n in s1.semaforos
            && Wait(s, t, n) == Some(PonerEnCola(s1, t, n, s.semaforos[n].valor - 1))
  {
    hide Quitar;
    assert Wait(s, t, n).value == PonerEnCola(Sacar(s, t), t, n, s.semaforos[n].valor - 1);
  }

  lemma PonerEnColaSemaforos(s: Sistema, s1: Sistema, t: Hilo, n: string)
    requires SemaforosOk(s) && s1.semaforos == s.semaforos && t in s1.hilos
    requires n in s.semaforos && s.semaforos[n].valor <= 0
    ensures SemaforosOk(PonerEnCola(s1, t, n, s.semaforos[n].valor - 1))
  {
    var s' := PonerEnCola(s1, t, n, s.semaforos[n].valor - 1);
    forall k | k in s'.semaforos ensures SemaforoOk(s'.semaforos[k]) {
      assert SemaforoOk(s.semaforos[k]);
    }
  }

  lemma WaitPasses(s: Sistema, t: Hilo, n: string)
    requires Inv(s) && t in s.hilos && n in s.semaforos && s.hilos[t].estado != BLOCKED
    requires s.semaforos[n].valor > 0
    ensures t.prog < |s.programas| && Wait(s, t, n).Some? && Inv(Wait(s, t, n).value)
    ensures Wait(s, t, n).value.hilos == s.hilos
  {
    hide Lugares;
    InvPunteros(s);
    SameColasKeeps(s, {}, n, s.semaforos[n].valor - 1);
    var s' := Wait(s, t, n).value;
    forall k | k in s'.semaforos ensures SemaforoOk(s'.semaforos[k]) {
      assert SemaforoOk(s.semaforos[k]);
    }
  }

  /** A wait by a live thread keeps the invariant exactly when it does not block a thread
      that was never admitted: that one starts to occupy memory without being counted. */
  lemma WaitExact(s: Sistema, t: Hilo, n: string)
    requires Inv(s) && t in s.hilos && n in s.semaforos && s.hilos[t].estado != BLOCKED
    ensures t.prog < |s.programas| && Wait(s, t, n).Some?
    ensures Inv(Wait(s, t, n).value) <==> s.hilos[t].estado != NEW || s.semaforos[n].valor > 0
  {
    hide Lugares, SemaforosOk, Wait;
    InvPunteros(s);
    if s.semaforos[n].valor > 0 {
      WaitPasses(s, t, n);
    } else {
      WaitBlocks(s, t, n);
      if s.hilos[t].estado != NEW {
        assert EnMemoria(s.hilos) + {t} == EnMemoria(s.hilos);
      } else {
        assert t !in EnMemoria(s.hilos);
      }
    }
  }

  // ---- signal ---------------------------------------------------------------

  /** Waking a thread of an idle program runs it at once. */
  lemma DesbloquearIs(s: Sistema, t: Hilo)
    requires t in s.hilos && t.prog < |s.programas|
    ensures var g, s0 := s.programas[t.prog], ConEstado(s, t, READY);
            Desbloquear(s0, t) ==
              if g.enEjecucion.None? && g.ready == [] then PonerEnExec(s, t) else PonerEnReady(s, t)
  {
    var g, s0 := s.programas[t.prog], ConEstado(s, t, READY);
    if g.enEjecucion.None? && g.ready == [] {
      var s1 := ConPrograma(s0, t.prog, g.(enEjecucion := Some(t)));
      var s2 := Desalojar(s1, t.prog);
      assert s2.programas[t.prog] == g.(ready := [t], enEjecucion := None);
      assert s2.hilos == s0.hilos;
      assert MasCorto([t], s2.hilos, 0) == 0 by { MasCortoFound([t], s2.hilos); }
      assert [t][..0] + [t][1..] == [];
      assert Despachar(s2, t.prog).programas == PonerEnExec(s, t).programas;
      assert Despachar(s2, t.prog).hilos == PonerEnExec(s, t).hilos;
    }
  }

  /** s' is s after a signal on n. With no waiter the value rises by one, up to the maximum, and
      that is all. Otherwise the first waiter leaves the queue and the value rises by one: the
      waiter runs if its program had nobody running or ready, and else goes last in its ready
      list. */
  ghost predicate Senalado(s: Sistema, n: string, s': Sistema)
    requires n in s.semaforos
  {
    var m := s.semaforos[n];
    if m.cola == [] then
      s' == s.(semaforos := s.semaforos[n := m.(valor := if m.valor < m.maximo then m.valor + 1 else m.valor)])
    else
      var u := m.cola[0];
      && u in s.hilos && u.prog < |s.programas|
      && var g := s.programas[u.prog];
         var ocioso := g.enEjecucion.None? && g.ready == [];
         && s'.semaforos == s.semaforos[n := Semaforo(m.valor + 1, m.maximo, m.cola[1..])]
         && s'.hilos == s.hilos[u := s.hilos[u].(estado := if ocioso then EXEC else READY)]
         && s'.programas == s.programas[u.prog :=
              if ocioso then Programa([], Some(u), g.joinedBy)
              else Programa(g.ready + [u], g.enEjecucion, g.joinedBy)]
         && s'.nuevos == s.nuevos && s'.enMemoria == s.enMemoria && s'.maxMultiprog == s.maxMultiprog
  }

  /** A signal keeps the invariant. With waiters it wakes exactly the one that blocked
      first, in whatever program, and that one runs at once if its program is idle; without, it
      only counts, up to the maximum. */
  lemma SignalKeeps(s: Sistema, n: string)
    requires Inv(s) && n in s.semaforos
    ensures Signal(s, n).Some? && Inv(Signal(s, n).value)
    ensures Senalado(s, n, Signal(s, n).value)
  {
    var m := s.semaforos[n];
    assert SemaforoOk(m);
    var valor := if m.valor < m.maximo then m.valor + 1 else m.valor;
    if m.cola == [] {
      SignalEmpty(s, n, valor);
    } else {
      SignalWakes(s, n);
    }
  }

  lemma SignalEmpty(s: Sistema, n: string, valor: int)
    requires Inv(s) && n in s.semaforos && s.semaforos[n].cola == []
    requires var m := s.semaforos[n]; valor == if m.valor < m.maximo then m.valor + 1 else m.valor
    ensures Signal(s, n).Some? && Inv(Signal(s, n).value) && Senalado(s, n, Signal(s, n).value)
  {
    hide Lugares;
    SameColasKeeps(s, {}, n, valor);
    var s' := Signal(s, n).value;
    assert s'.semaforos[n].cola == [];
    forall k | k in s'.semaforos ensures SemaforoOk(s'.semaforos[k]) {
      assert SemaforoOk(s.semaforos[k]);
    }
  }

  /** The waiter at the head goes to its program: running if that was idle, else ready. */
  lemma SignalTo(s: Sistema, n: string)
    requires n in s.semaforos && s.semaforos[n].cola != [] && SemaforoOk(s.semaforos[n])
    requires var u := s.semaforos[n].cola[0]; u in s.hilos && u.prog < |s.programas|
    ensures var m, u := s.semaforos[n], s.semaforos[n].cola[0];
            var g, s1 := s.programas[u.prog], SacarDeCola(s, n, m.valor + 1);
            && u in s1.hilos && u.prog < |s1.programas| && s1.programas == s.programas
            && Signal(s, n) == Some(if g.enEjecucion.None? && g.ready == [] then PonerEnExec(s1, u)
                                    else PonerEnReady(s1, u))
            && Senalado(s, n, Signal(s, n).value)
  {
    var m, u := s.semaforos[n], s.semaforos[n].cola[0];
    DesbloquearIs(SacarDeCola(s, n, m.valor + 1), u);
    hide Desbloquear;
  }

  lemma SignalMoves(s: Sistema, n: string)
    requires Inv(s) && n in s.semaforos && s.semaforos[n].cola != []
    ensures var u := s.semaforos[n].cola[0];
            && u in s.hilos && s.hilos[u].estado == BLOCKED && Signal(s, n).Some?
            && Lugares(Signal(s, n).value, {}) && Senalado(s, n, Signal(s, n).value)
  {
    var m := s.semaforos[n];
    var u := m.cola[0];
    assert SemaforoOk(m);
    SacarDeColaKeeps(s, {}, n, m.valor + 1);
    WaiterFacts(s, n, u);
    SignalTo(s, n);
    hide Lugares, SinRepetidos, Cuenta, SemaforosOk, SemaforoOk, Signal, Senalado, SacarDeCola, PonerEnExec, PonerEnReady;
    LimboOne(u);
    var s1 := SacarDeCola(s, n, m.valor + 1);
    if s1.programas[u.prog].enEjecucion.None? && s1.programas[u.prog].ready == [] {
      PonerEnExecKeeps(s1, {u}, u);
    } else {
      PonerEnReadyKeeps(s1, {u}, u);
    }
  }

  lemma SignalWakes(s: Sistema, n: string)
    requires Inv(s) && n in s.semaforos && s.semaforos[n].cola != []
    ensures Signal(s, n).Some? && Inv(Signal(s, n).value) && Senalado(s, n, Signal(s, n).value)
  {
    hide Lugares, Signal;
    SignalMoves(s, n);
    var u, s' := s.semaforos[n].cola[0], Signal(s, n).value;
    EnMemoriaSet(s.hilos, u, s'.hilos[u]);
    assert u in EnMemoria(s.hilos);
    assert EnMemoria(s.hilos) + {u} == EnMemoria(s.hilos);
    forall k | k in s'.semaforos ensures SemaforoOk(s'.semaforos[k]) {
      assert SemaforoOk(s.semaforos[k]);
    }
  }

  lemma WaiterFacts(s: Sistema, n: string, u: Hilo)
    requires Lugares(s, {}) && EnCola(s, n, u)
    ensures u in s.hilos && s.hilos[u].estado == BLOCKED && u.prog < |s.programas|
  {
  }

  // ---- join and close -------------------------------------------------------

  /** Who may be joined: a thread not joined yet, by a main thread that is running or
      ready, or already waiting for others. */
  predicate UneBien(s: Sistema, p: nat, tid: nat)
    requires p < |s.programas|
  {
    var u, cero := Hilo(p, tid), Hilo(p, 0);
    u in s.hilos && cero in s.hilos ==>
      && !s.hilos[u].joined
      && (s.hilos[cero].estado == EXEC || s.hilos[cero].estado == READY
          || (s.hilos[cero].estado == BLOCKED && s.programas[p].joinedBy != []))
  }

  /** What a join leaves, whoever makes it. */
  lemma JoinShape(s: Sistema, p: nat, tid: nat)
    requires p < |s.programas| && Hilo(p, tid) in s.hilos && Hilo(p, 0) in s.hilos
    ensures Join(s, p, tid).Some?
    ensures var s', u, cero := Join(s, p, tid).value, Hilo(p, tid), Hilo(p, 0);
            && |s'.programas| == |s.programas| && s'.programas[p].joinedBy == s.programas[p].joinedBy + [u]
            && s'.semaforos == s.semaforos && s'.enMemoria == s.enMemoria && s'.maxMultiprog == s.maxMultiprog
            && s'.hilos.Keys == s.hilos.Keys && s'.hilos[cero].estado == BLOCKED
            && EnMemoria(s'.hilos) == EnMemoria(s.hilos) + {cero}
  {
  }

  lemma JoinPlaces(s: Sistema, p: nat, tid: nat)
    requires Lugares(s, {}) && p < |s.programas| && UneBien(s, p, tid)
    requires Hilo(p, tid) in s.hilos && Hilo(p, 0) in s.hilos
    ensures Join(s, p, tid).Some? && Lugares(Join(s, p, tid).value, {})
  {
    hide Lugares, Quitar;
    var u, cero := Hilo(p, tid), Hilo(p, 0);
    LimboOne(cero);
    if s.hilos[cero].estado != BLOCKED {
      SacarKeeps(s, cero);
      PonerEnJoinKeeps(Sacar(s, cero), {cero}, u);
    } else {
      var nadie: set<Hilo> := {};
      assert nadie - {cero} == nadie;
      PonerEnJoinKeeps(s, {}, u);
    }
  }

  lemma JoinKeeps(s: Sistema, p: nat, tid: nat)
    requires Inv(s) && p < |s.programas| && UneBien(s, p, tid)
    requires Join(s, p, tid).Some?
    ensures Inv(Join(s, p, tid).value)
  {
    hide Lugares, Bloquear;
    var u, cero := Hilo(p, tid), Hilo(p, 0);
    if u in s.hilos {
      JoinPlaces(s, p, tid);
      JoinShape(s, p, tid);
      hide Join;
      assert cero in EnMemoria(s.hilos);
      assert EnMemoria(s.hilos) + {cero} == EnMemoria(s.hilos);
    }
  }

  /** A join of a live thread by a live main thread keeps the invariant exactly under the
      client's rules: otherwise the thread is listed twice, or the main thread is in two
      places, or it starts to occupy memory uncounted. */
  lemma JoinExact(s: Sistema, p: nat, tid: nat)
    requires Inv(s) && p < |s.programas| && Hilo(p, tid) in s.hilos && Hilo(p, 0) in s.hilos
    ensures Join(s, p, tid).Some? && (Inv(Join(s, p, tid).value) <==> UneBien(s, p, tid))
  {
    JoinShape(s, p, tid);
    hide Join;
    var s', u, cero := Join(s, p, tid).value, Hilo(p, tid), Hilo(p, 0);
    if UneBien(s, p, tid) {
      JoinKeeps(s, p, tid);
    } else if s.hilos[u].joined {
      JoinTwice(s, s', u);
    } else if s.hilos[cero].estado == NEW {
      assert cero !in EnMemoria(s.hilos);
      NotCounted(s, s', cero);
    } else {
      JoinBlocked(s, s', cero);
    }
  }

  lemma NotCounted(s: Sistema, s': Sistema, t: Hilo)
    requires Cuenta(s) && s'.enMemoria == s.enMemoria
    requires EnMemoria(s'.hilos) == EnMemoria(s.hilos) + {t} && t !in EnMemoria(s.hilos)
    ensures !Cuenta(s')
  {
  }

  lemma JoinTwice(s: Sistema, s': Sistema, u: Hilo)
    requires Lugares(s, {}) && u in s.hilos && s.hilos[u].joined && u.prog < |s.programas| == |s'.programas|
    requires s'.programas[u.prog].joinedBy == s.programas[u.prog].joinedBy + [u]
    ensures !JoinOk(s', {})
  {
    var j := s.programas[u.prog].joinedBy;
    assert u in j;
    var i: nat :| i < |j| && j[i] == u;
    assert (j + [u])[i] == (j + [u])[|j|];
  }

  lemma JoinBlocked(s: Sistema, s': Sistema, cero: Hilo)
    requires Lugares(s, {}) && cero in s.hilos && s.hilos[cero].estado == BLOCKED && cero.tid == 0
    requires cero.prog < |s.programas| == |s'.programas| && s.programas[cero.prog].joinedBy == []
    requires s'.programas[cero.prog].joinedBy != [] && s'.semaforos == s.semaforos
    ensures !ColasOk(s', {})
  {
    assert Ubicado(s, cero);
    var n :| EnCola(s, n, cero);
    assert EnCola(s', n, cero) && EsperaJoin(s', cero);
  }

  /** A close by a live thread keeps the invariant exactly when the thread is not BLOCKED: a
      blocked one stays in its queue, or leaves its program waiting with no main thread. */
  lemma CloseExact(s: Sistema, t: Hilo)
    requires Inv(s) && t in s.hilos
    ensures t.prog < |s.programas|
    ensures s.hilos[t].estado != BLOCKED ==> Close(s, t).Some?
    ensures Close(s, t).Some? ==> (Inv(Close(s, t).value) <==> s.hilos[t].estado != BLOCKED)
  {
    hide Lugares, Close;
    InvPunteros(s);
    if s.hilos[t].estado != BLOCKED {
      CloseKeeps(s, t);
    } else if Close(s, t).Some? {
      CloseBlockedBreaks(s, t);
    }
  }

  lemma CerrarJoinKeeps(s: Sistema, t: Hilo)
    requires Lugares(s, {}) && t in s.hilos && t.prog < |s.programas| && s.hilos[t].estado != BLOCKED
    ensures CerrarJoin(s, t).Some?
    ensures var s1 := CerrarJoin(s, t).value;
            && Lugares(s1, {}) && t in s1.hilos && s1.hilos[t].estado == s.hilos[t].estado && !s1.hilos[t].joined
            && s1.semaforos == s.semaforos && s1.maxMultiprog == s.maxMultiprog && |s1.programas| == |s.programas|
            && EnMemoria(s1.hilos) == EnMemoria(s.hilos)
            && s1.nuevos == s.nuevos
            && s1.enMemoria == s.enMemoria
  {
    hide Lugares, Quitar;
    if s.hilos[t].joined {
      SacarDeJoinKeeps(s, {}, t);
      var s1, cero := SacarDeJoin(s, t), Hilo(t.prog, 0);
      EnMemoriaSet(s.hilos, t, s.hilos[t].(joined := false));
      assert EnMemoria(s1.hilos) == EnMemoria(s.hilos);
      if s1.programas[t.prog].joinedBy == [] {
        LimboOne(cero);
        PonerEnReadyKeeps(s1, {cero}, cero);
        EnMemoriaSet(s1.hilos, cero, s1.hilos[cero].(estado := READY));
        assert EnMemoria(s1.hilos) + {cero} == EnMemoria(s1.hilos);
      }
    }
  }

  lemma CloseKeeps(s: Sistema, t: Hilo)
    requires Inv(s) && t in s.hilos && s.hilos[t].estado != BLOCKED
    ensures t.prog < |s.programas| && Close(s, t).Some? && Inv(Close(s, t).value)
    ensures Close(s, t).value.hilos.Keys == s.hilos.Keys - {t}
  {
    hide Lugares, Quitar;
    InvPunteros(s);
    CerrarJoinKeeps(s, t);
    CerrarJoinKeys(s, t);
    var s1 := CerrarJoin(s, t).value;
    SacarKeeps(s1, t);
    var s2 := Sacar(s1, t);
    LimboOne(t);
    BorrarKeeps(s2, {t}, t);
    hide CerrarJoin;
    EnMemoriaDel(s2.hilos, t);
    var s3 := s2.(hilos := s2.hilos - {t});
    var s' := Close(s, t).value;
    assert s' == s3.(enMemoria := s'.enMemoria);
    LugaresOnly(s3, s', {});
    if s.hilos[t].estado == NEW {
      assert t !in EnMemoria(s2.hilos);
      assert EnMemoria(s2.hilos) - {t} == EnMemoria(s2.hilos);
    } else {
      assert t in EnMemoria(s2.hilos);
    }
  }

  lemma CerrarJoinKeys(s: Sistema, t: Hilo)
    requires t in s.hilos && t.prog < |s.programas| && CerrarJoin(s, t).Some?
    ensures CerrarJoin(s, t).value.hilos.Keys == s.hilos.Keys
  {
  }

  lemma CloseBlockedBreaks(s: Sistema, t: Hilo)
    requires Inv(s) && t in s.hilos && t.prog < |s.programas| && s.hilos[t].estado == BLOCKED
    requires Close(s, t).Some?
    ensures !Inv(Close(s, t).value)
  {
    assert Ubicado(s, t);
    hide NuevosOk, ReadyOk, ExecOk, Quitar;
    var s' := Close(s, t).value;
    CerrarJoinColas(s, t);
    if n :| EnCola(s, n, t) {
      assert EnCola(s', n, t);
    } else {
      CerrarJoinWaits(s, t);
    }
  }

  lemma CerrarJoinColas(s: Sistema, t: Hilo)
    requires t in s.hilos && t.prog < |s.programas| && CerrarJoin(s, t).Some?
    ensures CerrarJoin(s, t).value.semaforos == s.semaforos
    ensures |CerrarJoin(s, t).value.programas| == |s.programas|
  {
  }

  /** A waiting main thread that closes leaves threads joined to nobody. */
  lemma CerrarJoinWaits(s: Sistema, t: Hilo)
    requires EsperaJoin(s, t) && t in s.hilos && CerrarJoin(s, t).Some?
    ensures CerrarJoin(s, t).value.programas[t.prog].joinedBy != []
  {
  }

  // ---- runs -----------------------------------------------------------------

  /** One request to the server, by any program. */
  datatype Evento =
    | Conecta
    | Crea(t: Hilo)
    | Planifica(p: nat, duracion: real)
    | Espera(t: Hilo, n: string)
    | Senial(n: string)
    | Une(p: nat, tid: nat)
    | Cierra(t: Hilo)

  function Conectar(s: Sistema): Sistema {
    s.(programas := s.programas + [Programa([], None, [])])
  }

  lemma ConectarCuenta(s: Sistema)
    requires Cuenta(s) && SemaforosOk(s)
    ensures Cuenta(Conectar(s)) && SemaforosOk(Conectar(s))
  {
  }

  lemma ConectarListas(s: Sistema)
    requires Lugares(s, {})
    ensures var s' := Conectar(s);
            NuevosOk(s', {}) && ReadyOk(s', {}) && ExecOk(s', {}) && JoinOk(s', {}) && ColasOk(s', {})
  {
    ColasKept(s, {}, Conectar(s), {});
    assert SinRepetidos([]);
    hide SinRepetidos, ColasOk, Ubicado;
  }

  lemma ConectarKeeps(s: Sistema)
    requires Inv(s)
    ensures Inv(Conectar(s)) && Conectar(s) == s.(programas := s.programas + [Programa([], None, [])])
  {
    ConectarCuenta(s);
    ConectarListas(s);
    hide Cuenta, SemaforosOk, NuevosOk, ReadyOk, ExecOk, JoinOk, ColasOk;
    var s' := Conectar(s);
    assert forall k, v :: EnCola(s', k, v) <==> EnCola(s, k, v);
    forall v | v in s'.hilos ensures Ubicado(s', v) {
      assert Ubicado(s, v);
    }
  }

  /** What a well-formed client respects: fresh ids, known programs and semaphores, waits
      and closes that do not come from threads outside memory or already blocked. */
  predicate Bien(s: Sistema, e: Evento) {
    match e
    case Conecta => true
    case Crea(t) => t !in s.hilos && t.prog < |s.programas|
    case Planifica(p, _) => p < |s.programas|
    case Espera(t, n) =>
      n in s.semaforos && (t in s.hilos ==> s.hilos[t].estado != NEW || s.semaforos[n].valor > 0)
    case Senial(n) => n in s.semaforos
    case Une(p, tid) => p < |s.programas| && UneBien(s, p, tid)
    case Cierra(t) => t in s.hilos && s.hilos[t].estado != BLOCKED
  }

  /** The state after one request; None if it dereferences a null pointer. */
  ghost function Paso(s: Sistema, e: Evento, alpha: real): Option<Sistema>
    requires Inv(s) && Bien(s, e)
  {
    InvPunteros(s);
    match e
    case Conecta => Some(Conectar(s))
    case Crea(t) => Some(Crear(s, t))
    case Planifica(p, d) => Some(Planificar(s, p, d, alpha))
    case Espera(t, n) => Wait(s, t, n)
    case Senial(n) => Signal(s, n)
    case Une(p, tid) => Join(s, p, tid)
    case Cierra(t) => Close(s, t)
  }

  /** Every well-formed request keeps the invariant; only a join without a main thread
      dereferences null. */
  lemma PasoKeeps(s: Sistema, e: Evento, alpha: real)
    requires Inv(s) && Bien(s, e)
    ensures Paso(s, e, alpha).Some? ==> Inv(Paso(s, e, alpha).value)
    ensures Paso(s, e, alpha).None? ==> e.Une? && Hilo(e.p, 0) !in s.hilos
  {
    hide Inv, Wait, Signal, Join, Close, Planificar, Crear, Conectar;
    match e
    case Conecta => ConectarKeeps(s);
    case Crea(t) => CrearKeeps(s, t);
    case Planifica(p, d) => PlanificarKeeps(s, p, d, alpha);
    case Espera(t, n) => WaitAny(s, t, n);
    case Senial(n) => SignalKeeps(s, n);
    case Une(p, tid) =>
      JoinFails(s, p, tid);
      if Join(s, p, tid).Some? { JoinKeeps(s, p, tid); }
    case Cierra(t) => CloseExact(s, t);
  }

  lemma WaitAny(s: Sistema, t: Hilo, n: string)
    requires Inv(s) && n in s.semaforos
    requires t in s.hilos ==> s.hilos[t].estado != NEW || s.semaforos[n].valor > 0
    ensures t in s.hilos ==> t.prog < |s.programas|
    ensures Wait(s, t, n).Some? && Inv(Wait(s, t, n).value)
  {
    hide Inv;
    InvLugares(s);
    InvPunteros(s);
    if t in s.hilos && s.hilos[t].estado != BLOCKED { WaitExact(s, t, n); }
  }

  lemma InvLugares(s: Sistema)
    requires Inv(s)
    ensures Lugares(s, {})
  {
  }

  lemma JoinFails(s: Sistema, p: nat, tid: nat)
    requires p < |s.programas|
    ensures Join(s, p, tid).None? ==> Hilo(p, 0) !in s.hilos
  {
  }

  /** A run of well-formed requests of many programs, interleaved in any order; None if one
      is not well-formed or dereferences null. */
  ghost function Correr(s: Sistema, es: seq<Evento>, alpha: real): Option<Sistema>
    requires Inv(s)
    decreases |es|
  {
    hide Inv, Paso;
    if es == [] then Some(s)
    else if !Bien(s, es[0]) then None
    else
      PasoKeeps(s, es[0], alpha);
      var s1 := Paso(s, es[0], alpha);
      if s1.None? then None else Correr(s1.value, es[1..], alpha)
  }

  /** Over every interleaving: each live thread is in exactly the place its state names, the
      thread count is right and under the cap, and every semaphore counts its waiters. */
  lemma {:induction false} RunKeeps(s: Sistema, es: seq<Evento>, alpha: real)
    requires Inv(s)
    ensures Correr(s, es, alpha).Some? ==> Inv(Correr(s, es, alpha).value)
    decreases |es|
  {
    hide Inv, Paso, Bien;
    if es != [] && Bien(s, es[0]) {
      PasoKeeps(s, es[0], alpha);
      if Paso(s, es[0], alpha).Some? {
        RunKeeps(Paso(s, es[0], alpha).value, es[1..], alpha);
      }
    }
  }

  /** The server at start. */
  lemma InicialInv(sems: map<string, Semaforo>, cap: int)
    requires 0 <= cap
    requires forall n | n in sems :: sems[n].cola == [] && 0 <= sems[n].valor <= sems[n].maximo
    ensures Inv(Sistema(map[], [], [], sems, 0, cap))
  {
  }

  // ---- semaphores over runs -------------------------------------------------

  /** The thread a request blocks on semaphore n, if any. */
  function Bloqueado(s: Sistema, e: Evento, n: string): seq<Hilo>
    requires n in s.semaforos
  {
    if e.Espera? && e.n == n && e.t in s.hilos && s.hilos[e.t].estado != BLOCKED && s.semaforos[n].valor <= 0
    then [e.t] else []
  }

  /** The thread a request wakes from semaphore n, if any. */
  function Despertado(s: Sistema, e: Evento, n: string): seq<Hilo>
    requires n in s.semaforos
  {
    if e.Senial? && e.n == n && s.semaforos[n].cola != [] then [s.semaforos[n].cola[0]] else []
  }

  /** What a request adds to the value of n: -1 for a wait that counts, +1 for a signal
      below the maximum. */
  function Efecto(s: Sistema, e: Evento, n: string): int
    requires n in s.semaforos
  {
    if e.Espera? && e.n == n && e.t in s.hilos && s.hilos[e.t].estado != BLOCKED then -1
    else if e.Senial? && e.n == n && s.semaforos[n].valor < s.semaforos[n].maximo then 1
    else 0
  }

  lemma SemaforoPaso(s: Sistema, e: Evento, alpha: real, n: string)
    requires Inv(s) && Bien(s, e) && n in s.semaforos && Paso(s, e, alpha).Some?
    ensures var s' := Paso(s, e, alpha).value;
            && n in s'.semaforos
            && s.semaforos[n].cola + Bloqueado(s, e, n) == Despertado(s, e, n) + s'.semaforos[n].cola
            && s'.semaforos[n].valor == s.semaforos[n].valor + Efecto(s, e, n)
            && s'.semaforos[n].maximo == s.semaforos[n].maximo
  {
    hide Inv, Wait, Signal, Join, Close, Planificar, Crear, Conectar, Bien;
    BienFacts(s, e);
    match e
    case Conecta => CrearSemaforos(s, Hilo(0, 0));
    case Crea(t) => CrearSemaforos(s, t);
    case Planifica(p, d) => PlanificarSemaforos(s, p, d, alpha);
    case Espera(t, k) => WaitSemaforos(s, t, k);
    case Senial(k) => SignalSemaforos(s, k);
    case Une(p, tid) => JoinSemaforos(s, p, tid);
    case Cierra(t) => CerrarSemaforos(s, t);
  }

  lemma BienFacts(s: Sistema, e: Evento)
    requires Inv(s) && Bien(s, e)
    ensures Punteros(s) && forall t | t in s.hilos :: t.prog < |s.programas|
    ensures e.Planifica? || e.Une? ==> e.p < |s.programas|
    ensures e.Espera? || e.Senial? ==> e.n in s.semaforos
    ensures e.Cierra? ==> e.t in s.hilos
  {
  }

  lemma CrearSemaforos(s: Sistema, t: Hilo)
    ensures Crear(s, t).semaforos == s.semaforos && Conectar(s).semaforos == s.semaforos
  {
  }

  lemma WaitSemaforos(s: Sistema, t: Hilo, n: string)
    requires n in s.semaforos && (t in s.hilos ==> t.prog < |s.programas|)
    ensures Wait(s, t, n).Some?
    ensures var cuenta := t in s.hilos && s.hilos[t].estado != BLOCKED;
            var m := s.semaforos[n];
            Wait(s, t, n).value.semaforos ==
              if !cuenta then s.semaforos
              else s.semaforos[n := m.(valor := m.valor - 1, cola := if m.valor <= 0 then m.cola + [t] else m.cola)]
  {
  }

  lemma JoinSemaforos(s: Sistema, p: nat, tid: nat)
    requires p < |s.programas| && Join(s, p, tid).Some?
    ensures Join(s, p, tid).value.semaforos == s.semaforos
  {
  }

  lemma CerrarSemaforos(s: Sistema, t: Hilo)
    requires t in s.hilos && t.prog < |s.programas| && Close(s, t).Some?
    ensures Close(s, t).value.semaforos == s.semaforos
  {
  }

  lemma PlanificarSemaforos(s: Sistema, p: nat, d: real, alpha: real)
    requires Inv(s) && p < |s.programas| && Punteros(s)
    ensures Planificar(s, p, d, alpha).semaforos == s.semaforos
  {
    hide Lugares, EnMemoria, SemaforosOk;
    MedirKeeps(s, p, d, alpha);
    CargarKeeps(Medir(s, p, d, alpha));
    CargarPunteros(Medir(s, p, d, alpha));
    ScheduleSemaforos(Cargar(Medir(s, p, d, alpha)), p);
  }

  lemma ScheduleSemaforos(s: Sistema, p: nat)
    requires p < |s.programas| && InvPunteros2(s, p)
    ensures ScheduleNext(s, p).semaforos == s.semaforos
  {
  }

  lemma SignalSemaforos(s: Sistema, n: string)
    requires Inv(s) && n in s.semaforos
    ensures Signal(s, n).Some?
    ensures var m, s' := s.semaforos[n], Signal(s, n).value;
            && s'.semaforos.Keys == s.semaforos.Keys
            && (forall k | k in s.semaforos && k != n :: s'.semaforos[k] == s.semaforos[k])
            && s'.semaforos[n].maximo == m.maximo
            && s'.semaforos[n].valor == (if m.valor < m.maximo then m.valor + 1 else m.valor)
            && s'.semaforos[n].cola == (if m.cola == [] then [] else m.cola[1..])
  {
    assert SemaforoOk(s.semaforos[n]);
    hide Inv, Signal, Senalado;
    SignalKeeps(s, n);
    SenaladoSemaforos(s, n, Signal(s, n).value);
  }

  lemma SenaladoSemaforos(s: Sistema, n: string, s': Sistema)
    requires n in s.semaforos && SemaforoOk(s.semaforos[n]) && Senalado(s, n, s')
    ensures s'.semaforos.Keys == s.semaforos.Keys
    ensures forall k | k in s.semaforos && k != n :: s'.semaforos[k] == s.semaforos[k]
    ensures var m := s.semaforos[n];
            && s'.semaforos[n].maximo == m.maximo
            && s'.semaforos[n].valor == (if m.valor < m.maximo then m.valor + 1 else m.valor)
            && s'.semaforos[n].cola == (if m.cola == [] then [] else m.cola[1..])
  {
  }

  /** Along a run, the threads blocked on n, the threads woken from n, and the sum of the
      effects on its value. */
  ghost function Bloqueados(s: Sistema, es: seq<Evento>, alpha: real, n: string): seq<Hilo>
    requires Inv(s) && n in s.semaforos && Correr(s, es, alpha).Some?
    decreases |es|
  {
    hide Inv, Paso, Bien;
    if es == [] then []
    else
      PasoKeeps(s, es[0], alpha);
      SemaforoPaso(s, es[0], alpha, n);
      Bloqueado(s, es[0], n) + Bloqueados(Paso(s, es[0], alpha).value, es[1..], alpha, n)
  }

  ghost function Despertados(s: Sistema, es: seq<Evento>, alpha: real, n: string): seq<Hilo>
    requires Inv(s) && n in s.semaforos && Correr(s, es, alpha).Some?
    decreases |es|
  {
    hide Inv, Paso, Bien;
    if es == [] then []
    else
      PasoKeeps(s, es[0], alpha);
      SemaforoPaso(s, es[0], alpha, n);
      Despertado(s, es[0], n) + Despertados(Paso(s, es[0], alpha).value, es[1..], alpha, n)
  }

  ghost function Efectos(s: Sistema, es: seq<Evento>, alpha: real, n: string): int
    requires Inv(s) && n in s.semaforos && Correr(s, es, alpha).Some?
    decreases |es|
  {
    hide Inv, Paso, Bien;
    if es == [] then 0
    else
      PasoKeeps(s, es[0], alpha);
      SemaforoPaso(s, es[0], alpha, n);
      Efecto(s, es[0], n) + Efectos(Paso(s, es[0], alpha).value, es[1..], alpha, n)
  }

  /** Waiters are woken in the order they blocked: those waiting at the start and those
      blocked since, in order, are those woken and then those still waiting. And the value
      is its initial value plus the signals that counted minus the waits. */
  lemma {:induction false} SemaphoreRun(s: Sistema, es: seq<Evento>, alpha: real, n: string)
    requires Inv(s) && n in s.semaforos && Correr(s, es, alpha).Some?
    ensures var s' := Correr(s, es, alpha).value;
            && n in s'.semaforos
            && s.semaforos[n].cola + Bloqueados(s, es, alpha, n) == Despertados(s, es, alpha, n) + s'.semaforos[n].cola
            && s'.semaforos[n].valor == s.semaforos[n].valor + Efectos(s, es, alpha, n)
    decreases |es|
  {
    hide Inv, Paso, Bien, Bloqueado, Despertado, Efecto;
    if es == [] {
    } else {
      PasoKeeps(s, es[0], alpha);
      SemaforoPaso(s, es[0], alpha, n);
      var s1 := Paso(s, es[0], alpha).value;
      SemaphoreRun(s1, es[1..], alpha, n);
      var b, d := Bloqueados(s1, es[1..], alpha, n), Despertados(s1, es[1..], alpha, n);
      assert s.semaforos[n].cola + (Bloqueado(s, es[0], n) + b) == (s.semaforos[n].cola + Bloqueado(s, es[0], n)) + b;
      var fin := Correr(s, es, alpha).value.semaforos[n].cola;
      assert Despertado(s, es[0], n) + (d + fin) == (Despertado(s, es[0], n) + d) + fin;
      assert (Despertado(s, es[0], n) + s1.semaforos[n].cola) + b
          == Despertado(s, es[0], n) + (s1.semaforos[n].cola + b);
    }
  }
}
