/** The whole state each request of suse/src/suse.c leaves, list order included. */
module SuseStates {
  import opened Options
  import opened Suse
  import Sjf
  import opened SuseOps
  import opened SuseRuns

  /** r is l without the first occurrence of t, in order; l itself if t is not in it. */
  ghost predicate Quitado(l: seq<Hilo>, t: Hilo, r: seq<Hilo>) {
    if t in l then
      exists k: nat :: k < |l| && l[k] == t && t !in l[..k] && r == l[..k] + l[k + 1..]
    else r == l
  }

  lemma {:induction false} QuitarNada(l: seq<Hilo>, t: Hilo)
    requires t !in l
    ensures Quitar(l, t) == l
  {
    if l != [] { QuitarNada(l[1..], t); }
  }

  lemma QuitarIs(l: seq<Hilo>, t: Hilo)
    ensures Quitado(l, t, Quitar(l, t))
  {
    if t in l {
      var k := QuitarEn(l, t);
    } else {
      QuitarNada(l, t);
    }
  }

  /** The ready list, the running thread and the NEW list lose thread t where its state names it;
      nothing else of s differs in s', but what `Bloquear` and its callers say besides. */
  ghost predicate Sale(s: Sistema, t: Hilo, g': Programa, nuevos': seq<Hilo>)
    requires t in s.hilos && t.prog < |s.programas|
  {
    var g, e := s.programas[t.prog], s.hilos[t].estado;
    && g'.enEjecucion == (if e == EXEC then None else g.enEjecucion)
    && (if e == READY then Quitado(g.ready, t, g'.ready) else g'.ready == g.ready)
    && g'.joinedBy == g.joinedBy
    && (if e == NEW then Quitado(s.nuevos, t, nuevos') else nuevos' == s.nuevos)
  }

  lemma BloquearState(s: Sistema, t: Hilo)
    requires t in s.hilos && t.prog < |s.programas|
    ensures var s' := Bloquear(s, t);
            && t.prog < |s'.programas| && Sale(s, t, s'.programas[t.prog], s'.nuevos)
            && s'.programas == s.programas[t.prog := s'.programas[t.prog]]
            && s'.hilos == s.hilos[t := s.hilos[t].(estado := BLOCKED)]
            && s'.semaforos == s.semaforos && s'.enMemoria == s.enMemoria && s'.maxMultiprog == s.maxMultiprog
  {
    QuitarIs(s.programas[t.prog].ready, t);
    QuitarIs(s.nuevos, t);
    hide Quitar, Quitado;
    match s.hilos[t].estado
    case EXEC =>
    case READY =>
    case NEW =>
    case BLOCKED => assert s.programas == s.programas[t.prog := s.programas[t.prog]];
  }

  // ---- wait -----------------------------------------------------------------

  /** A wait by a thread that is gone or already blocked changes nothing; by another on an unknown
      semaphore it dereferences null; on a positive value it only counts; else the thread goes last
      in the queue and leaves its place, and nobody is dispatched instead. */
  lemma WaitState(s: Sistema, t: Hilo, n: string)
    requires t in s.hilos ==> t.prog < |s.programas|
    ensures var r := Wait(s, t, n);
            if t !in s.hilos || s.hilos[t].estado == BLOCKED then r == Some(s)
            else if n !in s.semaforos then r == None
            else if s.semaforos[n].valor > 0 then
              r == Some(s.(semaforos := s.semaforos[n := s.semaforos[n].(valor := s.semaforos[n].valor - 1)]))
            else
              && r.Some?
              && var m, s' := s.semaforos[n], r.value;
                 && t.prog < |s'.programas| && Sale(s, t, s'.programas[t.prog], s'.nuevos)
                 && s'.programas == s.programas[t.prog := s'.programas[t.prog]]
                 && s'.hilos == s.hilos[t := s.hilos[t].(estado := BLOCKED)]
                 && s'.semaforos == s.semaforos[n := Semaforo(m.valor - 1, m.maximo, m.cola + [t])]
                 && s'.enMemoria == s.enMemoria && s'.maxMultiprog == s.maxMultiprog
  {
    hide Bloquear, Quitado;
    if t in s.hilos && n in s.semaforos && s.hilos[t].estado != BLOCKED && s.semaforos[n].valor <= 0 {
      var m := s.semaforos[n];
      var s1 := s.(semaforos := s.semaforos[n := m.(valor := m.valor - 1, cola := m.cola + [t])]);
      assert s.semaforos[n := m.(valor := m.valor - 1)][n := s1.semaforos[n]] == s1.semaforos;
      BloquearState(s1, t);
      assert Wait(s, t, n) == Some(Bloquear(s1, t));
    }
  }

  // ---- join -----------------------------------------------------------------

  /** A join of a thread that is gone changes nothing, and without a main thread dereferences
      null. Otherwise the thread is joined and goes last in the list, and the main thread leaves
      its place and is blocked. */
  lemma JoinState(s: Sistema, p: nat, tid: nat)
    requires p < |s.programas|
    ensures var r, u, cero := Join(s, p, tid), Hilo(p, tid), Hilo(p, 0);
            if u !in s.hilos then r == Some(s)
            else if cero !in s.hilos then r == None
            else
              && r.Some?
              && var s', g := r.value, s.programas[p];
                 && p < |s'.programas|
                 && s'.programas[p].joinedBy == g.joinedBy + [u]
                 && Sale(s, cero, s'.programas[p].(joinedBy := g.joinedBy), s'.nuevos)
                 && s'.programas == s.programas[p := s'.programas[p]]
                 && s'.hilos.Keys == s.hilos.Keys
                 && (forall v | v in s.hilos :: s'.hilos[v] == Info(
                       if v == cero then BLOCKED else s.hilos[v].estado, v == u || s.hilos[v].joined,
                       s.hilos[v].estimado))
                 && s'.semaforos == s.semaforos && s'.enMemoria == s.enMemoria && s'.maxMultiprog == s.maxMultiprog
  {
    hide Bloquear, Quitado;
    var u, cero := Hilo(p, tid), Hilo(p, 0);
    if u in s.hilos && cero in s.hilos {
      BloquearState(s.(hilos := s.hilos[u := s.hilos[u].(joined := true)]), cero);
    }
  }

  // ---- close ----------------------------------------------------------------

  lemma CerrarJoinState(s: Sistema, t: Hilo) returns (resto: seq<Hilo>)
    requires t in s.hilos && t.prog < |s.programas|
    ensures Quitado(s.programas[t.prog].joinedBy, t, resto)
    ensures var r, g, cero := CerrarJoin(s, t), s.programas[t.prog], Hilo(t.prog, 0);
            var ultimo := s.hilos[t].joined && resto == [];
            && (r.None? <==> ultimo && (cero == t || cero !in s.hilos))
            && (r.Some? ==>
                  && r.value.hilos.Keys == s.hilos.Keys
                  && (forall v | v in s.hilos && v != t :: r.value.hilos[v] ==
                        if ultimo && v == cero then s.hilos[v].(estado := READY) else s.hilos[v])
                  && r.value.hilos[t] == s.hilos[t].(joined := false)
                  && r.value.programas == s.programas[t.prog :=
                       Programa(if ultimo then g.ready + [cero] else g.ready, g.enEjecucion,
                                if s.hilos[t].joined then resto else g.joinedBy)]
                  && r.value.nuevos == s.nuevos && r.value.semaforos == s.semaforos
                  && r.value.enMemoria == s.enMemoria && r.value.maxMultiprog == s.maxMultiprog)
  {
    resto := Quitar(s.programas[t.prog].joinedBy, t);
    QuitarIs(s.programas[t.prog].joinedBy, t);
    hide Quitar, Quitado;
  }

  /** Closing a thread nobody knows dereferences null, and so does closing the last joined thread
      when its main thread is gone or itself. Otherwise the thread leaves its program, its place and
      the list of joined threads; the last one of that list puts the main thread last among the
      ready, without running it; and a thread that was in memory no longer counts. */
  lemma CloseState(s: Sistema, t: Hilo) returns (resto: seq<Hilo>)
    requires t in s.hilos ==> t.prog < |s.programas|
    ensures t !in s.hilos ==> Close(s, t).None?
    ensures t in s.hilos ==> Quitado(s.programas[t.prog].joinedBy, t, resto)
    ensures t in s.hilos ==>
              var r, g, e, cero := Close(s, t), s.programas[t.prog], s.hilos[t].estado, Hilo(t.prog, 0);
              var ultimo := s.hilos[t].joined && resto == [];
              && (r.None? <==> ultimo && (cero == t || cero !in s.hilos))
              && (r.Some? ==>
                    var s' := r.value;
                    && s'.hilos.Keys == s.hilos.Keys - {t}
                    && (forall v | v in s'.hilos :: s'.hilos[v] ==
                          if ultimo && v == cero then s.hilos[v].(estado := READY) else s.hilos[v])
                    && t.prog < |s'.programas| && s'.programas == s.programas[t.prog := s'.programas[t.prog]]
                    && s'.programas[t.prog].joinedBy == (if s.hilos[t].joined then resto else g.joinedBy)
                    && s'.programas[t.prog].enEjecucion == (if e == EXEC then None else g.enEjecucion)
                    && (var listos := if ultimo then g.ready + [cero] else g.ready;
                        if e == READY then Quitado(listos, t, s'.programas[t.prog].ready)
                        else s'.programas[t.prog].ready == listos)
                    && (if e == NEW then Quitado(s.nuevos, t, s'.nuevos) else s'.nuevos == s.nuevos)
                    && s'.enMemoria == (if e == NEW then s.enMemoria else s.enMemoria - 1)
                    && s'.semaforos == s.semaforos && s'.maxMultiprog == s.maxMultiprog)
  {
    if t in s.hilos {
      resto := CerrarJoinState(s, t);
      hide CerrarJoin, Quitar, Quitado;
      if CerrarJoin(s, t).Some? {
        var s1 := CerrarJoin(s, t).value;
        QuitarIs(s1.programas[t.prog].ready, t);
        QuitarIs(s1.nuevos, t);
      }
    } else {
      resto := [];
    }
  }

  // ---- admission ------------------------------------------------------------

  /** The threads of program p in a list, in order. */
  function De(p: nat, ts: seq<Hilo>): seq<Hilo> {
    if ts == [] then [] else (if ts[0].prog == p then [ts[0]] else []) + De(p, ts[1..])
  }

  /** s' is s with the first a NEW threads admitted, each last in the ready list of its program. */
  ghost predicate Admitidos(s: Sistema, a: nat, s': Sistema) {
    && a <= |s.nuevos| && s'.nuevos == s.nuevos[a..] && s'.enMemoria == s.enMemoria + a
    && s'.hilos.Keys == s.hilos.Keys
    && (forall u | u in s.hilos :: s'.hilos[u] ==
          if u in s.nuevos[..a] then s.hilos[u].(estado := READY) else s.hilos[u])
    && |s'.programas| == |s.programas|
    && (forall p: nat | p < |s.programas| ::
          s'.programas[p] == s.programas[p].(ready := s.programas[p].ready + De(p, s.nuevos[..a])))
    && s'.semaforos == s.semaforos && s'.maxMultiprog == s.maxMultiprog
  }

  lemma AdmitidosUno(s: Sistema, s1: Sistema, a: nat, s': Sistema)
    requires s.nuevos != [] && s.nuevos[0] in s.hilos && s.nuevos[0].prog < |s.programas|
    requires s1 == PonerEnReady(s.(nuevos := s.nuevos[1..]), s.nuevos[0]).(enMemoria := s.enMemoria + 1)
    requires Admitidos(s1, a, s')
    ensures Admitidos(s, a + 1, s')
  {
    var t := s.nuevos[0];
    assert s.nuevos[..a + 1] == [t] + s1.nuevos[..a];
    assert s.nuevos[..a + 1][1..] == s1.nuevos[..a];
    assert s1.nuevos[a..] == s.nuevos[a + 1..];
    forall p: nat | p < |s.programas|
      ensures s'.programas[p] == s.programas[p].(ready := s.programas[p].ready + De(p, s.nuevos[..a + 1]))
    {
      assert De(p, s.nuevos[..a + 1]) == (if t.prog == p then [t] else []) + De(p, s1.nuevos[..a]);
      var l, r := s.programas[p].ready, De(p, s1.nuevos[..a]);
      if t.prog == p {
        assert (l + [t]) + r == l + ([t] + r);
      } else {
        assert [] + r == r;
      }
    }
  }

  /** Admission takes NEW threads from the front, as many as the cap leaves room for. */
  lemma {:induction false} CargarState(s: Sistema) returns (a: nat)
    requires Punteros(s)
    ensures Admitidos(s, a, Cargar(s))
    ensures a == |s.nuevos| || s.enMemoria + a >= s.maxMultiprog
    ensures 0 < a ==> s.enMemoria + a <= s.maxMultiprog
    decreases |s.nuevos|
  {
    hide Admitidos;
    if s.enMemoria < s.maxMultiprog && s.nuevos != [] {
      var s1 := PonerEnReady(s.(nuevos := s.nuevos[1..]), s.nuevos[0]).(enMemoria := s.enMemoria + 1);
      AdmitirPunteros(s);
      var b := CargarState(s1);
      a := b + 1;
      AdmitidosUno(s, s1, b, Cargar(s));
    } else {
      a := 0;
      AdmitidosNada(s);
    }
  }

  lemma AdmitirPunteros(s: Sistema)
    requires Punteros(s) && s.nuevos != []
    ensures Punteros(PonerEnReady(s.(nuevos := s.nuevos[1..]), s.nuevos[0]).(enMemoria := s.enMemoria + 1))
  {
  }

  lemma AdmitidosNada(s: Sistema)
    ensures Admitidos(s, 0, s)
  {
    assert s.nuevos[0..] == s.nuevos && s.nuevos[..0] == [];
    forall p: nat | p < |s.programas| ensures s.programas[p].ready + De(p, []) == s.programas[p].ready {
    }
  }

  // ---- a schedule request ---------------------------------------------------

  /** The estimate of thread u once the running thread of program p is measured. */
  function Medida(s: Sistema, p: nat, duracion: real, alpha: real, u: Hilo): real
    requires p < |s.programas| && u in s.hilos
  {
    if s.programas[p].enEjecucion == Some(u) then duracion * alpha + (1.0 - alpha) * s.hilos[u].estimado
    else s.hilos[u].estimado
  }

  /** The threads program p can run after a NEW threads are admitted: its ready list, those of
      them that are its own, and last the running thread. */
  function Aspirantes(s: Sistema, p: nat, a: nat): seq<Hilo>
    requires p < |s.programas| && a <= |s.nuevos|
  {
    var g := s.programas[p];
    g.ready + De(p, s.nuevos[..a]) + if g.enEjecucion.Some? then [g.enEjecucion.value] else []
  }

  /** s' is s after a schedule request of program p that admitted a threads and ran the one at k
      of those it could choose from, if there was any. */
  ghost predicate Planificado(s: Sistema, p: nat, duracion: real, alpha: real, a: nat, k: nat, s': Sistema)
    requires p < |s.programas|
  {
    && a <= |s.nuevos| && s'.nuevos == s.nuevos[a..] && s'.enMemoria == s.enMemoria + a
    && s'.hilos.Keys == s.hilos.Keys && s'.semaforos == s.semaforos && s'.maxMultiprog == s.maxMultiprog
    && |s'.programas| == |s.programas|
    && (forall q: nat | q < |s.programas| && q != p ::
          s'.programas[q] == s.programas[q].(ready := s.programas[q].ready + De(q, s.nuevos[..a])))
    && var c := Aspirantes(s, p, a);
       && (if c == [] then s'.programas[p] == s.programas[p]
           else
             && k < |c| && (forall u | u in c :: u in s.hilos)
             && (forall j: nat | j < |c| ::
                   var e, e' := Medida(s, p, duracion, alpha, c[k]), Medida(s, p, duracion, alpha, c[j]);
                   e <= e' && (j < k ==> e < e'))
             && s'.programas[p] == Programa(c[..k] + c[k + 1..], Some(c[k]), s.programas[p].joinedBy))
       && forall u | u in s.hilos :: s'.hilos[u] == Info(
            if k < |c| && u == c[k] then EXEC
            else if u in c || u in s.nuevos[..a] then READY else s.hilos[u].estado,
            s.hilos[u].joined, Medida(s, p, duracion, alpha, u))
  }

  lemma MedirState(s: Sistema, p: nat, duracion: real, alpha: real)
    requires p < |s.programas| && InvPunteros2(s, p)
    ensures var s1 := Medir(s, p, duracion, alpha);
            && s1 == s.(hilos := s1.hilos) && s1.hilos.Keys == s.hilos.Keys
            && (forall u | u in s.hilos ::
                  s1.hilos[u] == s.hilos[u].(estimado := Medida(s, p, duracion, alpha, u)))
  {
  }

  lemma AspirantesIs(s: Sistema, p: nat, a: nat, s2: Sistema)
    requires p < |s.programas| && Admitidos(s, a, s2)
    ensures Candidatos(s2, p) == Aspirantes(s, p, a)
  {
    var g := s.programas[p];
    assert s2.programas[p] == g.(ready := g.ready + De(p, s.nuevos[..a]));
    assert (g.ready + De(p, s.nuevos[..a])) + [] == g.ready + De(p, s.nuevos[..a]);
  }

  lemma PlanificadoIs(s: Sistema, p: nat, duracion: real, alpha: real, s1: Sistema, a: nat, s2: Sistema, k: nat,
                      s': Sistema)
    requires p < |s.programas| && s1 == s.(hilos := s1.hilos) && s1.hilos.Keys == s.hilos.Keys
    requires forall u | u in s.hilos ::
               s1.hilos[u] == s.hilos[u].(estimado := Medida(s, p, duracion, alpha, u))
    requires Admitidos(s1, a, s2)
    requires var c := Aspirantes(s, p, a);
             if c == [] then s' == s2
             else Elegido(s2, p, c, k, s')
    ensures Planificado(s, p, duracion, alpha, a, k, s')
  {
    hide Medida, De;
    var c := Aspirantes(s, p, a);
    hide Aspirantes;
    if c != [] {
      forall j: nat | j < |c|
        ensures c[j] in s.hilos
        ensures var e, e' := Medida(s, p, duracion, alpha, c[k]), Medida(s, p, duracion, alpha, c[j]);
                e <= e' && (j < k ==> e < e')
      {
        assert c[j] in c && c[k] in c;
      }
    }
  }

  /** The steps of a request, and that each one starts from the invariant. */
  lemma PlanificarPasos(s: Sistema, p: nat, duracion: real, alpha: real) returns (a: nat)
    requires Inv(s) && p < |s.programas|
    ensures Punteros(s) && InvPunteros2(s, p)
    ensures var s1 := Medir(s, p, duracion, alpha);
            && s1 == s.(hilos := s1.hilos) && s1.hilos.Keys == s.hilos.Keys
            && (forall u | u in s.hilos ::
                  s1.hilos[u] == s.hilos[u].(estimado := Medida(s, p, duracion, alpha, u)))
            && Punteros(s1) && Admitidos(s1, a, Cargar(s1)) && Inv(Cargar(s1))
            && p < |Cargar(s1).programas|
            && InvPunteros2(Cargar(s1), p)
            && Planificar(s, p, duracion, alpha) == ScheduleNext(Cargar(s1), p)
    ensures s.enMemoria + a <= s.maxMultiprog && (a == |s.nuevos| || s.enMemoria + a == s.maxMultiprog)
  {
    InvPunteros(s);
    MedirKeeps(s, p, duracion, alpha);
    MedirState(s, p, duracion, alpha);
    var s1 := Medir(s, p, duracion, alpha);
    InvPunteros(s1);
    a := CargarState(s1);
    assert s.enMemoria <= s.maxMultiprog;
    hide Lugares, SemaforosOk, Medir, Cargar, ScheduleNext, Medida, EnMemoria;
    CargarKeeps(s1);
  }

  /** The entry of the candidates a scheduling step runs. */
  lemma ElegirUno(s: Sistema, p: nat, c: seq<Hilo>) returns (k: nat)
    requires Inv(s) && p < |s.programas| && c == Candidatos(s, p)
    ensures InvPunteros2(s, p)
    ensures if c == [] then ScheduleNext(s, p) == s
            else Elegido(s, p, c, k, ScheduleNext(s, p))
  {
    ScheduleChoosesShortest(s, p);
    hide *;
    k := 0;
    if c != [] {
      k :| Elegido(s, p, c, k, ScheduleNext(s, p));
    }
  }

  lemma AspirantesMedidos(s: Sistema, p: nat, s1: Sistema, a: nat, s2: Sistema)
    requires p < |s.programas| && s1 == s.(hilos := s1.hilos) && Admitidos(s1, a, s2)
    ensures p < |s2.programas| && a <= |s.nuevos| && Candidatos(s2, p) == Aspirantes(s, p, a)
  {
    AspirantesIs(s1, p, a, s2);
  }

  /** A schedule request measures the running thread, admits NEW threads from the front as the cap
      allows, and runs the earliest with the least estimate among the ready threads, those just
      admitted and, last, the thread that ran. */
  lemma PlanificarState(s: Sistema, p: nat, duracion: real, alpha: real) returns (a: nat, k: nat)
    requires Inv(s) && p < |s.programas|
    ensures Punteros(s) && Planificado(s, p, duracion, alpha, a, k, Planificar(s, p, duracion, alpha))
    ensures s.enMemoria + a <= s.maxMultiprog && (a == |s.nuevos| || s.enMemoria + a == s.maxMultiprog)
  {
    a := PlanificarPasos(s, p, duracion, alpha);
    hide *;
    var s1 := Medir(s, p, duracion, alpha);
    var s2 := Cargar(s1);
    AspirantesMedidos(s, p, s1, a, s2);
    k := ElegirUno(s2, p, Aspirantes(s, p, a));
    PlanificadoIs(s, p, duracion, alpha, s1, a, s2, k, Planificar(s, p, duracion, alpha));
  }
}
