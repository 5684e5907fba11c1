/** The handlers of suse/src/suse.c, each one step, and exactly when each keeps the places,
    the accounting and the semaphores. */
module SuseOps {
  import opened Options
  import opened Suse
  import Sjf

  // ---- handlers -------------------------------------------------------------

  /** `suseCreate` of a thread with a fresh id. */
  function Crear(s: Sistema, t: Hilo): Sistema {
    s.(hilos := s.hilos[t := Info(NEW, false, 0.0)], nuevos := s.nuevos + [t])
  }

  /** Every pointer in the lists is to a live thread of a live program. */
  predicate Punteros(s: Sistema) {
    && (forall t | t in s.nuevos :: t in s.hilos && t.prog < |s.programas|)
    && (forall p: nat | p < |s.programas| ::
          && (forall t | t in s.programas[p].ready :: t in s.hilos)
          && (s.programas[p].enEjecucion.Some? ==> s.programas[p].enEjecucion.value in s.hilos))
  }

  /** `cargarHilosAReady`: admit NEW threads in order while the cap allows. */
  function Cargar(s: Sistema): Sistema
    requires forall t | t in s.nuevos :: t in s.hilos && t.prog < |s.programas|
    decreases |s.nuevos|
  {
    if s.enMemoria < s.maxMultiprog && s.nuevos != [] then
      var t := s.nuevos[0];
      Cargar(PonerEnReady(s.(nuevos := s.nuevos[1..]), t).(enMemoria := s.enMemoria + 1))
    else s
  }

  /** The preemption half of `suseScheduleNext`. */
  function Desalojar(s: Sistema, p: nat): Sistema
    requires p < |s.programas|
    requires s.programas[p].enEjecucion.Some? ==> s.programas[p].enEjecucion.value in s.hilos
  {
    var g := s.programas[p];
    if g.enEjecucion.None? then s
    else
      var t := g.enEjecucion.value;
      ConPrograma(ConEstado(s, t, READY), p, g.(ready := g.ready + [t], enEjecucion := None))
  }

  /** The dispatch half: the chosen thread leaves the ready list and runs. */
  function Despachar(s: Sistema, p: nat): Sistema
    requires p < |s.programas| && forall t | t in s.programas[p].ready :: t in s.hilos
  {
    var g := s.programas[p];
    if g.ready == [] then s
    else
      MasCortoFound(g.ready, s.hilos);
      var k := MasCorto(g.ready, s.hilos, 0);
      var t := g.ready[k];
      ConPrograma(ConEstado(s, t, EXEC), p,
                  g.(ready := g.ready[..k] + g.ready[k + 1..], enEjecucion := Some(t)))
  }

  /** `suseScheduleNext` */
  function ScheduleNext(s: Sistema, p: nat): Sistema
    requires p < |s.programas| && forall t | t in s.programas[p].ready :: t in s.hilos
    requires s.programas[p].enEjecucion.Some? ==> s.programas[p].enEjecucion.value in s.hilos
  {
    Despachar(Desalojar(s, p), p)
  }

  /** The estimate of the running thread is updated with its last burst. */
  function Medir(s: Sistema, p: nat, duracion: real, alpha: real): Sistema
    requires p < |s.programas|
    requires s.programas[p].enEjecucion.Some? ==> s.programas[p].enEjecucion.value in s.hilos
  {
    var e := s.programas[p].enEjecucion;
    if e.None? then s
    else s.(hilos := s.hilos[e.value :=
                s.hilos[e.value].(estimado := Sjf.Estimar(s.hilos[e.value].estimado, duracion, alpha))])
  }

  /** The SUSE_SCHEDULE_NEXT request. */
  function Planificar(s: Sistema, p: nat, duracion: real, alpha: real): Sistema
    requires Punteros(s) && p < |s.programas|
  {
    var s1 := Medir(s, p, duracion, alpha);
    CargarPunteros(s1);
    ScheduleNext(Cargar(s1), p)
  }

  lemma {:induction false} CargarPunteros(s: Sistema)
    requires Punteros(s)
    ensures Punteros(Cargar(s)) && |Cargar(s).programas| == |s.programas|
    decreases |s.nuevos|
  {
    if s.enMemoria < s.maxMultiprog && s.nuevos != [] {
      CargarPunteros(PonerEnReady(s.(nuevos := s.nuevos[1..]), s.nuevos[0]).(enMemoria := s.enMemoria + 1));
    }
  }

  /** `bloquearHilo`: the thread leaves the place its state names and is BLOCKED. */
  function Bloquear(s: Sistema, t: Hilo): Sistema
    requires t in s.hilos && t.prog < |s.programas|
  {
    ConEstado(match s.hilos[t].estado
              case EXEC => SacarDeExec(s, t.prog)
              case READY => SacarDeReady(s, t)
              case NEW => s.(nuevos := Quitar(s.nuevos, t))
              case BLOCKED => s,
              t, BLOCKED)
  }

  /** `suseWait`; None is the null dereference of an unknown semaphore. */
  function Wait(s: Sistema, t: Hilo, n: string): Option<Sistema>
    requires t in s.hilos ==> t.prog < |s.programas|
  {
    if t !in s.hilos || s.hilos[t].estado == BLOCKED then Some(s)
    else if n !in s.semaforos then None
    else
      var m := s.semaforos[n];
      var s1 := s.(semaforos := s.semaforos[n := m.(valor := m.valor - 1)]);
      if m.valor - 1 < 0 then
        var s2 := s1.(semaforos := s1.semaforos[n := m.(valor := m.valor - 1, cola := m.cola + [t])]);
        Some(Bloquear(s2, t))
      else Some(s1)
  }

  /** `desbloquearHilo`: an idle program runs the thread at once, through its scheduler; a
      busy one queues it. */
  function Desbloquear(s: Sistema, t: Hilo): Sistema
    requires t in s.hilos && t.prog < |s.programas|
  {
    var g := s.programas[t.prog];
    if g.enEjecucion.None? && g.ready == [] then
      ScheduleNext(ConPrograma(s, t.prog, g.(enEjecucion := Some(t))), t.prog)
    else ConPrograma(s, t.prog, g.(ready := g.ready + [t]))
  }

  /** `suseSignal`. None is the null dereference of an unknown semaphore, or a waiter that was
      closed: the code goes on to queue its record, which this model does not follow. */
  function Signal(s: Sistema, n: string): Option<Sistema>
  {
    if n !in s.semaforos then None
    else
      var m := s.semaforos[n];
      var valor := if m.valor < m.maximo then m.valor + 1 else m.valor;
      if m.cola == [] then Some(s.(semaforos := s.semaforos[n := m.(valor := valor)]))
      else
        var u := m.cola[0];
        if u !in s.hilos || u.prog >= |s.programas| then None
        else Some(Desbloquear(ConEstado(SacarDeCola(s, n, valor), u, READY), u))
  }

  /** `suseJoin` by program p on its thread tid. */
  function Join(s: Sistema, p: nat, tid: nat): Option<Sistema>
    requires p < |s.programas|
  {
    var u, cero := Hilo(p, tid), Hilo(p, 0);
    if u !in s.hilos then Some(s)
    else if cero !in s.hilos then None
    else
      var s1 := Bloquear(s.(hilos := s.hilos[u := s.hilos[u].(joined := true)]), cero);
      var g := s1.programas[p];
      Some(ConPrograma(s1, p, g.(joinedBy := g.joinedBy + [u])))
  }

  /** The join half of `suseClose`: the last joined thread to close wakes the main one. */
  function CerrarJoin(s: Sistema, t: Hilo): Option<Sistema>
    requires t in s.hilos && t.prog < |s.programas|
  {
    if !s.hilos[t].joined then Some(s)
    else
      var s1 := SacarDeJoin(s, t);
      if s1.programas[t.prog].joinedBy != [] then Some(s1)
      else
        var cero := Hilo(t.prog, 0);
        if cero == t || cero !in s1.hilos then None else Some(PonerEnReady(s1, cero))
  }

  /** `suseClose` */
  function Close(s: Sistema, t: Hilo): Option<Sistema>
    requires t in s.hilos ==> t.prog < |s.programas|
  {
    if t !in s.hilos then None
    else
      match CerrarJoin(s, t)
      case None => None
      case Some(s1) =>
        var s2 := match s.hilos[t].estado
                  case EXEC => SacarDeExec(s1, t.prog)
                  case READY => SacarDeReady(s1, t)
                  case NEW => s1.(nuevos := Quitar(s1.nuevos, t))
                  case BLOCKED => s1;
        Some(s2.(hilos := s2.hilos - {t},
                 enMemoria := if s.hilos[t].estado == NEW then s.enMemoria else s.enMemoria - 1))
  }

  lemma LimboOne(t: Hilo)
    ensures {} + {t} == {t} && {t} - {t} == {}
  {
  }

  // ---- accounting helpers ---------------------------------------------------

  lemma EnMemoriaSet(h: map<Hilo, Info>, t: Hilo, i: Info)
    ensures EnMemoria(h[t := i]) == if i.estado != NEW then EnMemoria(h) + {t} else EnMemoria(h) - {t}
  {
  }

  lemma EnMemoriaDel(h: map<Hilo, Info>, t: Hilo)
    ensures EnMemoria(h - {t}) == EnMemoria(h) - {t}
  {
  }

  lemma InvPunteros(s: Sistema)
    requires Lugares(s, {})
    ensures Punteros(s)
    ensures forall t | t in s.hilos :: t.prog < |s.programas|
  {
  }

  /** The running thread is live, belongs to the program, and is EXEC. */
  lemma RunningFacts(s: Sistema, p: nat)
    requires Lugares(s, {}) && p < |s.programas| && s.programas[p].enEjecucion.Some?
    ensures var t := s.programas[p].enEjecucion.value;
            t in s.hilos && t.prog == p && s.hilos[t].estado == EXEC
  {
  }

  /** Ready threads are live, belong to the program, are READY, and are listed once. */
  lemma ReadyFacts(s: Sistema, p: nat)
    requires Lugares(s, {}) && p < |s.programas|
    ensures SinRepetidos(s.programas[p].ready)
    ensures forall t | t in s.programas[p].ready :: t in s.hilos && t.prog == p && s.hilos[t].estado == READY
  {
  }

  // ---- schedule -------------------------------------------------------------

  lemma QuitarPos(s: seq<Hilo>, k: nat)
    requires SinRepetidos(s) && k < |s|
    ensures Quitar(s, s[k]) == s[..k] + s[k + 1..]
  {
    var j := QuitarEn(s, s[k]);
  }

  lemma DesalojarKeeps(s: Sistema, p: nat)
    requires Lugares(s, {}) && p < |s.programas|
    ensures InvPunteros2(s, p)
    ensures var s' := Desalojar(s, p);
            && Lugares(s', {}) && EnMemoria(s'.hilos) == EnMemoria(s.hilos)
            && s'.semaforos == s.semaforos && s'.enMemoria == s.enMemoria && s'.maxMultiprog == s.maxMultiprog
            && s'.programas[p].enEjecucion.None?
  {
    hide Lugares, SinRepetidos;
    InvPunteros(s);
    if s.programas[p].enEjecucion.Some? {
      RunningFacts(s, p);
      var t := s.programas[p].enEjecucion.value;
      LimboOne(t);
      SacarDeExecKeeps(s, {}, p);
      PonerEnReadyKeeps(SacarDeExec(s, p), {t}, t);
      EnMemoriaSet(s.hilos, t, s.hilos[t].(estado := READY));
      assert Desalojar(s, p) == PonerEnReady(SacarDeExec(s, p), t);
    }
  }

  /** The pointers `suseScheduleNext` follows for program p are good. */
  predicate InvPunteros2(s: Sistema, p: nat)
    requires p < |s.programas|
  {
    && (forall t | t in s.programas[p].ready :: t in s.hilos)
    && (s.programas[p].enEjecucion.Some? ==> s.programas[p].enEjecucion.value in s.hilos)
  }

  lemma DespacharKeeps(s: Sistema, p: nat)
    requires Lugares(s, {}) && p < |s.programas| && s.programas[p].enEjecucion.None?
    ensures InvPunteros2(s, p)
    ensures var s' := Despachar(s, p);
            && Lugares(s', {}) && EnMemoria(s'.hilos) == EnMemoria(s.hilos)
            && s'.semaforos == s.semaforos && s'.enMemoria == s.enMemoria && s'.maxMultiprog == s.maxMultiprog
  {
    hide Lugares, SinRepetidos, Quitar;
    InvPunteros(s);
    ReadyFacts(s, p);
    var g := s.programas[p];
    if g.ready != [] {
      MasCortoFound(g.ready, s.hilos);
      var k := MasCorto(g.ready, s.hilos, 0);
      var t := g.ready[k];
      QuitarPos(g.ready, k);
      LimboOne(t);
      SacarDeReadyKeeps(s, {}, t);
      PonerEnExecKeeps(SacarDeReady(s, t), {t}, t);
      EnMemoriaSet(s.hilos, t, s.hilos[t].(estado := EXEC));
      assert Despachar(s, p) == PonerEnExec(SacarDeReady(s, t), t);
    }
  }

  /** A scheduling step keeps every invariant, loses no thread, and leaves the program idle
      only if its ready list is empty. */
  lemma ScheduleNextKeeps(s: Sistema, p: nat)
    requires Inv(s) && p < |s.programas|
    ensures InvPunteros2(s, p)
    ensures var s' := ScheduleNext(s, p);
            && Inv(s')
            && s'.hilos.Keys == s.hilos.Keys
            && (s'.programas[p].enEjecucion.None? ==> s'.programas[p].ready == [])
            && (forall q: nat | q < |s.programas| && q != p :: s'.programas[q] == s.programas[q])
  {
    hide Lugares, EnMemoria, SemaforoOk;
    DesalojarKeeps(s, p);
    DesalojarEstimados(s, p);
    DespacharKeeps(Desalojar(s, p), p);
    DespacharEstimados(Desalojar(s, p), p);
    hide Desalojar, Despachar;
  }

  lemma DesalojarEstimados(s: Sistema, p: nat)
    requires Lugares(s, {}) && p < |s.programas| && InvPunteros2(s, p)
    ensures var s1 := Desalojar(s, p);
            && s1.hilos.Keys == s.hilos.Keys
            && (forall u | u in s.hilos :: s1.hilos[u].estimado == s.hilos[u].estimado)
            && |s1.programas| == |s.programas|
            && (forall q: nat | q < |s.programas| && q != p :: s1.programas[q] == s.programas[q])
  {
  }

  lemma DespacharEstimados(s: Sistema, p: nat)
    requires p < |s.programas| && (forall t | t in s.programas[p].ready :: t in s.hilos)
    ensures var s1 := Despachar(s, p);
            && s1.hilos.Keys == s.hilos.Keys && |s1.programas| == |s.programas|
            && (forall q: nat | q < |s.programas| && q != p :: s1.programas[q] == s.programas[q])
            && (s.programas[p].enEjecucion.None? && s1.programas[p].enEjecucion.None? ==> s1.programas[p].ready == [])
  {
    var listos := s.programas[p].ready;
    if listos != [] {
      MasCortoFound(listos, s.hilos);
      assert listos[MasCorto(listos, s.hilos, 0)] in s.hilos;
    }
  }

  /** Thread t, at k, is the earliest of the list whose estimate no other beats, and `resto`
      is the list without it. */
  predicate Elige(listos: seq<Hilo>, h: map<Hilo, Info>, k: nat, t: Hilo, resto: seq<Hilo>)
  {
    && k < |listos| && listos[k] == t && (forall u | u in listos :: u in h) && t in h
    && (forall u | u in listos :: h[t].estimado <= h[u].estimado)
    && (forall j: nat | j < k :: h[listos[j]].estimado > h[t].estimado)
    && resto == listos[..k] + listos[k + 1..]
  }

  lemma DespacharChooses(s: Sistema, p: nat)
    requires p < |s.programas| && s.programas[p].ready != [] && forall t | t in s.programas[p].ready :: t in s.hilos
    ensures var listos, g := s.programas[p].ready, Despachar(s, p).programas[p];
            && g.enEjecucion.Some?
            && Elige(listos, s.hilos, MasCorto(listos, s.hilos, 0), g.enEjecucion.value, g.ready)
  {
    var listos := s.programas[p].ready;
    MasCortoFound(listos, s.hilos);
    hide MasCorto;
    forall u | u in listos ensures s.hilos[listos[MasCorto(listos, s.hilos, 0)]].estimado <= s.hilos[u].estimado {
      var j: nat :| j < |listos| && listos[j] == u;
    }
  }

  lemma EligeEstimados(listos: seq<Hilo>, h: map<Hilo, Info>, h': map<Hilo, Info>, k: nat, t: Hilo, resto: seq<Hilo>)
    requires Elige(listos, h, k, t, resto)
    requires h'.Keys == h.Keys && forall u | u in h :: h'[u].estimado == h[u].estimado
    ensures Elige(listos, h', k, t, resto)
  {
  }

  lemma DesalojarListos(s: Sistema, p: nat)
    requires Inv(s) && p < |s.programas|
    ensures InvPunteros2(s, p)
    ensures var s1 := Desalojar(s, p);
            && s1.hilos.Keys == s.hilos.Keys && |s1.programas| == |s.programas|
            && (forall u | u in s.hilos :: s1.hilos[u].estimado == s.hilos[u].estimado)
            && (forall u | u in s1.programas[p].ready :: u in s1.hilos)
  {
    hide Lugares, EnMemoria, SemaforoOk, SinRepetidos;
    DesalojarKeeps(s, p);
    DesalojarEstimados(s, p);
    InvPunteros(Desalojar(s, p));
  }

  /** The threads a scheduling step of program p chooses from: the ready list, and after it the
      running thread. */
  function Candidatos(s: Sistema, p: nat): seq<Hilo>
    requires p < |s.programas|
  {
    var g := s.programas[p];
    if g.enEjecucion.Some? then g.ready + [g.enEjecucion.value] else g.ready
  }

  /** s' is s with thread c[k] of program p running and the rest of c ready, in order; no other
      thread moved and nothing else changed. */
  ghost predicate Despachado(s: Sistema, p: nat, c: seq<Hilo>, k: nat, s': Sistema) {
    && p < |s.programas| && k < |c|
    && s'.programas == s.programas[p := Programa(c[..k] + c[k + 1..], Some(c[k]), s.programas[p].joinedBy)]
    && s'.hilos.Keys == s.hilos.Keys
    && (forall u | u in s.hilos :: s'.hilos[u] ==
          s.hilos[u].(estado := if u == c[k] then EXEC else if u in c then READY else s.hilos[u].estado))
    && s'.nuevos == s.nuevos && s'.semaforos == s.semaforos
    && s'.enMemoria == s.enMemoria && s'.maxMultiprog == s.maxMultiprog
  }

  /** And c[k] is the earliest of c with the smallest estimate. */
  ghost predicate Elegido(s: Sistema, p: nat, c: seq<Hilo>, k: nat, s': Sistema) {
    Despachado(s, p, c, k, s') && Elige(c, s.hilos, k, c[k], c[..k] + c[k + 1..])
  }

  lemma DesalojarState(s: Sistema, p: nat)
    requires Inv(s) && p < |s.programas| && InvPunteros2(s, p)
    ensures var c, s1 := Candidatos(s, p), Desalojar(s, p);
            && (c == [] ==> s1 == s)
            && s1.programas == s.programas[p := Programa(c, None, s.programas[p].joinedBy)]
            && s1.hilos.Keys == s.hilos.Keys
            && (forall u | u in s.hilos :: s1.hilos[u] ==
                  s.hilos[u].(estado := if u in c then READY else s.hilos[u].estado))
            && s1.nuevos == s.nuevos && s1.semaforos == s.semaforos
            && s1.enMemoria == s.enMemoria && s1.maxMultiprog == s.maxMultiprog
  {
    hide SinRepetidos, Cuenta, SemaforosOk;
    assert Lugares(s, {});
    ReadyFacts(s, p);
    hide Lugares;
  }

  lemma DespacharState(s: Sistema, p: nat)
    requires p < |s.programas| && s.programas[p].ready != [] && forall t | t in s.programas[p].ready :: t in s.hilos
    ensures var c, s' := s.programas[p].ready, Despachar(s, p);
            var k := MasCorto(c, s.hilos, 0);
            && k < |c| && c[k] in s.hilos
            && s'.programas == s.programas[p := Programa(c[..k] + c[k + 1..], Some(c[k]), s.programas[p].joinedBy)]
            && s'.hilos == s.hilos[c[k] := s.hilos[c[k]].(estado := EXEC)]
            && s'.nuevos == s.nuevos && s'.semaforos == s.semaforos
            && s'.enMemoria == s.enMemoria && s'.maxMultiprog == s.maxMultiprog
  {
    MasCortoFound(s.programas[p].ready, s.hilos);
    hide MasCorto;
  }

  /** The whole step. With nothing to run it changes nothing. Otherwise it runs the earliest of the
      candidates with the smallest estimate, and the preempted thread is the last of them. */
  lemma ScheduleChoosesShortest(s: Sistema, p: nat)
    requires Inv(s) && p < |s.programas|
    ensures InvPunteros2(s, p)
    ensures var c, s' := Candidatos(s, p), ScheduleNext(s, p);
            && (c == [] ==> s' == s)
            && (c != [] ==> exists k: nat :: Elegido(s, p, c, k, s'))
  {
    DesalojarListos(s, p);
    DesalojarState(s, p);
    hide Inv, Desalojar, Despachar, MasCorto, Candidatos, Elige, Elegido;
    var c, s1 := Candidatos(s, p), Desalojar(s, p);
    assert s1.programas[p].ready == c;
    var s' := ScheduleNext(s, p);
    assert s' == Despachar(s1, p);
    hide ScheduleNext;
    if c != [] {
      var k := ElegidoIs(s, p, c, s1);
      assert Elegido(s, p, c, k, s');
    } else {
      DespacharNada(s1, p);
    }
  }

  lemma ElegidoIs(s: Sistema, p: nat, c: seq<Hilo>, s1: Sistema) returns (k: nat)
    requires p < |s.programas| && c != [] && (forall u | u in c :: u in s1.hilos) && s1.hilos.Keys == s.hilos.Keys
    requires s1.programas == s.programas[p := Programa(c, None, s.programas[p].joinedBy)]
    requires forall u | u in s.hilos :: s1.hilos[u] ==
               s.hilos[u].(estado := if u in c then READY else s.hilos[u].estado)
    requires s1.nuevos == s.nuevos && s1.semaforos == s.semaforos
    requires s1.enMemoria == s.enMemoria && s1.maxMultiprog == s.maxMultiprog
    ensures Elegido(s, p, c, k, Despachar(s1, p))
  {
    DespacharChooses(s1, p);
    DespacharState(s1, p);
    hide Despachar, MasCorto, Elige;
    k := MasCorto(c, s1.hilos, 0);
    EligeEstimados(c, s1.hilos, s.hilos, k, c[k], c[..k] + c[k + 1..]);
    DespachadoIs(s, p, c, k, s1, Despachar(s1, p));
  }

  lemma DespacharNada(s: Sistema, p: nat)
    requires p < |s.programas| && s.programas[p].ready == []
    ensures Despachar(s, p) == s
  {
  }

  lemma DespachadoIs(s: Sistema, p: nat, c: seq<Hilo>, k: nat, s1: Sistema, s': Sistema)
    requires p < |s.programas| && k < |c| && c[k] in s1.hilos && s1.hilos.Keys == s.hilos.Keys
    requires s1.programas == s.programas[p := Programa(c, None, s.programas[p].joinedBy)]
    requires forall u | u in s.hilos :: s1.hilos[u] ==
               s.hilos[u].(estado := if u in c then READY else s.hilos[u].estado)
    requires s1.nuevos == s.nuevos && s1.semaforos == s.semaforos
    requires s1.enMemoria == s.enMemoria && s1.maxMultiprog == s.maxMultiprog
    requires s'.programas == s1.programas[p := Programa(c[..k] + c[k + 1..], Some(c[k]), s.programas[p].joinedBy)]
    requires s'.hilos == s1.hilos[c[k] := s1.hilos[c[k]].(estado := EXEC)]
    requires s'.nuevos == s1.nuevos && s'.semaforos == s1.semaforos
    requires s'.enMemoria == s1.enMemoria && s'.maxMultiprog == s1.maxMultiprog
    ensures Despachado(s, p, c, k, s')
  {
  }

  // ---- admission ------------------------------------------------------------

  lemma NuevosFacts(s: Sistema)
    requires Lugares(s, {})
    ensures SinRepetidos(s.nuevos)
    ensures forall t | t in s.nuevos :: t in s.hilos && s.hilos[t].estado == NEW && t.prog < |s.programas|
  {
  }

  lemma AdmitirUno(s: Sistema)
    requires Inv(s) && s.enMemoria < s.maxMultiprog && s.nuevos != []
    ensures var t := s.nuevos[0];
            && t in s.hilos && t.prog < |s.programas|
            && Inv(PonerEnReady(s.(nuevos := s.nuevos[1..]), t).(enMemoria := s.enMemoria + 1))
  {
    hide Lugares, SinRepetidos;
    NuevosFacts(s);
    var t := s.nuevos[0];
    LimboOne(t);
    SacarDeNuevosKeeps(s, {}, t);
    assert Quitar(s.nuevos, t) == s.nuevos[1..];
    var s1 := s.(nuevos := s.nuevos[1..]);
    PonerEnReadyKeeps(s1, {t}, t);
    EnMemoriaSet(s.hilos, t, s.hilos[t].(estado := READY));
    assert t !in EnMemoria(s.hilos);
    var s2 := PonerEnReady(s1, t).(enMemoria := s.enMemoria + 1);
    LugaresOnly(PonerEnReady(s1, t), s2, {});
  }

  /** The counters play no part in where threads are. */
  lemma LugaresOnly(s: Sistema, s': Sistema, limbo: set<Hilo>)
    requires Lugares(s, limbo) && s' == s.(enMemoria := s'.enMemoria)
    ensures Lugares(s', limbo)
  {
    assert forall k, v :: EnCola(s', k, v) <==> EnCola(s, k, v);
    assert forall v :: EsperaJoin(s', v) <==> EsperaJoin(s, v);
    forall v | v in s'.hilos && v !in limbo ensures Ubicado(s', v) {
      assert Ubicado(s, v);
    }
  }

  /** Admission keeps every invariant, takes NEW threads strictly in order, and stops only
      when the cap is reached or no NEW thread is left. */
  lemma {:induction false} CargarKeeps(s: Sistema)
    requires Inv(s)
    ensures forall t | t in s.nuevos :: t in s.hilos && t.prog < |s.programas|
    ensures var s' := Cargar(s);
            && Inv(s')
            && |s'.nuevos| <= |s.nuevos| && s'.nuevos == s.nuevos[|s.nuevos| - |s'.nuevos|..]
            && s'.enMemoria == s.enMemoria + |s.nuevos| - |s'.nuevos|
            && (s'.nuevos == [] || s'.enMemoria == s'.maxMultiprog)
            && |s'.programas| == |s.programas| && s'.semaforos == s.semaforos
    decreases |s.nuevos|
  {
    hide Lugares, EnMemoria, SemaforosOk;
    assert Lugares(s, {});
    InvPunteros(s);
    assert s.enMemoria <= s.maxMultiprog;
    hide Inv, Cuenta;
    if s.enMemoria < s.maxMultiprog && s.nuevos != [] {
      AdmitirUno(s);
      CargarKeeps(PonerEnReady(s.(nuevos := s.nuevos[1..]), s.nuevos[0]).(enMemoria := s.enMemoria + 1));
    }
  }

  lemma MedirKeeps(s: Sistema, p: nat, duracion: real, alpha: real)
    requires Inv(s) && p < |s.programas|
    ensures InvPunteros2(s, p) && Inv(Medir(s, p, duracion, alpha))
  {
    hide Lugares;
    InvPunteros(s);
    if s.programas[p].enEjecucion.Some? {
      RunningFacts(s, p);
      var t := s.programas[p].enEjecucion.value;
      var e := Sjf.Estimar(s.hilos[t].estimado, duracion, alpha);
      EstimadoKeeps(s, {}, t, e);
      EnMemoriaSet(s.hilos, t, s.hilos[t].(estimado := e));
      assert EnMemoria(s.hilos) + {t} == EnMemoria(s.hilos);
    }
  }

  lemma PlanificarKeeps(s: Sistema, p: nat, duracion: real, alpha: real)
    requires Inv(s) && p < |s.programas|
    ensures Punteros(s) && Inv(Planificar(s, p, duracion, alpha))
    ensures var s' := Planificar(s, p, duracion, alpha);
            |s'.programas| == |s.programas|
            && (s'.programas[p].enEjecucion.None? ==> s'.programas[p].ready == [])
  {
    InvPunteros(s);
    hide Lugares, Cuenta, SemaforosOk, Medir, Cargar, ScheduleNext;
    MedirKeeps(s, p, duracion, alpha);
    CargarKeeps(Medir(s, p, duracion, alpha));
    ScheduleNextKeeps(Cargar(Medir(s, p, duracion, alpha)), p);
  }

  /** A thread that does not exist yet can be put in limbo as NEW. */
  lemma NacerKeeps(s: Sistema, t: Hilo)
    requires Lugares(s, {}) && t !in s.hilos && t.prog < |s.programas|
    ensures t !in s.nuevos
    ensures Lugares(s.(hilos := s.hilos[t := Info(NEW, false, 0.0)]), {t})
  {
    NacerListas(s, t);
    hide NuevosOk, ReadyOk, ExecOk, JoinOk, ColasOk;
    var s' := s.(hilos := s.hilos[t := Info(NEW, false, 0.0)]);
    assert forall k, v :: EnCola(s', k, v) <==> EnCola(s, k, v);
    assert forall v :: EsperaJoin(s', v) <==> EsperaJoin(s, v);
    forall v | v in s'.hilos && v !in {t} ensures Ubicado(s', v) {
      assert Ubicado(s, v);
    }
  }

  lemma NacerListas(s: Sistema, t: Hilo)
    requires Lugares(s, {}) && t !in s.hilos && t.prog < |s.programas|
    ensures t !in s.nuevos
    ensures var s' := s.(hilos := s.hilos[t := Info(NEW, false, 0.0)]);
            NuevosOk(s', {t}) && ReadyOk(s', {t}) && ExecOk(s', {t}) && JoinOk(s', {t}) && ColasOk(s', {t})
  {
    hide SinRepetidos, Ubicado;
    var s' := s.(hilos := s.hilos[t := Info(NEW, false, 0.0)]);
    assert forall k, v :: EnCola(s', k, v) <==> EnCola(s, k, v);
    assert forall v :: EsperaJoin(s', v) <==> EsperaJoin(s, v);
  }

  lemma PonerEnNuevosKeeps(s: Sistema, t: Hilo)
    requires Lugares(s, {t}) && t in s.hilos && s.hilos[t].estado == NEW && t.prog < |s.programas| && t !in s.nuevos
    ensures Lugares(s.(nuevos := s.nuevos + [t]), {})
  {
    AgregarMeans(s.nuevos, t);
    var s' := s.(nuevos := s.nuevos + [t]);
    assert forall k, v :: EnCola(s', k, v) <==> EnCola(s, k, v);
    assert forall v :: EsperaJoin(s', v) <==> EsperaJoin(s, v);
    forall v | v in s'.hilos ensures Ubicado(s', v) {
      if v != t { assert Ubicado(s, v); }
    }
  }

  lemma CrearKeeps(s: Sistema, t: Hilo)
    requires Inv(s) && t !in s.hilos && t.prog < |s.programas|
    ensures Inv(Crear(s, t))
    ensures var s' := Crear(s, t);
            && s'.hilos.Keys == s.hilos.Keys + {t} && s'.hilos[t] == Info(NEW, false, 0.0)
            && s'.nuevos == s.nuevos + [t] && s'.enMemoria == s.enMemoria
            && (forall u | u in s.hilos :: s'.hilos[u] == s.hilos[u])
            && s'.programas == s.programas && s'.semaforos == s.semaforos && s'.maxMultiprog == s.maxMultiprog
  {
    hide Lugares, Cuenta, SemaforosOk;
    NacerKeeps(s, t);
    PonerEnNuevosKeeps(s.(hilos := s.hilos[t := Info(NEW, false, 0.0)]), t);
    CrearCuenta(s, t);
  }

  lemma CrearCuenta(s: Sistema, t: Hilo)
    requires Cuenta(s) && SemaforosOk(s) && t !in s.hilos
    ensures Cuenta(Crear(s, t)) && SemaforosOk(Crear(s, t))
  {
    EnMemoriaSet(s.hilos, t, Info(NEW, false, 0.0));
    assert t !in EnMemoria(s.hilos);
    assert EnMemoria(s.hilos) - {t} == EnMemoria(s.hilos);
  }
}
