/** The estimates of live threads over whole runs: each is the exponential average of the bursts
    its thread was measured with. */
module SuseEstimates {
  import opened Options
  import opened Suse
  import Sjf
  import opened SuseOps
  import opened SuseRuns

  /** Every thread of h' was in h, with the same estimate. */
  ghost predicate MismosEstimados(h: map<Hilo, Info>, h': map<Hilo, Info>) {
    forall t | t in h' :: t in h && h'[t].estimado == h[t].estimado
  }

  lemma BloquearEstimados(s: Sistema, t: Hilo)
    requires t in s.hilos && t.prog < |s.programas|
    ensures MismosEstimados(s.hilos, Bloquear(s, t).hilos)
  {
    hide Quitar;
  }

  lemma WaitEstimados(s: Sistema, t: Hilo, n: string)
    requires (t in s.hilos ==> t.prog < |s.programas|) && Wait(s, t, n).Some?
    ensures MismosEstimados(s.hilos, Wait(s, t, n).value.hilos)
  {
    hide Quitar;
  }

  lemma ScheduleEstimados(s: Sistema, p: nat)
    requires p < |s.programas| && InvPunteros2(s, p)
    ensures MismosEstimados(s.hilos, ScheduleNext(s, p).hilos)
  {
    hide MasCorto;
    var s1 := Desalojar(s, p);
    if s1.programas[p].ready != [] { MasCortoFound(s1.programas[p].ready, s1.hilos); }
  }

  lemma DesbloquearEstimados(s: Sistema, t: Hilo)
    requires t in s.hilos && t.prog < |s.programas|
    ensures MismosEstimados(s.hilos, Desbloquear(s, t).hilos)
  {
    var g := s.programas[t.prog];
    if g.enEjecucion.None? && g.ready == [] {
      ScheduleEstimados(ConPrograma(s, t.prog, g.(enEjecucion := Some(t))), t.prog);
    }
    hide ScheduleNext;
  }

  lemma SignalEstimados(s: Sistema, n: string)
    requires Signal(s, n).Some?
    ensures MismosEstimados(s.hilos, Signal(s, n).value.hilos)
  {
    var m := s.semaforos[n];
    var valor := if m.valor < m.maximo then m.valor + 1 else m.valor;
    if m.cola != [] {
      DesbloquearEstimados(ConEstado(SacarDeCola(s, n, valor), m.cola[0], READY), m.cola[0]);
    }
    hide Desbloquear;
  }

  lemma JoinEstimados(s: Sistema, p: nat, tid: nat)
    requires p < |s.programas| && Join(s, p, tid).Some?
    ensures MismosEstimados(s.hilos, Join(s, p, tid).value.hilos)
  {
    var u, cero := Hilo(p, tid), Hilo(p, 0);
    if u in s.hilos && cero in s.hilos {
      BloquearEstimados(s.(hilos := s.hilos[u := s.hilos[u].(joined := true)]), cero);
    }
    hide Bloquear;
  }

  lemma CloseEstimados(s: Sistema, t: Hilo)
    requires t in s.hilos && t.prog < |s.programas| && Close(s, t).Some?
    ensures MismosEstimados(s.hilos, Close(s, t).value.hilos)
  {
    hide Quitar;
    assert MismosEstimados(s.hilos, CerrarJoin(s, t).value.hilos);
    hide CerrarJoin;
  }

  lemma {:induction false} CargarEstimados(s: Sistema)
    requires forall t | t in s.nuevos :: t in s.hilos && t.prog < |s.programas|
    ensures MismosEstimados(s.hilos, Cargar(s).hilos)
    decreases |s.nuevos|
  {
    if s.enMemoria < s.maxMultiprog && s.nuevos != [] {
      CargarEstimados(PonerEnReady(s.(nuevos := s.nuevos[1..]), s.nuevos[0]).(enMemoria := s.enMemoria + 1));
    }
  }

  // ---- one request ----------------------------------------------------------

  /** The burst a request measures thread t with, if any. */
  function Medida(s: Sistema, e: Evento, t: Hilo): seq<real> {
    if e.Planifica? && e.p < |s.programas| && s.programas[e.p].enEjecucion == Some(t) then [e.duracion] else []
  }

  lemma PlanificarEstimados(s: Sistema, p: nat, d: real, alpha: real, t: Hilo)
    requires Inv(s) && p < |s.programas| && Punteros(s) && t in Planificar(s, p, d, alpha).hilos
    ensures t in s.hilos
    ensures Planificar(s, p, d, alpha).hilos[t].estimado
            == if s.programas[p].enEjecucion == Some(t) then Sjf.Estimar(s.hilos[t].estimado, d, alpha)
               else s.hilos[t].estimado
  {
    hide Inv, Cargar, ScheduleNext, Sjf.Estimar;
    MedirKeeps(s, p, d, alpha);
    var s1 := Medir(s, p, d, alpha);
    assert t in s1.hilos ==> t in s.hilos;
    PlanificarPartes(s1, p);
    CargarEstimados(s1);
    ScheduleEstimados(Cargar(s1), p);
  }

  lemma PlanificarPartes(s: Sistema, p: nat)
    requires Inv(s) && p < |s.programas|
    ensures forall t | t in s.nuevos :: t in s.hilos && t.prog < |s.programas|
    ensures p < |Cargar(s).programas| && InvPunteros2(Cargar(s), p)
  {
    hide Cargar;
    CargarKeeps(s);
    InvPunteros(Cargar(s));
  }

  lemma EstimadoPaso(s: Sistema, e: Evento, alpha: real, t: Hilo)
    requires Inv(s) && Bien(s, e) && Paso(s, e, alpha).Some? && t in Paso(s, e, alpha).value.hilos
    ensures var h' := Paso(s, e, alpha).value.hilos;
            if e.Crea? && e.t == t then h'[t].estimado == 0.0
            else t in s.hilos && h'[t].estimado == Sjf.EstimarTodos(s.hilos[t].estimado, Medida(s, e, t), alpha)
  {
    hide Inv, Wait, Signal, Join, Close, Planificar, Bien;
    BienFacts(s, e);
    match e
    case Conecta =>
    case Crea(_) =>
    case Planifica(p, d) => PlanificarEstimados(s, p, d, alpha, t);
    case Espera(u, k) => WaitEstimados(s, u, k);
    case Senial(k) => SignalEstimados(s, k);
    case Une(p, tid) => JoinEstimados(s, p, tid);
    case Cierra(u) => CloseEstimados(s, u);
  }

  // ---- runs -----------------------------------------------------------------

  /** The bursts thread t was measured with along a run, since it was created; ds are those
      before the run. */
  ghost function Rafagas(s: Sistema, es: seq<Evento>, alpha: real, t: Hilo, ds: seq<real>): seq<real>
    requires Inv(s) && Correr(s, es, alpha).Some?
    decreases |es|
  {
    hide Inv, Paso, Bien;
    if es == [] then ds
    else
      PasoKeeps(s, es[0], alpha);
      Rafagas(Paso(s, es[0], alpha).value, es[1..], alpha, t,
              if es[0].Crea? && es[0].t == t then [] else ds + Medida(s, es[0], t))
  }

  /** After any run the estimate of each live thread is the exponential average, from 0, of the
      bursts it was measured with since it was created. */
  lemma {:induction false} EstimateRun(s: Sistema, es: seq<Evento>, alpha: real, t: Hilo, ds: seq<real>)
    requires Inv(s) && Correr(s, es, alpha).Some?
    requires t in s.hilos ==> s.hilos[t].estimado == Sjf.EstimarTodos(0.0, ds, alpha)
    ensures var h' := Correr(s, es, alpha).value.hilos;
            t in h' ==> h'[t].estimado == Sjf.EstimarTodos(0.0, Rafagas(s, es, alpha, t, ds), alpha)
    decreases |es|
  {
    hide Inv, Paso, Bien, Medida, Sjf.EstimarTodos;
    if es != [] {
      PasoKeeps(s, es[0], alpha);
      var s1 := Paso(s, es[0], alpha).value;
      var ds1 := if es[0].Crea? && es[0].t == t then [] else ds + Medida(s, es[0], t);
      if t in s1.hilos {
        EstimadoPaso(s, es[0], alpha, t);
        if es[0].Crea? && es[0].t == t { SinRafagas(alpha); } else { UnaRafaga(s, es[0], t, ds, alpha); }
      }
      EstimateRun(s1, es[1..], alpha, t, ds1);
    }
  }

  lemma SinRafagas(alpha: real)
    ensures Sjf.EstimarTodos(0.0, [], alpha) == 0.0
  {
  }

  lemma UnaRafaga(s: Sistema, e: Evento, t: Hilo, ds: seq<real>, alpha: real)
    ensures Sjf.EstimarTodos(Sjf.EstimarTodos(0.0, ds, alpha), Medida(s, e, t), alpha)
            == Sjf.EstimarTodos(0.0, ds + Medida(s, e, t), alpha)
  {
    hide Sjf.Estimar;
    var d := Medida(s, e, t);
    if d == [] {
      assert ds + d == ds;
    } else {
      assert (ds + d)[..|ds|] == ds;
    }
  }
}
