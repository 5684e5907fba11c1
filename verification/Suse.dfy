/** The thread scheduler of suse/src/suse.c on values: states, queues, semaphores, joins and
    the multiprogramming cap. */
module Suse {
  import opened Options

  /** A thread: its program and its id there. Thread 0 is the main one. */
  datatype Hilo = Hilo(prog: nat, tid: nat)

  datatype EstadoHilo = NEW | READY | EXEC | BLOCKED

  /** The record of a live thread. */
  datatype Info = Info(estado: EstadoHilo, joined: bool, estimado: real)

  datatype Programa = Programa(ready: seq<Hilo>, enEjecucion: Option<Hilo>, joinedBy: seq<Hilo>)

  datatype Semaforo = Semaforo(valor: int, maximo: int, cola: seq<Hilo>)

  /** The globals of the server; `hilos` is every program's `listaDeHilos`. */
  datatype Sistema = Sistema(
    hilos: map<Hilo, Info>,
    programas: seq<Programa>,
    nuevos: seq<Hilo>,
    semaforos: map<string, Semaforo>,
    enMemoria: int,
    maxMultiprog: int)

  // ---- lists ----------------------------------------------------------------

  predicate SinRepetidos(s: seq<Hilo>) {
    forall i: nat, j: nat | i < j < |s| :: s[i] != s[j]
  }

  /** list_remove_by_condition with the thread's ids: the first occurrence goes. */
  function Quitar(s: seq<Hilo>, t: Hilo): (r: seq<Hilo>) {
    if s == [] then [] else if s[0] == t then s[1..] else [s[0]] + Quitar(s[1..], t)
  }

  lemma {:induction false} QuitarMeans(s: seq<Hilo>, t: Hilo)
    requires SinRepetidos(s)
    ensures SinRepetidos(Quitar(s, t)) && t !in Quitar(s, t)
    ensures forall u: Hilo | u != t :: u in Quitar(s, t) <==> u in s
    ensures t in s ==> |Quitar(s, t)| == |s| - 1
    ensures t !in s ==> Quitar(s, t) == s
  {
    if s != [] && s[0] != t {
      QuitarMeans(s[1..], t);
      var r := Quitar(s[1..], t);
      assert forall u: Hilo :: u in s <==> u == s[0] || u in s[1..];
      assert s[0] !in r;
    }
  }

  /** What goes is the first occurrence. */
  lemma {:induction false} QuitarEn(l: seq<Hilo>, t: Hilo) returns (k: nat)
    requires t in l
    ensures k < |l| && l[k] == t && t !in l[..k] && Quitar(l, t) == l[..k] + l[k + 1..]
  {
    if l[0] == t {
      k := 0;
    } else {
      var m := l[1..];
      assert t in m;
      var j := QuitarEn(m, t);
      k := j + 1;
      assert l == [l[0]] + m;
      assert l[..k] == [l[0]] + m[..j];
      assert l[k + 1..] == m[j + 1..];
    }
  }

  lemma AgregarMeans(s: seq<Hilo>, t: Hilo)
    requires SinRepetidos(s) && t !in s
    ensures SinRepetidos(s + [t])
    ensures forall u: Hilo :: u in s + [t] <==> u in s || u == t
  {
  }

  /** First thread, from i on, whose estimate no thread of the list beats; the nested
      predicates `tieneMenorEstimado` and `esElMenor`. */
  function MasCorto(s: seq<Hilo>, h: map<Hilo, Info>, i: nat): (k: nat)
    requires i <= |s| && forall t | t in s :: t in h
    ensures i <= k <= |s|
    ensures k < |s| ==> EsMenor(s, h, k)
    ensures forall j: nat | i <= j < k :: !EsMenor(s, h, j)
    decreases |s| - i
  {
    if i == |s| || EsMenor(s, h, i) then i else MasCorto(s, h, i + 1)
  }

  /** No thread of the list has a smaller estimate than the one at k. */
  predicate EsMenor(s: seq<Hilo>, h: map<Hilo, Info>, k: nat)
    requires k < |s| && forall t | t in s :: t in h
  {
    forall j: nat | j < |s| :: h[s[k]].estimado <= h[s[j]].estimado
  }

  lemma {:induction false} HayMenor(s: seq<Hilo>, h: map<Hilo, Info>, n: nat) returns (k: nat)
    requires 0 < n <= |s| && forall t | t in s :: t in h
    ensures k < n && forall j: nat | j < n :: h[s[k]].estimado <= h[s[j]].estimado
  {
    if n == 1 {
      k := 0;
    } else {
      k := HayMenor(s, h, n - 1);
      if h[s[n - 1]].estimado < h[s[k]].estimado { k := n - 1; }
    }
  }

  /** The search over a non-empty ready list always finds a thread: the earliest of those
      with the smallest estimate. */
  lemma MasCortoFound(s: seq<Hilo>, h: map<Hilo, Info>)
    requires s != [] && forall t | t in s :: t in h
    ensures MasCorto(s, h, 0) < |s|
    ensures EsMenor(s, h, MasCorto(s, h, 0))
    ensures forall j: nat | j < MasCorto(s, h, 0) ::
              h[s[j]].estimado > h[s[MasCorto(s, h, 0)]].estimado
  {
    var k := HayMenor(s, h, |s|);
    assert EsMenor(s, h, k);
    var m := MasCorto(s, h, 0);
    forall j: nat | j < m ensures h[s[j]].estimado > h[s[m]].estimado {
      assert !EsMenor(s, h, j);
    }
  }

  // ---- places ---------------------------------------------------------------

  predicate EnCola(s: Sistema, n: string, t: Hilo) {
    n in s.semaforos && t in s.semaforos[n].cola
  }

  /** Thread t is the main thread of a program that waits for joined threads. */
  predicate EsperaJoin(s: Sistema, t: Hilo) {
    t.tid == 0 && t.prog < |s.programas| && s.programas[t.prog].joinedBy != []
  }

  predicate NuevosOk(s: Sistema, limbo: set<Hilo>) {
    && SinRepetidos(s.nuevos)
    && forall t | t in s.nuevos :: t in s.hilos && t !in limbo && s.hilos[t].estado == NEW
  }

  predicate ReadyOk(s: Sistema, limbo: set<Hilo>) {
    forall p: nat | p < |s.programas| ::
      && SinRepetidos(s.programas[p].ready)
      && forall t | t in s.programas[p].ready ::
           t in s.hilos && t !in limbo && t.prog == p && s.hilos[t].estado == READY
  }

  predicate ExecOk(s: Sistema, limbo: set<Hilo>) {
    forall p: nat | p < |s.programas| && s.programas[p].enEjecucion.Some? ::
      var t := s.programas[p].enEjecucion.value;
      t in s.hilos && t !in limbo && t.prog == p && s.hilos[t].estado == EXEC
  }

  ghost predicate ColasOk(s: Sistema, limbo: set<Hilo>) {
    && (forall n | n in s.semaforos :: SinRepetidos(s.semaforos[n].cola))
    && (forall n, t | EnCola(s, n, t) ::
          t in s.hilos && t !in limbo && s.hilos[t].estado == BLOCKED && !EsperaJoin(s, t))
    && (forall n, n', t | EnCola(s, n, t) && EnCola(s, n', t) :: n == n')
  }

  /** joinedBy is exactly the live joined threads of the program, and its main thread waits. */
  predicate JoinOk(s: Sistema, limbo: set<Hilo>) {
    && (forall p: nat | p < |s.programas| ::
          && SinRepetidos(s.programas[p].joinedBy)
          && (forall t | t in s.programas[p].joinedBy :: t in s.hilos && t.prog == p && s.hilos[t].joined)
          && (s.programas[p].joinedBy != [] ==>
                var cero := Hilo(p, 0);
                cero in s.hilos && cero !in limbo && s.hilos[cero].estado == BLOCKED))
    && (forall t | t in s.hilos && s.hilos[t].joined ::
          t.prog < |s.programas| && t in s.programas[t.prog].joinedBy)
  }

  /** Every live thread that is not in limbo is where its state says. */
  ghost predicate Ubicado(s: Sistema, t: Hilo)
    requires t in s.hilos
  {
    t.prog < |s.programas|
    && match s.hilos[t].estado
       case NEW => t in s.nuevos
       case READY => t in s.programas[t.prog].ready
       case EXEC => s.programas[t.prog].enEjecucion == Some(t)
       case BLOCKED => EsperaJoin(s, t) || exists n :: EnCola(s, n, t)
  }

  /** Each live thread is in exactly one place, the one its `estado` names; `limbo` holds
      the threads between two places. */
  ghost predicate Lugares(s: Sistema, limbo: set<Hilo>) {
    && NuevosOk(s, limbo) && ReadyOk(s, limbo) && ExecOk(s, limbo) && ColasOk(s, limbo) && JoinOk(s, limbo)
    && forall t | t in s.hilos && t !in limbo :: Ubicado(s, t)
  }

  /** READY, EXEC and BLOCKED threads of all programs. */
  function EnMemoria(h: map<Hilo, Info>): set<Hilo> {
    set t | t in h && h[t].estado != NEW
  }

  /** `programasEnMemoria` counts them, and the cap holds. */
  predicate Cuenta(s: Sistema) {
    s.enMemoria == |EnMemoria(s.hilos)| && s.enMemoria <= s.maxMultiprog
  }

  /** As many threads wait as the value is below zero, and it never passes its maximum. */
  predicate SemaforoOk(m: Semaforo) {
    |m.cola| == (if m.valor < 0 then -m.valor else 0) && 0 <= m.maximo && m.valor <= m.maximo
  }

  ghost predicate SemaforosOk(s: Sistema) {
    forall n | n in s.semaforos :: SemaforoOk(s.semaforos[n])
  }

  ghost predicate Inv(s: Sistema) {
    Lugares(s, {}) && Cuenta(s) && SemaforosOk(s)
  }

  // ---- moves ----------------------------------------------------------------

  function ConPrograma(s: Sistema, p: nat, g: Programa): Sistema
    requires p < |s.programas|
  {
    s.(programas := s.programas[p := g])
  }

  function ConEstado(s: Sistema, t: Hilo, e: EstadoHilo): Sistema
    requires t in s.hilos
  {
    s.(hilos := s.hilos[t := s.hilos[t].(estado := e)])
  }

  function SacarDeReady(s: Sistema, t: Hilo): Sistema
    requires t.prog < |s.programas|
  {
    var g := s.programas[t.prog];
    ConPrograma(s, t.prog, g.(ready := Quitar(g.ready, t)))
  }

  function SacarDeExec(s: Sistema, p: nat): Sistema
    requires p < |s.programas|
  {
    ConPrograma(s, p, s.programas[p].(enEjecucion := None))
  }

  function PonerEnReady(s: Sistema, t: Hilo): Sistema
    requires t in s.hilos && t.prog < |s.programas|
  {
    var g := s.programas[t.prog];
    ConPrograma(ConEstado(s, t, READY), t.prog, g.(ready := g.ready + [t]))
  }

  function PonerEnExec(s: Sistema, t: Hilo): Sistema
    requires t in s.hilos && t.prog < |s.programas|
  {
    ConPrograma(ConEstado(s, t, EXEC), t.prog, s.programas[t.prog].(enEjecucion := Some(t)))
  }

  /** A change that leaves the queues alone, wakes no waiter and makes no main thread wait. */
  lemma ColasKept(s: Sistema, limbo: set<Hilo>, s': Sistema, limbo': set<Hilo>)
    requires ColasOk(s, limbo) && s'.semaforos == s.semaforos
    requires forall u | EsperaJoin(s', u) :: EsperaJoin(s, u)
    requires forall n, u | EnCola(s, n, u) :: u in s'.hilos && u !in limbo' && s'.hilos[u].estado == BLOCKED
    ensures ColasOk(s', limbo')
  {
    hide SinRepetidos, EsperaJoin;
    assert forall n, u :: EnCola(s', n, u) <==> EnCola(s, n, u);
  }

  lemma SacarDeReadyListas(s: Sistema, limbo: set<Hilo>, t: Hilo)
    requires Lugares(s, limbo) && t in s.hilos && t.prog < |s.programas| && t in s.programas[t.prog].ready
    ensures var s', l := SacarDeReady(s, t), limbo + {t};
            NuevosOk(s', l) && ReadyOk(s', l) && ExecOk(s', l) && JoinOk(s', l) && ColasOk(s', l)
  {
    QuitarMeans(s.programas[t.prog].ready, t);
    ColasKept(s, limbo, SacarDeReady(s, t), limbo + {t});
    hide SinRepetidos, Quitar, Ubicado, ColasOk;
  }

  lemma SacarDeReadyKeeps(s: Sistema, limbo: set<Hilo>, t: Hilo)
    requires Lugares(s, limbo) && t in s.hilos && t.prog < |s.programas| && t in s.programas[t.prog].ready
    ensures Lugares(SacarDeReady(s, t), limbo + {t})
    ensures SacarDeReady(s, t).hilos == s.hilos && SacarDeReady(s, t).semaforos == s.semaforos
  {
    QuitarMeans(s.programas[t.prog].ready, t);
    SacarDeReadyListas(s, limbo, t);
    hide NuevosOk, ReadyOk, ExecOk, JoinOk, ColasOk, Quitar, SinRepetidos;
    var s' := SacarDeReady(s, t);
    assert forall n, u :: EnCola(s', n, u) <==> EnCola(s, n, u);
    assert forall u :: EsperaJoin(s', u) <==> EsperaJoin(s, u);
    forall u | u in s'.hilos && u !in limbo + {t} ensures Ubicado(s', u) {
      assert Ubicado(s, u);
    }
  }

  lemma SacarDeExecListas(s: Sistema, limbo: set<Hilo>, p: nat)
    requires Lugares(s, limbo) && p < |s.programas| && s.programas[p].enEjecucion.Some?
    ensures var s', l := SacarDeExec(s, p), limbo + {s.programas[p].enEjecucion.value};
            NuevosOk(s', l) && ReadyOk(s', l) && ExecOk(s', l) && JoinOk(s', l) && ColasOk(s', l)
  {
    ColasKept(s, limbo, SacarDeExec(s, p), limbo + {s.programas[p].enEjecucion.value});
    hide SinRepetidos, Ubicado, ColasOk;
  }

  lemma SacarDeExecKeeps(s: Sistema, limbo: set<Hilo>, p: nat)
    requires Lugares(s, limbo) && p < |s.programas| && s.programas[p].enEjecucion.Some?
    ensures Lugares(SacarDeExec(s, p), limbo + {s.programas[p].enEjecucion.value})
  {
    SacarDeExecListas(s, limbo, p);
    hide NuevosOk, ReadyOk, ExecOk, JoinOk, ColasOk;
    var t := s.programas[p].enEjecucion.value;
    var s' := SacarDeExec(s, p);
    assert forall n, u :: EnCola(s', n, u) <==> EnCola(s, n, u);
    assert forall u :: EsperaJoin(s', u) <==> EsperaJoin(s, u);
    forall u | u in s'.hilos && u !in limbo + {t} ensures Ubicado(s', u) {
      assert Ubicado(s, u);
    }
  }

  lemma SacarDeNuevosListas(s: Sistema, limbo: set<Hilo>, t: Hilo)
    requires Lugares(s, limbo) && t in s.nuevos
    ensures var s', l := s.(nuevos := Quitar(s.nuevos, t)), limbo + {t};
            NuevosOk(s', l) && ReadyOk(s', l) && ExecOk(s', l) && JoinOk(s', l) && ColasOk(s', l)
  {
    QuitarMeans(s.nuevos, t);
    ColasKept(s, limbo, s.(nuevos := Quitar(s.nuevos, t)), limbo + {t});
    hide SinRepetidos, Quitar, Ubicado, ColasOk;
  }

  lemma SacarDeNuevosKeeps(s: Sistema, limbo: set<Hilo>, t: Hilo)
    requires Lugares(s, limbo) && t in s.nuevos
    ensures Lugares(s.(nuevos := Quitar(s.nuevos, t)), limbo + {t})
  {
    assert SinRepetidos(s.nuevos);
    QuitarMeans(s.nuevos, t);
    SacarDeNuevosListas(s, limbo, t);
    hide NuevosOk, ReadyOk, ExecOk, JoinOk, ColasOk, Quitar, SinRepetidos;
    var s' := s.(nuevos := Quitar(s.nuevos, t));
    assert forall n, u :: EnCola(s', n, u) <==> EnCola(s, n, u);
    assert forall u :: EsperaJoin(s', u) <==> EsperaJoin(s, u);
    forall u | u in s'.hilos && u !in limbo + {t} ensures Ubicado(s', u) {
      assert Ubicado(s, u);
    }
  }

  lemma PonerEnReadyListas(s: Sistema, limbo: set<Hilo>, t: Hilo)
    requires Lugares(s, limbo) && t in s.hilos && t in limbo && t.prog < |s.programas|
    ensures var s', l := PonerEnReady(s, t), limbo - {t};
            NuevosOk(s', l) && ReadyOk(s', l) && ExecOk(s', l) && JoinOk(s', l) && ColasOk(s', l)
  {
    ColasKept(s, limbo, PonerEnReady(s, t), limbo - {t});
    PonerEnReadyReady(s, limbo, t);
    hide SinRepetidos, Ubicado, ColasOk, ReadyOk;
  }

  lemma PonerEnReadyReady(s: Sistema, limbo: set<Hilo>, t: Hilo)
    requires ReadyOk(s, limbo) && t in s.hilos && t in limbo && t.prog < |s.programas|
    ensures ReadyOk(PonerEnReady(s, t), limbo - {t})
  {
    AgregarMeans(s.programas[t.prog].ready, t);
    hide SinRepetidos;
  }

  lemma PonerEnReadyKeeps(s: Sistema, limbo: set<Hilo>, t: Hilo)
    requires Lugares(s, limbo) && t in s.hilos && t in limbo && t.prog < |s.programas|
    ensures Lugares(PonerEnReady(s, t), limbo - {t})
  {
    PonerEnReadyListas(s, limbo, t);
    hide NuevosOk, ReadyOk, ExecOk, JoinOk, ColasOk;
    var s' := PonerEnReady(s, t);
    assert forall n, u :: EnCola(s', n, u) <==> EnCola(s, n, u);
    assert forall u :: EsperaJoin(s', u) <==> EsperaJoin(s, u);
    forall u | u in s'.hilos && u !in limbo - {t} ensures Ubicado(s', u) {
      if u != t { assert Ubicado(s, u); }
    }
  }

  lemma PonerEnExecListas(s: Sistema, limbo: set<Hilo>, t: Hilo)
    requires Lugares(s, limbo) && t in s.hilos && t in limbo && t.prog < |s.programas|
    ensures var s', l := PonerEnExec(s, t), limbo - {t};
            NuevosOk(s', l) && ReadyOk(s', l) && ExecOk(s', l) && JoinOk(s', l) && ColasOk(s', l)
  {
    ColasKept(s, limbo, PonerEnExec(s, t), limbo - {t});
    hide SinRepetidos, Ubicado, ColasOk;
  }

  lemma PonerEnExecKeeps(s: Sistema, limbo: set<Hilo>, t: Hilo)
    requires Lugares(s, limbo) && t in s.hilos && t in limbo && t.prog < |s.programas|
    requires s.programas[t.prog].enEjecucion.None?
    ensures Lugares(PonerEnExec(s, t), limbo - {t})
  {
    PonerEnExecListas(s, limbo, t);
    hide NuevosOk, ReadyOk, ExecOk, JoinOk, ColasOk;
    var s' := PonerEnExec(s, t);
    assert forall n, u :: EnCola(s', n, u) <==> EnCola(s, n, u);
    assert forall u :: EsperaJoin(s', u) <==> EsperaJoin(s, u);
    forall u | u in s'.hilos && u !in limbo - {t} ensures Ubicado(s', u) {
      if u != t { assert Ubicado(s, u); }
    }
  }

  /** Thread t, in limbo, starts to wait on semaphore n. */
  function PonerEnCola(s: Sistema, t: Hilo, n: string, valor: int): Sistema
    requires t in s.hilos && n in s.semaforos
  {
    var m := s.semaforos[n];
    ConEstado(s, t, BLOCKED).(semaforos := s.semaforos[n := m.(valor := valor, cola := m.cola + [t])])
  }

  lemma PonerEnColaKeeps(s: Sistema, limbo: set<Hilo>, t: Hilo, n: string, valor: int)
    requires Lugares(s, limbo) && t in s.hilos && t in limbo && n in s.semaforos
    requires t.prog < |s.programas| && !EsperaJoin(s, t)
    ensures Lugares(PonerEnCola(s, t, n, valor), limbo - {t})
  {
    var s' := PonerEnCola(s, t, n, valor);
    assert t !in s.semaforos[n].cola by { if t in s.semaforos[n].cola { assert EnCola(s, n, t); } }
    AgregarMeans(s.semaforos[n].cola, t);
    assert forall k, u :: EnCola(s', k, u) <==> EnCola(s, k, u) || (k == n && u == t);
    assert forall u :: EsperaJoin(s', u) <==> EsperaJoin(s, u);
    forall u | u in s'.hilos && u !in limbo - {t} ensures Ubicado(s', u) {
      if u != t { assert Ubicado(s, u); } else { assert EnCola(s', n, t); }
    }
  }

  /** The first waiter of semaphore n is taken off its queue. */
  function SacarDeCola(s: Sistema, n: string, valor: int): Sistema
    requires n in s.semaforos && s.semaforos[n].cola != []
  {
    s.(semaforos := s.semaforos[n := s.semaforos[n].(valor := valor, cola := s.semaforos[n].cola[1..])])
  }

  lemma SacarDeColaKeeps(s: Sistema, limbo: set<Hilo>, n: string, valor: int)
    requires Lugares(s, limbo) && n in s.semaforos && s.semaforos[n].cola != []
    ensures EnCola(s, n, s.semaforos[n].cola[0])
    ensures Lugares(SacarDeCola(s, n, valor), limbo + {s.semaforos[n].cola[0]})
  {
    var c := s.semaforos[n].cola;
    var t := c[0];
    var s' := SacarDeCola(s, n, valor);
    assert EnCola(s, n, t);
    assert forall u :: u in c <==> u == t || u in c[1..];
    assert t !in c[1..];
    assert forall k, u :: EnCola(s', k, u) <==> EnCola(s, k, u) && u != t;
    assert forall u :: EsperaJoin(s', u) <==> EsperaJoin(s, u);
    forall u | u in s'.hilos && u !in limbo + {t} ensures Ubicado(s', u) {
      assert Ubicado(s, u);
      if k :| EnCola(s, k, u) { assert EnCola(s', k, u); }
    }
  }

  /** A change of a semaphore that leaves its queue alone moves nobody. */
  lemma SameColasKeeps(s: Sistema, limbo: set<Hilo>, n: string, valor: int)
    requires Lugares(s, limbo) && n in s.semaforos
    ensures Lugares(s.(semaforos := s.semaforos[n := s.semaforos[n].(valor := valor)]), limbo)
  {
    var s' := s.(semaforos := s.semaforos[n := s.semaforos[n].(valor := valor)]);
    assert forall k, u :: EnCola(s', k, u) <==> EnCola(s, k, u);
    assert forall u :: EsperaJoin(s', u) <==> EsperaJoin(s, u);
    forall u | u in s'.hilos && u !in limbo ensures Ubicado(s', u) {
      assert Ubicado(s, u);
    }
  }

  /** Thread u is joined; the main thread, in limbo or already waiting, waits for it. */
  function PonerEnJoin(s: Sistema, u: Hilo): Sistema
    requires u in s.hilos && u.prog < |s.programas| && Hilo(u.prog, 0) in s.hilos
  {
    var s1 := s.(hilos := s.hilos[u := s.hilos[u].(joined := true)]);
    var g := s.programas[u.prog];
    ConPrograma(ConEstado(s1, Hilo(u.prog, 0), BLOCKED), u.prog, g.(joinedBy := g.joinedBy + [u]))
  }

  /** u can be joined: it is not yet, and its main thread is in limbo or already waiting. */
  ghost predicate PuedeUnirse(s: Sistema, limbo: set<Hilo>, u: Hilo) {
    && Lugares(s, limbo) && u in s.hilos && u.prog < |s.programas| && Hilo(u.prog, 0) in s.hilos
    && !s.hilos[u].joined
    && (Hilo(u.prog, 0) in limbo || EsperaJoin(s, Hilo(u.prog, 0)))
  }

  lemma PonerEnJoinJoin(s: Sistema, limbo: set<Hilo>, u: Hilo)
    requires PuedeUnirse(s, limbo, u)
    ensures JoinOk(PonerEnJoin(s, u), limbo - {Hilo(u.prog, 0)})
  {
    assert u !in s.programas[u.prog].joinedBy;
    AgregarMeans(s.programas[u.prog].joinedBy, u);
    hide SinRepetidos, NuevosOk, ReadyOk, ExecOk, ColasOk, Ubicado;
    var s', cero := PonerEnJoin(s, u), Hilo(u.prog, 0);
    forall p: nat | p < |s'.programas|
      ensures SinRepetidos(s'.programas[p].joinedBy)
      ensures forall t | t in s'.programas[p].joinedBy :: t in s'.hilos && t.prog == p && s'.hilos[t].joined
      ensures s'.programas[p].joinedBy != [] ==>
                Hilo(p, 0) in s'.hilos && Hilo(p, 0) !in limbo - {cero} && s'.hilos[Hilo(p, 0)].estado == BLOCKED
    {
      if p != u.prog { assert s'.programas[p] == s.programas[p]; }
    }
    forall t | t in s'.hilos && s'.hilos[t].joined
      ensures t.prog < |s'.programas| && t in s'.programas[t.prog].joinedBy
    {
      assert t == u || s.hilos[t].joined;
    }
  }

  lemma PonerEnJoinColas(s: Sistema, limbo: set<Hilo>, u: Hilo)
    requires PuedeUnirse(s, limbo, u)
    ensures ColasOk(PonerEnJoin(s, u), limbo - {Hilo(u.prog, 0)})
  {
    hide SinRepetidos, NuevosOk, ReadyOk, ExecOk, Ubicado;
    var s' := PonerEnJoin(s, u);
    assert forall k, v :: EnCola(s', k, v) <==> EnCola(s, k, v);
  }

  lemma PonerEnJoinListas(s: Sistema, limbo: set<Hilo>, u: Hilo)
    requires PuedeUnirse(s, limbo, u)
    ensures var s', l := PonerEnJoin(s, u), limbo - {Hilo(u.prog, 0)};
            NuevosOk(s', l) && ReadyOk(s', l) && ExecOk(s', l)
  {
  }

  lemma PonerEnJoinKeeps(s: Sistema, limbo: set<Hilo>, u: Hilo)
    requires PuedeUnirse(s, limbo, u)
    ensures Lugares(PonerEnJoin(s, u), limbo - {Hilo(u.prog, 0)})
  {
    hide SinRepetidos, JoinOk, ColasOk, NuevosOk, ReadyOk, ExecOk;
    PonerEnJoinJoin(s, limbo, u);
    PonerEnJoinColas(s, limbo, u);
    PonerEnJoinListas(s, limbo, u);
    var cero := Hilo(u.prog, 0);
    var s' := PonerEnJoin(s, u);
    assert forall k, v :: EnCola(s', k, v) <==> EnCola(s, k, v);
    forall v | v in s'.hilos && v !in limbo - {cero} ensures Ubicado(s', v) {
      if v != cero { assert Ubicado(s, v); }
    }
  }

  /** Joined thread t is taken off the list its main thread waits on. */
  function SacarDeJoin(s: Sistema, t: Hilo): Sistema
    requires t in s.hilos && t.prog < |s.programas|
  {
    var g := s.programas[t.prog];
    ConPrograma(s.(hilos := s.hilos[t := s.hilos[t].(joined := false)]), t.prog,
                g.(joinedBy := Quitar(g.joinedBy, t)))
  }

  /** Limbo after joined thread t leaves the list: the main thread too, if t was the last. */
  function LimboSinJoin(s: Sistema, limbo: set<Hilo>, t: Hilo): set<Hilo>
    requires t in s.hilos && t.prog < |s.programas|
  {
    if SacarDeJoin(s, t).programas[t.prog].joinedBy == [] then limbo + {Hilo(t.prog, 0)} else limbo
  }

  lemma SacarDeJoinJoin(s: Sistema, limbo: set<Hilo>, t: Hilo)
    requires Lugares(s, limbo) && t in s.hilos && t.prog < |s.programas| && s.hilos[t].joined
    ensures Hilo(t.prog, 0) in s.hilos && s.hilos[Hilo(t.prog, 0)].estado == BLOCKED
    ensures EsperaJoin(s, Hilo(t.prog, 0))
    ensures JoinOk(SacarDeJoin(s, t), LimboSinJoin(s, limbo, t))
  {
    hide SinRepetidos, NuevosOk, ReadyOk, ExecOk, ColasOk, Ubicado;
    assert t in s.programas[t.prog].joinedBy;
    QuitarMeans(s.programas[t.prog].joinedBy, t);
  }

  lemma SacarDeJoinColas(s: Sistema, limbo: set<Hilo>, t: Hilo)
    requires Lugares(s, limbo) && t in s.hilos && t.prog < |s.programas| && s.hilos[t].joined
    ensures ColasOk(SacarDeJoin(s, t), LimboSinJoin(s, limbo, t))
  {
    SacarDeJoinJoin(s, limbo, t);
    hide SinRepetidos, NuevosOk, ReadyOk, ExecOk, JoinOk, Ubicado, Quitar;
    var s' := SacarDeJoin(s, t);
    assert forall k, v :: EnCola(s', k, v) <==> EnCola(s, k, v);
    assert forall v :: v != Hilo(t.prog, 0) ==> (EsperaJoin(s', v) <==> EsperaJoin(s, v));
  }

  lemma SacarDeJoinListas(s: Sistema, limbo: set<Hilo>, t: Hilo)
    requires Lugares(s, limbo) && t in s.hilos && t.prog < |s.programas| && s.hilos[t].joined
    ensures var s', l := SacarDeJoin(s, t), LimboSinJoin(s, limbo, t);
            NuevosOk(s', l) && ReadyOk(s', l) && ExecOk(s', l)
  {
  }

  lemma SacarDeJoinKeeps(s: Sistema, limbo: set<Hilo>, t: Hilo)
    requires Lugares(s, limbo) && t in s.hilos && t.prog < |s.programas| && s.hilos[t].joined
    ensures Hilo(t.prog, 0) in s.hilos && s.hilos[Hilo(t.prog, 0)].estado == BLOCKED
    ensures EsperaJoin(s, Hilo(t.prog, 0))
    ensures Lugares(SacarDeJoin(s, t), LimboSinJoin(s, limbo, t))
  {
    hide SinRepetidos, Quitar, JoinOk, ColasOk, NuevosOk, ReadyOk, ExecOk;
    SacarDeJoinJoin(s, limbo, t);
    SacarDeJoinColas(s, limbo, t);
    SacarDeJoinListas(s, limbo, t);
    var s', cero := SacarDeJoin(s, t), Hilo(t.prog, 0);
    assert forall k, v :: EnCola(s', k, v) <==> EnCola(s, k, v);
    forall v | v in s'.hilos && v !in LimboSinJoin(s, limbo, t) ensures Ubicado(s', v) {
      assert v !in limbo && Ubicado(s, v);
    }
  }

  /** A thread in limbo that nobody waits for can be forgotten. */
  lemma BorrarKeeps(s: Sistema, limbo: set<Hilo>, t: Hilo)
    requires Lugares(s, limbo) && t in s.hilos && t in limbo && !s.hilos[t].joined
    ensures Lugares(s.(hilos := s.hilos - {t}), limbo - {t})
  {
    var s' := s.(hilos := s.hilos - {t});
    assert forall k, v :: EnCola(s', k, v) <==> EnCola(s, k, v);
    assert forall v :: EsperaJoin(s', v) <==> EsperaJoin(s, v);
    forall v | v in s'.hilos && v !in limbo - {t} ensures Ubicado(s', v) {
      assert Ubicado(s, v);
    }
  }

  lemma EstimadoListas(s: Sistema, limbo: set<Hilo>, t: Hilo, e: real)
    requires Lugares(s, limbo) && t in s.hilos
    ensures var s' := s.(hilos := s.hilos[t := s.hilos[t].(estimado := e)]);
            && NuevosOk(s', limbo) && ReadyOk(s', limbo) && ExecOk(s', limbo)
            && JoinOk(s', limbo) && ColasOk(s', limbo)
  {
    ColasKept(s, limbo, s.(hilos := s.hilos[t := s.hilos[t].(estimado := e)]), limbo);
    hide SinRepetidos, Ubicado, ColasOk;
  }

  /** New estimates move nobody. */
  lemma EstimadoKeeps(s: Sistema, limbo: set<Hilo>, t: Hilo, e: real)
    requires Lugares(s, limbo) && t in s.hilos
    ensures Lugares(s.(hilos := s.hilos[t := s.hilos[t].(estimado := e)]), limbo)
  {
    EstimadoListas(s, limbo, t, e);
    hide NuevosOk, ReadyOk, ExecOk, JoinOk, ColasOk;
    var s' := s.(hilos := s.hilos[t := s.hilos[t].(estimado := e)]);
    assert forall k, v :: EnCola(s', k, v) <==> EnCola(s, k, v);
    assert forall v :: EsperaJoin(s', v) <==> EsperaJoin(s, v);
    forall v | v in s'.hilos && v !in limbo ensures Ubicado(s', v) {
      assert Ubicado(s, v);
    }
  }
}
