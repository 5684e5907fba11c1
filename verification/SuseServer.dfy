/** The scheduler as the C code runs it: lists scanned and changed in place. Every method is
    tied to the value model it implements. */
module SuseServer {
  import opened Options
  import opened Suse
  import opened SuseOps
  import opened SuseRuns

  class ServidorSuse {
    var hilos: map<Hilo, Info>            // every program's listaDeHilos
    var programas: seq<Programa>
    var nuevos: seq<Hilo>
    var semaforos: map<string, Semaforo>
    var enMemoria: int
    const maxMultiprog: int
    const alpha: real

    ghost function Vista(): Sistema
      reads this
    {
      Sistema(hilos, programas, nuevos, semaforos, enMemoria, maxMultiprog)
    }

    constructor (sems: map<string, Semaforo>, cap: int, alphaSjf: real)
      requires 0 <= cap
      requires forall n | n in sems :: sems[n].cola == [] && 0 <= sems[n].valor <= sems[n].maximo
      ensures Inv(Vista()) && semaforos == sems && programas == []
    {
      hilos, programas, nuevos, semaforos, enMemoria := map[], [], [], sems, 0;
      maxMultiprog, alpha := cap, alphaSjf;
      new;
      InicialInv(sems, cap);
    }

    /** `removerHiloDeLista`: list_remove_by_condition with the thread's ids. */
    method RemoverDeLista(t: Hilo, s: seq<Hilo>) returns (r: seq<Hilo>)
      ensures r == Quitar(s, t)
    {
      hide Quitar;
      var i := 0;
      while i < |s| && s[i] != t
        invariant 0 <= i <= |s|
        invariant forall j: nat | j < i :: s[j] != t
      {
        i := i + 1;
      }
      QuitarFirst(s, t, i);
      r := if i < |s| then s[..i] + s[i + 1..] else s;
    }

    /** `tieneMenorEstimado` over a ready list: a scan whose condition is itself a scan. */
    method BuscarMasCorto(s: seq<Hilo>) returns (k: nat)
      requires s != [] && forall t | t in s :: t in hilos
      ensures k == MasCorto(s, hilos, 0) < |s|
    {
      MasCortoFound(s, hilos);
      k := 0;
      while k < |s|
        invariant 0 <= k <= |s|
        invariant MasCorto(s, hilos, 0) == MasCorto(s, hilos, k)
      {
        var todos := true;
        var j := 0;
        while j < |s| && todos
          invariant 0 <= j <= |s|
          invariant todos <==> forall i: nat | i < j :: hilos[s[k]].estimado <= hilos[s[i]].estimado
        {
          todos := hilos[s[k]].estimado <= hilos[s[j]].estimado;
          j := j + 1;
        }
        if todos {
          return;
        }
        assert !EsMenor(s, hilos, k);
        k := k + 1;
      }
    }

    /** `cargarHilosAReady` */
    method CargarHilosAReady()
      requires forall t | t in nuevos :: t in hilos && t.prog < |programas|
      modifies this
      ensures Vista() == Cargar(old(Vista()))
    {
      hide PonerEnReady;
      while enMemoria < maxMultiprog && |nuevos| != 0
        invariant forall t | t in nuevos :: t in hilos && t.prog < |programas|
        invariant Cargar(old(Vista())) == Cargar(Vista())
        decreases |nuevos|
      {
        AdmitirHilo();
      }
    }

    /** The first NEW thread goes to READY. */
    method AdmitirHilo()
      requires nuevos != [] && forall t | t in nuevos :: t in hilos && t.prog < |programas|
      modifies this
      ensures var s, t := old(Vista()), old(nuevos)[0];
              && Vista() == PonerEnReady(s.(nuevos := s.nuevos[1..]), t).(enMemoria := s.enMemoria + 1)
              && nuevos == s.nuevos[1..] && |programas| == |s.programas| && hilos.Keys == s.hilos.Keys
    {
      var hilo := nuevos[0];
      nuevos := nuevos[1..];
      hilos := hilos[hilo := hilos[hilo].(estado := READY)];
      var g := programas[hilo.prog];
      programas := programas[hilo.prog := g.(ready := g.ready + [hilo])];
      enMemoria := enMemoria + 1;
    }

    /** `suseScheduleNext` */
    method SuseScheduleNext(p: nat)
      requires p < |programas| && InvPunteros2(Vista(), p)
      modifies this
      ensures Vista() == ScheduleNext(old(Vista()), p)
    {
      var g := programas[p];
      if g.enEjecucion.Some? {
        var t := g.enEjecucion.value;
        hilos := hilos[t := hilos[t].(estado := READY)];
        g := g.(ready := g.ready + [t], enEjecucion := None);
        programas := programas[p := g];
      }
      ghost var s1 := Vista();
      assert s1 == Desalojar(old(Vista()), p);
      if |g.ready| != 0 {
        var k := BuscarMasCorto(g.ready);
        var aEnviar := g.ready[k];
        hilos := hilos[aEnviar := hilos[aEnviar].(estado := EXEC)];
        programas := programas[p := g.(ready := g.ready[..k] + g.ready[k + 1..], enEjecucion := Some(aEnviar))];
      }
    }

    /** `estimarDuracionHilo` applied to the running thread, if any. */
    method MedirHilo(p: nat, duracion: real)
      requires p < |programas| && InvPunteros2(Vista(), p)
      modifies this`hilos
      ensures Vista() == Medir(old(Vista()), p, duracion, alpha)
    {
      var e := programas[p].enEjecucion;
      if e.Some? {
        var t := e.value;
        hilos := hilos[t := hilos[t].(estimado := duracion * alpha + (1.0 - alpha) * hilos[t].estimado)];
      }
    }

    /** The SUSE_SCHEDULE_NEXT branch of the request loop. */
    method AtenderScheduleNext(p: nat, duracion: real)
      requires Inv(Vista()) && p < |programas|
      modifies this
      ensures Punteros(old(Vista())) && Vista() == Planificar(old(Vista()), p, duracion, alpha) && Inv(Vista())
    {
      PlanificarPasos(Vista(), p, duracion, alpha);
      hide Inv, Punteros, InvPunteros2, Medir, Cargar, ScheduleNext, Planificar;
      MedirHilo(p, duracion);
      CargarHilosAReady();
      SuseScheduleNext(p);
    }

    /** `suseCreate` */
    method SuseCreate(t: Hilo)
      requires Inv(Vista()) && t !in hilos && t.prog < |programas|
      modifies this
      ensures Vista() == Crear(old(Vista()), t) && Inv(Vista())
    {
      CrearKeeps(Vista(), t);
      hilos := hilos[t := Info(NEW, false, 0.0)];
      nuevos := nuevos + [t];
    }

    /** `bloquearHilo` */
    method BloquearHilo(t: Hilo)
      requires t in hilos && t.prog < |programas|
      modifies this
      ensures Vista() == Bloquear(old(Vista()), t)
    {
      var g := programas[t.prog];
      match hilos[t].estado {
        case EXEC =>
          programas := programas[t.prog := g.(enEjecucion := None)];
        case READY =>
          var r := RemoverDeLista(t, g.ready);
          programas := programas[t.prog := g.(ready := r)];
        case NEW =>
          nuevos := RemoverDeLista(t, nuevos);
        case BLOCKED =>
      }
      hilos := hilos[t := hilos[t].(estado := BLOCKED)];
    }

    /** `suseWait`; false is the null dereference of an unknown semaphore. */
    method SuseWait(t: Hilo, n: string) returns (ok: bool)
      requires t in hilos ==> t.prog < |programas|
      modifies this
      ensures var r := Wait(old(Vista()), t, n); ok == r.Some? && (ok ==> Vista() == r.value)
    {
      ok := true;
      if t in hilos {
        if hilos[t].estado != BLOCKED {
          if n !in semaforos {
            return false;
          }
          var m := semaforos[n];
          m := m.(valor := m.valor - 1);
          semaforos := semaforos[n := m];
          if m.valor < 0 {
            semaforos := semaforos[n := m.(cola := m.cola + [t])];
            BloquearHilo(t);
          }
        }
      }
    }

    /** `desbloquearHilo` */
    method DesbloquearHilo(t: Hilo)
      requires t in hilos && t.prog < |programas|
      modifies this
      ensures Vista() == Desbloquear(old(Vista()), t)
    {
      var g := programas[t.prog];
      if g.enEjecucion.None? && |g.ready| == 0 {
        programas := programas[t.prog := g.(enEjecucion := Some(t))];
        SuseScheduleNext(t.prog);
      } else {
        programas := programas[t.prog := g.(ready := g.ready + [t])];
      }
    }

    /** `suseSignal`; false is the null dereference of an unknown semaphore, or a waiter that was
        closed, whose record this model does not follow. */
    method SuseSignal(n: string) returns (ok: bool)
      modifies this
      ensures var r := Signal(old(Vista()), n); ok == r.Some? && (ok ==> Vista() == r.value)
    {
      hide ScheduleNext, Desbloquear;
      if n !in semaforos {
        return false;
      }
      ghost var s := Vista();
      var m := semaforos[n];
      if m.valor < m.maximo {
        m := m.(valor := m.valor + 1);
      }
      semaforos := semaforos[n := m];
      ok := true;
      if |m.cola| != 0 {
        var hilo := m.cola[0];
        semaforos := semaforos[n := m.(cola := m.cola[1..])];
        if hilo !in hilos || hilo.prog >= |programas| {
          return false;
        }
        hilos := hilos[hilo := hilos[hilo].(estado := READY)];
        assert Vista() == ConEstado(SacarDeCola(s, n, m.valor), hilo, READY);
        DesbloquearHilo(hilo);
      }
    }

    /** `suseJoin`; false is the null dereference when there is no main thread. */
    method SuseJoin(p: nat, tid: nat) returns (ok: bool)
      requires p < |programas|
      modifies this
      ensures var r := Join(old(Vista()), p, tid); ok == r.Some? && (ok ==> Vista() == r.value)
    {
      ok := true;
      var u := Hilo(p, tid);
      if u in hilos {
        if Hilo(p, 0) !in hilos {
          return false;
        }
        hilos := hilos[u := hilos[u].(joined := true)];
        BloquearHilo(Hilo(p, 0));
        programas := programas[p := programas[p].(joinedBy := programas[p].joinedBy + [u])];
      }
    }

    /** The join half of `suseClose`. */
    method DesbloquearJoin(t: Hilo) returns (ok: bool)
      requires t in hilos && t.prog < |programas|
      modifies this
      ensures var r := CerrarJoin(old(Vista()), t); ok == r.Some? && (ok ==> Vista() == r.value)
    {
      ok := true;
      if hilos[t].joined {
        var resto := RemoverDeLista(t, programas[t.prog].joinedBy);
        programas := programas[t.prog := programas[t.prog].(joinedBy := resto)];
        hilos := hilos[t := hilos[t].(joined := false)];
        assert Vista() == SacarDeJoin(old(Vista()), t);
        if |resto| == 0 {
          var cero := Hilo(t.prog, 0);
          if cero == t || cero !in hilos {
            return false;
          }
          hilos := hilos[cero := hilos[cero].(estado := READY)];
          programas := programas[t.prog := programas[t.prog].(ready := programas[t.prog].ready + [cero])];
        }
      }
    }

    /** `suseClose`; false is the null dereference when the thread is unknown. */
    method SuseClose(t: Hilo) returns (ok: bool)
      requires t in hilos ==> t.prog < |programas|
      modifies this
      ensures var r := Close(old(Vista()), t); ok == r.Some? && (ok ==> Vista() == r.value)
    {
      if t !in hilos {
        return false;
      }
      ghost var s := Vista();
      var estado := hilos[t].estado;
      ok := DesbloquearJoin(t);
      if !ok {
        return;
      }
      CerrarJoinShape(s, t);
      var g := programas[t.prog];
      match estado {
        case EXEC =>
          programas := programas[t.prog := g.(enEjecucion := None)];
          enMemoria := enMemoria - 1;
        case READY =>
          var r := RemoverDeLista(t, g.ready);
          programas := programas[t.prog := g.(ready := r)];
          enMemoria := enMemoria - 1;
        case NEW =>
          nuevos := RemoverDeLista(t, nuevos);
        case BLOCKED =>
          enMemoria := enMemoria - 1;
      }
      hilos := hilos - {t};
    }
  }

  lemma {:induction false} QuitarFirst(s: seq<Hilo>, t: Hilo, i: nat)
    requires i <= |s| && (forall j: nat | j < i :: s[j] != t) && (i < |s| ==> s[i] == t)
    ensures Quitar(s, t) == if i < |s| then s[..i] + s[i + 1..] else s
  {
    if i != 0 {
      QuitarFirst(s[1..], t, i - 1);
      assert s[..i] == [s[0]] + s[1..][..i - 1];
    }
  }

  /** A schedule request is measuring, admitting and scheduling, and each part may run. */
  lemma PlanificarPasos(s: Sistema, p: nat, duracion: real, alpha: real)
    requires Inv(s) && p < |s.programas|
    ensures Punteros(s) && InvPunteros2(s, p)
    ensures var s1 := Medir(s, p, duracion, alpha);
            && (forall t | t in s1.nuevos :: t in s1.hilos && t.prog < |s1.programas|)
            && p < |Cargar(s1).programas| && InvPunteros2(Cargar(s1), p)
            && Planificar(s, p, duracion, alpha) == ScheduleNext(Cargar(s1), p)
    ensures Inv(Planificar(s, p, duracion, alpha))
  {
    PlanificarKeeps(s, p, duracion, alpha);
    MedirKeeps(s, p, duracion, alpha);
    hide Inv, Medir, Cargar, ScheduleNext;
    var s1 := Medir(s, p, duracion, alpha);
    CargarKeeps(s1);
    InvLugares(s1);
    InvPunteros(s1);
    CargarPunteros(s1);
  }

  lemma CerrarJoinShape(s: Sistema, t: Hilo)
    requires t in s.hilos && t.prog < |s.programas| && CerrarJoin(s, t).Some?
    ensures CerrarJoin(s, t).value.enMemoria == s.enMemoria
    ensures |CerrarJoin(s, t).value.programas| == |s.programas|
  {
  }
}
