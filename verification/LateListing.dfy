/** The pages of a new segment (muse/src/muse.c:366-408): they join the table only when all of
    them have been made, so the clock does not see them and can hand one of their frames out
    again. */
module LateListing {
  import opened Options
  import opened Clock
  import opened Paging
  import opened PageLife
  import opened PageBatch

  // ---- the loop -------------------------------------------------------------

  lemma DesalojarFormas(m: Mem)
    requires Formas(m)
    ensures var r, k := Desalojar(m), FirstFree(m.slots, 0);
            && (r.SinSwap? ==> k == |m.slots|)
            && (r.Asignado? ==>
                  && Formas(r.m) && r.marco < |m.bits| && |r.m.bits| == |m.bits|
                  && |r.m.tabla| == |m.tabla| && r.m.P == m.P
                  && (r.m.slots == m.slots || (k < |m.slots| && r.m.slots == m.slots[k := true]))
                  && (forall f: nat | f < |m.bits| :: r.m.bits[f].ocupado == m.bits[f].ocupado))
  {
    hide Victim, FirstFree, BuscarPagina;
    ClockVictim(m.bits, m.puntero);
    VictimKeepsOtherBits(m.bits, m.puntero);
  }

  lemma AsignarFormas(m: Mem)
    requires Formas(m) && Asignar(m).Asignado?
    ensures var r := Asignar(m);
            && Formas(r.m) && r.marco < |m.bits| && r.m.bits[r.marco].ocupado
            && |r.m.bits| == |m.bits| && |r.m.slots| == |m.slots| && |r.m.tabla| == |m.tabla| && r.m.P == m.P
            && (forall f: nat | f < |m.bits| && f != r.marco :: r.m.bits[f].ocupado == m.bits[f].ocupado)
            && (m.bits[r.marco].ocupado <==> FirstFree(Ocupados(m.bits), 0) == |m.bits|)
  {
    hide Desalojar;
    DesalojarFormas(m);
    assert forall f: nat | f < |m.bits| :: Ocupados(m.bits)[f] == m.bits[f].ocupado;
  }

  /** A frame for a page that is not in the table. */
  function MarcoTarde(m: Mem): Asignacion
    requires Formas(m)
  {
    var r := Asignar(m);
    if r.SinSwap? then r
    else
      AsignarFormas(m);
      Asignado(r.m.(bits := r.m.bits[r.marco := r.m.bits[r.marco].(uso := true, modificado := true)]), r.marco)
  }

  /** n such frames in the order they are handed out; None is the null dereference. */
  function Marcos(m: Mem, n: nat): (r: Option<(Mem, seq<nat>)>)
    requires Formas(m)
    ensures r.Some? ==>
              && Formas(r.value.0) && |r.value.1| == n
              && |r.value.0.bits| == |m.bits| && |r.value.0.slots| == |m.slots|
              && |r.value.0.tabla| == |m.tabla| && r.value.0.P == m.P
    ensures r.Some? ==> forall i: nat | i < n :: r.value.1[i] < |m.bits| && r.value.0.bits[r.value.1[i]].ocupado
  {
    hide Asignar;
    if n == 0 then Some((m, []))
    else
      var z := Marcos(m, n - 1);
      if z.None? then None
      else
        var r := MarcoTarde(z.value.0);
        if r.SinSwap? then None
        else
          AsignarFormas(z.value.0);
          Some((r.m, z.value.1 + [r.marco]))
  }

  /** A loop that has failed stays failed. */
  lemma {:induction false} MarcosStop(m: Mem, i: nat, n: nat)
    requires Formas(m) && i <= n
    ensures Marcos(m, i).None? ==> Marcos(m, n).None?
    decreases n
  {
    hide MarcoTarde;
    if i < n { MarcosStop(m, i, n - 1); }
  }

  /** The pages made: those with the frames fs, then n more straight in slot k. */
  function Hechas(num: nat, fs: seq<nat>, k: Option<nat>, n: nat): (ps: seq<Pagina>)
    ensures |ps| == |fs| + n
  {
    seq(|fs| + n, i requires 0 <= i < |fs| + n =>
      if i < |fs| then Pagina(num + i, true, Some(fs[i]), None) else Pagina(num + i, false, None, k))
  }

  function SlotLibre(slots: seq<bool>): Option<nat> {
    var k := FirstFree(slots, 0);
    if k < |slots| then Some(k) else None
  }

  function Listar(m: Mem, s: nat, ps: seq<Pagina>): Mem
    requires s < |m.tabla|
  {
    m.(tabla := m.tabla[s := m.tabla[s] + ps])
  }

  /** The whole loop, and the listing of the pages after it. */
  function CrearTarde(m: Mem, s: nat, num: nat, n: nat): Option<Mem>
    requires Formas(m) && s < |m.tabla|
  {
    var enMarco := if n <= |m.bits| + 1 then n else |m.bits| + 1;
    match Marcos(m, enMarco)
    case None => None
    case Some(r) => Some(Listar(r.0, s, Hechas(num, r.1, SlotLibre(r.0.slots), n - enMarco)))
  }

  // ---- when it is right -----------------------------------------------------

  predicate Distintos(fs: seq<nat>) {
    forall i: nat, j: nat | i < j < |fs| :: fs[i] != fs[j]
  }

  /** No frame is handed out twice to the n pages. */
  predicate MarcosDistintos(m: Mem, n: nat)
    requires Formas(m)
  {
    n <= |m.bits| && (Marcos(m, n).Some? ==> Distintos(Marcos(m, n).value.1))
  }

  ghost function Conjunto(fs: seq<nat>): set<nat> {
    set f | f in fs
  }

  /** m1 is m with the frames fs handed out, to no page yet. */
  ghost predicate Repartidos(m: Mem, m1: Mem, fs: seq<nat>) {
    && Duenios(m1, Conjunto(fs), {}) && SameContents(m, m1, {})
    && Libres(m1) + |fs| == Libres(m) && m1.entradas == m.entradas
    && TotalPaginas(m1.tabla) == TotalPaginas(m.tabla)
    && |m1.slots| == |m.slots| && |m1.bits| == |m.bits|
    && (SlotBudget(m) ==> SlotBudget(m1))
  }

  lemma RepartirUno(m: Mem, m1: Mem, fs: seq<nat>)
    requires Repartidos(m, m1, fs) && MarcoTarde(m1).Asignado? && MarcoTarde(m1).marco !in fs
    ensures Repartidos(m, MarcoTarde(m1).m, fs + [MarcoTarde(m1).marco])
  {
    hide Asignar, OneOwner, Owned, Libres, TotalPaginas, SameContents;
    var r, f := Asignar(m1), MarcoTarde(m1).marco;
    AsignarOtro(m1, Conjunto(fs), {});
    AsignarBalance(m1, Conjunto(fs), {});
    assert Conjunto(fs + [f]) == Conjunto(fs) + {f};
    BitsSolos(r.m, MarcoTarde(m1).m, Conjunto(fs + [f]));
    MismosBytes(m, m1, r.m, MarcoTarde(m1).m);
  }

  lemma BitsSolos(m: Mem, m': Mem, libres: set<nat>)
    requires Duenios(m, libres, {}) && m' == m.(bits := m'.bits) && |m'.bits| == |m.bits|
    requires forall f: nat | f < |m.bits| :: m'.bits[f].ocupado == m.bits[f].ocupado
    ensures Duenios(m', libres, {}) && Libres(m') == Libres(m)
  {
    SamePlaces(m, m');
  }

  lemma MismosBytes(m: Mem, m1: Mem, m2: Mem, m3: Mem)
    requires SameContents(m, m1, {}) && SameContents(m1, m2, {}) && m3 == m2.(bits := m3.bits)
    ensures SameContents(m, m3, {})
  {
    forall s: nat, i: nat | InTable(m.tabla, s, i) ensures Contenido(m3, s, i) == Contenido(m, s, i) {
      assert Ref(s, i) !in {} && InTable(m1.tabla, s, i);
    }
  }

  /** As long as no frame is handed out twice, the frames stand free and every page keeps its
      bytes. */
  lemma {:induction false} MarcosKeeps(m: Mem, n: nat)
    requires Ownership(m) && Marcos(m, n).Some? && Distintos(Marcos(m, n).value.1)
    ensures Repartidos(m, Marcos(m, n).value.0, Marcos(m, n).value.1)
  {
    hide Repartidos, MarcoTarde;
    if n == 0 {
      RepartidosNada(m);
    } else {
      var (m1, fs) := Marcos(m, n - 1).value;
      var f := MarcoTarde(m1).marco;
      assert Marcos(m, n).value.1 == fs + [f];
      assert forall i: nat | i < n - 1 :: (fs + [f])[i] == fs[i];
      MarcosKeeps(m, n - 1);
      assert (fs + [f])[n - 1] == f;
      RepartirUno(m, m1, fs);
    }
  }

  lemma RepartidosNada(m: Mem)
    requires Ownership(m)
    ensures Repartidos(m, m, [])
  {
    assert Conjunto([]) == {};
  }

  lemma ListarReside(m: Mem, s: nat, num: nat, fs: seq<nat>)
    requires Duenios(m, Conjunto(fs), {}) && s < |m.tabla|
    ensures var t := Listar(m, s, Hechas(num, fs, None, 0)).tabla;
            && (forall z: nat, i: nat, g: nat | Reside(t, z, i, g) ::
                  if z == s && i >= |m.tabla[s]| then i - |m.tabla[s]| < |fs| && g == fs[i - |m.tabla[s]|]
                  else Reside(m.tabla, z, i, g) && g !in fs)
            && (forall z: nat, i: nat, k: nat :: EnSwap(t, z, i, k) ==> EnSwap(m.tabla, z, i, k))
  {
    hide OneOwner;
    var ps := Hechas(num, fs, None, 0);
    var t := Listar(m, s, ps).tabla;
    assert t[s] == m.tabla[s] + ps;
    forall z: nat, i: nat, g: nat | Reside(t, z, i, g)
      ensures if z == s && i >= |m.tabla[s]| then i - |m.tabla[s]| < |fs| && g == fs[i - |m.tabla[s]|]
              else Reside(m.tabla, z, i, g) && g !in fs
    {
      if z == s && i >= |m.tabla[s]| {
        assert t[z][i] == ps[i - |m.tabla[s]|];
      } else {
        assert Reside(m.tabla, z, i, g) && Owned(m.tabla, g);
        assert g !in Conjunto(fs);
      }
    }
  }

  lemma ListarPlaces(m: Mem, s: nat, num: nat, fs: seq<nat>)
    requires Duenios(m, Conjunto(fs), {}) && s < |m.tabla|
    ensures var m' := Listar(m, s, Hechas(num, fs, None, 0));
            && (forall z: nat, i: nat | InTable(m'.tabla, z, i) :: Colocada(m', m'.tabla[z][i]))
            && (forall i: nat | i < |fs| :: Reside(m'.tabla, s, |m.tabla[s]| + i, fs[i]))
            && (forall z: nat, i: nat, g: nat :: Reside(m.tabla, z, i, g) ==> Reside(m'.tabla, z, i, g))
  {
    hide OneOwner, Owned;
    var ps := Hechas(num, fs, None, 0);
    var m', n := Listar(m, s, ps), |m.tabla[s]|;
    assert forall i: nat | i < |fs| :: m'.tabla[s][n + i] == ps[i];
    forall z: nat, i: nat | InTable(m'.tabla, z, i) ensures Colocada(m', m'.tabla[z][i]) {
      if z == s && i >= n {
        assert fs[i - n] in Conjunto(fs);
      } else {
        assert Ref(z, i) !in {} && InTable(m.tabla, z, i);
      }
    }
  }

  /** Listing distinct free-standing frames gives each its page. */
  lemma ListarDuenios(m: Mem, s: nat, num: nat, fs: seq<nat>)
    requires Duenios(m, Conjunto(fs), {}) && Distintos(fs) && s < |m.tabla|
    ensures Ownership(Listar(m, s, Hechas(num, fs, None, 0)))
  {
    hide Hechas, Colocada, Reside, EnSwap;
    ListarReside(m, s, num, fs);
    ListarPlaces(m, s, num, fs);
    var m' := Listar(m, s, Hechas(num, fs, None, 0));
    forall g: nat | g < |m'.bits| && m'.bits[g].ocupado ensures Owned(m'.tabla, g) {
      if g in fs {
        var i: nat :| i < |fs| && fs[i] == g;
        assert Reside(m'.tabla, s, |m.tabla[s]| + i, g);
      } else {
        assert g !in Conjunto(fs) && Owned(m.tabla, g);
      }
    }
  }

  lemma ListarCreadas(m: Mem, m1: Mem, s: nat, num: nat, fs: seq<nat>)
    requires Repartidos(m, m1, fs) && Distintos(fs) && s < |m.tabla|
    ensures s < |m1.tabla| && PaginasCreadas(m, Listar(m1, s, Hechas(num, fs, None, 0)), s, num, |fs|)
  {
    hide Duenios, Libres, TotalPaginas, Distintos, Grown;
    assert s < |m1.tabla|;
    var m' := Listar(m1, s, Hechas(num, fs, None, 0));
    ListarDuenios(m1, s, num, fs);
    ListarGrown(m, m1, s, num, fs);
    hide SameContents, Contenido;
    TotalSet(m1.tabla, s, m'.tabla[s]);
    SamePlaces(m1, m');
  }

  lemma ListarGrown(m: Mem, m1: Mem, s: nat, num: nat, fs: seq<nat>)
    requires SameContents(m, m1, {}) && s < |m.tabla|
    ensures s < |m1.tabla|
    ensures var m' := Listar(m1, s, Hechas(num, fs, None, 0));
            Grown(m, m', s, |fs|) && NumberedFrom(m'.tabla, s, |m.tabla[s]|, num)
  {
    var m' := Listar(m1, s, Hechas(num, fs, None, 0));
    forall z: nat, i: nat | InTable(m.tabla, z, i)
      ensures m'.tabla[z][i].num == m.tabla[z][i].num && Contenido(m', z, i) == Contenido(m, z, i)
    {
      assert Ref(z, i) !in {} && m'.tabla[z][i] == m1.tabla[z][i];
    }
  }

  /** Two pages with one frame, or a page in an unmarked slot, break ownership. */
  lemma ListarBreaks(m: Mem, s: nat, num: nat, fs: seq<nat>, n: nat)
    requires s < |m.tabla| && (!Distintos(fs) || 0 < n)
    ensures !Ownership(Listar(m, s, Hechas(num, fs, SlotLibre(m.slots), n)))
  {
    var ps := Hechas(num, fs, SlotLibre(m.slots), n);
    var m', base := Listar(m, s, ps), |m.tabla[s]|;
    if !Distintos(fs) {
      var i: nat, j: nat :| i < j < |fs| && fs[i] == fs[j];
      assert m'.tabla[s][base + i] == ps[i] && m'.tabla[s][base + j] == ps[j];
      assert Reside(m'.tabla, s, base + i, fs[i]) && Reside(m'.tabla, s, base + j, fs[i]);
    } else {
      assert m'.tabla[s][base + |fs|] == ps[|fs|];
      assert InTable(m'.tabla, s, base + |fs|) && Ref(s, base + |fs|) !in {};
    }
  }

  ghost function Hasta(n: nat): set<nat> {
    if n == 0 then {} else Hasta(n - 1) + {n - 1}
  }

  lemma {:induction false} HastaSize(n: nat)
    ensures |Hasta(n)| == n && forall f: nat :: f in Hasta(n) <==> f < n
  {
    if n > 0 { HastaSize(n - 1); }
  }

  /** Distinct frames are no more than there are frames. */
  lemma Palomar(fs: seq<nat>, n: nat)
    requires Distintos(fs) && forall i: nat | i < |fs| :: fs[i] < n
    ensures |fs| <= n
  {
    HastaSize(n);
    Cardinal(fs);
    SubsetSize(Conjunto(fs), Hasta(n));
  }

  lemma {:induction false} Cardinal(fs: seq<nat>)
    requires Distintos(fs)
    ensures |Conjunto(fs)| == |fs|
  {
    if fs == [] {
      assert Conjunto(fs) == {};
    } else {
      var n := |fs| - 1;
      Cardinal(fs[..n]);
      assert fs == fs[..n] + [fs[n]];
      assert Conjunto(fs) == Conjunto(fs[..n]) + {fs[n]};
    }
  }

  lemma {:induction false} SubsetSize(a: set<nat>, b: set<nat>)
    requires a <= b
    ensures |a| <= |b|
  {
    if a != {} {
      var x :| x in a;
      SubsetSize(a - {x}, b - {x});
    }
  }

  /** Creation keeps ownership exactly when no frame is handed out twice to the new pages; then
      it costs one place a page and every old page keeps its bytes. */
  lemma CrearTardeExact(m: Mem, s: nat, num: nat, n: nat)
    requires Ownership(m) && s < |m.tabla| && CrearTarde(m, s, num, n).Some?
    ensures var m' := CrearTarde(m, s, num, n).value;
            && (Ownership(m') <==> MarcosDistintos(m, n))
            && (MarcosDistintos(m, n) ==> PaginasCreadas(m, m', s, num, n))
  {
    hide Marcos, Ownership, Repartidos, PaginasCreadas;
    var enMarco := if n <= |m.bits| + 1 then n else |m.bits| + 1;
    OwnershipFormas(m);
    var (m1, fs) := Marcos(m, enMarco).value;
    if Distintos(fs) && enMarco == n {
      Palomar(fs, |m.bits|);
      MarcosKeeps(m, n);
      ListarCreadas(m, m1, s, num, fs);
      assert Hechas(num, fs, SlotLibre(m1.slots), 0) == Hechas(num, fs, None, 0);
      CreadasOwn(m, CrearTarde(m, s, num, n).value, s, num, n);
    } else {
      if n <= |m.bits| { assert enMarco == n; }
      ListarBreaks(m1, s, num, fs, n - enMarco);
    }
  }

  lemma OwnershipFormas(m: Mem)
    requires Ownership(m)
    ensures Formas(m)
  {
  }

  lemma CreadasOwn(m: Mem, m': Mem, s: nat, num: nat, n: nat)
    requires PaginasCreadas(m, m', s, num, n)
    ensures Ownership(m')
  {
  }

  // ---- when that is so ------------------------------------------------------

  /** One frame costs at most one place, and is refused only when there is none. */
  lemma MarcoTardeCost(m: Mem)
    requires Formas(m)
    ensures MarcoTarde(m).SinSwap? ==> Libres(m) == 0
    ensures MarcoTarde(m).Asignado? ==> Libres(m) <= Libres(MarcoTarde(m).m) + 1
    ensures MarcoTarde(m).Asignado? && FirstFree(Ocupados(m.bits), 0) < |m.bits| ==>
              Libre(Ocupados(m.bits)) == Libre(Ocupados(MarcoTarde(m).m.bits)) + 1
  {
    hide Desalojar;
    DesalojarFormas(m);
    var f, k := FirstFree(Ocupados(m.bits), 0), FirstFree(m.slots, 0);
    var r := MarcoTarde(m);
    if f < |m.bits| {
      LibreSet(Ocupados(m.bits), f, true);
      assert Ocupados(r.m.bits) == Ocupados(m.bits)[f := true];
    } else if r.Asignado? {
      SameOccupied(m, r.m);
      if k < |m.slots| { LibreSet(m.slots, k, true); }
    } else {
      LibreZero(Ocupados(m.bits));
      LibreZero(m.slots);
    }
  }

  /** So creation ends the server only when there are fewer free places than pages. */
  lemma {:induction false} MarcosFails(m: Mem, n: nat)
    requires Formas(m)
    ensures Marcos(m, n).None? ==> Libres(m) < n
    ensures Marcos(m, n).Some? ==> Libres(m) <= Libres(Marcos(m, n).value.0) + n
  {
    hide MarcoTarde, Libres;
    if n > 0 {
      MarcosFails(m, n - 1);
      if Marcos(m, n - 1).Some? {
        MarcoTardeCost(Marcos(m, n - 1).value.0);
      }
    }
  }

  /** With a free frame for every page no frame is handed out twice. */
  lemma {:induction false} MarcosRoom(m: Mem, n: nat)
    requires Formas(m) && n <= Libre(Ocupados(m.bits))
    ensures Marcos(m, n).Some? && MarcosDistintos(m, n)
    ensures Libre(Ocupados(Marcos(m, n).value.0.bits)) + n == Libre(Ocupados(m.bits))
  {
    hide Asignar;
    if n > 0 {
      MarcosRoom(m, n - 1);
      var (m1, fs) := Marcos(m, n - 1).value;
      HayMarco(m1);
      MarcoTardeCost(m1);
      AsignarFormas(m1);
    }
  }

  /** What the whole loop costs. */
  lemma CrearTardeFails(m: Mem, s: nat, num: nat, n: nat)
    requires Formas(m) && s < |m.tabla|
    ensures CrearTarde(m, s, num, n).None? ==> Libres(m) < n
    ensures n <= Libre(Ocupados(m.bits)) ==> MarcosDistintos(m, n) && CrearTarde(m, s, num, n).Some?
  {
    hide Marcos, MarcosDistintos, Libres;
    MarcosFails(m, if n <= |m.bits| + 1 then n else |m.bits| + 1);
    if n <= Libre(Ocupados(m.bits)) { MarcosRoom(m, n); }
  }

  lemma HayMarco(m: Mem)
    requires Formas(m) && 0 < Libre(Ocupados(m.bits))
    ensures FirstFree(Ocupados(m.bits), 0) < |m.bits| && Asignar(m).Asignado?
  {
    LibreZero(Ocupados(m.bits));
  }

  /** When every frame is free, ownership survives exactly when no more pages than frames are
      made. */
  lemma FreshExact(m: Mem, s: nat, num: nat, n: nat)
    requires Ownership(m) && s < |m.tabla| && forall f: nat | f < |m.bits| :: !m.bits[f].ocupado
    requires CrearTarde(m, s, num, n).Some?
    ensures Ownership(CrearTarde(m, s, num, n).value) <==> n <= |m.bits|
  {
    hide Marcos, CrearTarde, Ownership;
    OwnershipFormas(m);
    CrearTardeExact(m, s, num, n);
    TodoLibre(Ocupados(m.bits));
    if n <= |m.bits| { MarcosRoom(m, n); }
  }

  lemma {:induction false} TodoLibre(flags: seq<bool>)
    requires forall i: nat | i < |flags| :: !flags[i]
    ensures Libre(flags) == |flags|
  {
    if flags != [] { TodoLibre(flags[..|flags| - 1]); }
  }

  /** So one page more than there are frames, which growth allows, puts two pages of a first
      segment in one frame whenever a slot is free. */
  lemma LateListingShares(m: Mem, s: nat, num: nat)
    requires Ownership(m) && s < |m.tabla| && (forall f: nat | f < |m.bits| :: !m.bits[f].ocupado)
    requires 0 < Libre(m.slots)
    ensures var n := |m.bits| + 1;
            && CrearPaginas(m, s, num, n).Some? && Ownership(CrearPaginas(m, s, num, n).value)
            && CrearTarde(m, s, num, n).Some? && !Ownership(CrearTarde(m, s, num, n).value)
  {
    hide Marcos, Ownership, CrearPaginas, AgregarVarias, PaginasCreadas;
    var n := |m.bits| + 1;
    OwnershipFormas(m);
    TodoLibre(Ocupados(m.bits));
    MarcosFails(m, n);
    FreshExact(m, s, num, n);
    AgregarVariasKeeps(m, s, num, n);
    CrearPaginasExact(m, s, num, n);
  }
}
