/** The page-creation loop of a growth in muse_alloc, and what whole page loops cost. */
module PageBatch {
  import opened Options
  import opened Paging
  import opened PageLife
  import opened FlatMemory

  /** n turns of the loop that find a frame, with page numbers from num on. */
  ghost function AgregarVarias(m: Mem, s: nat, num: nat, n: nat): Option<Mem>
    requires Ownership(m) && s < |m.tabla|
    decreases n
  {
    hide AgregarPagina;
    if n == 0 then Some(m)
    else
      AgregarKeeps(m, s, num);
      var r := AgregarPagina(m, s, num);
      if r.None? then None else AgregarVarias(r.value, s, num + 1, n - 1)
  }

  /** A turn whose index is past the number of frames: the page is placed straight in the
      first free slot, which is not marked, or nowhere. */
  function PonerEnSwap(m: Mem, s: nat, num: nat, n: nat): Mem
    requires s < |m.tabla|
    decreases n
  {
    if n == 0 then m
    else
      var k := FirstFree(m.slots, 0);
      var pag := Pagina(num, false, None, if k < |m.slots| then Some(k) else None);
      PonerEnSwap(m.(tabla := m.tabla[s := m.tabla[s] + [pag]]), s, num + 1, n - 1)
  }

  /** The whole loop: indices up to the number of frames take frames, later ones do not. */
  ghost function CrearPaginas(m: Mem, s: nat, num: nat, n: nat): Option<Mem>
    requires Ownership(m) && s < |m.tabla|
  {
    var enMarco := if n <= |m.bits| + 1 then n else |m.bits| + 1;
    var r := AgregarVarias(m, s, num, enMarco);
    if r.None? then None
    else
      AgregarVariasKeeps(m, s, num, enMarco);
      Some(PonerEnSwap(r.value, s, num + enMarco, n - enMarco))
  }

  /** Pages of segment s from position `desde` on are numbered from num on. */
  ghost predicate NumberedFrom(t: Tabla, s: nat, desde: nat, num: nat)
    requires s < |t|
  {
    forall i: nat | desde <= i < |t[s]| :: t[s][i].num == num + (i - desde)
  }

  lemma GrownTrans(m: Mem, m1: Mem, m2: Mem, s: nat, n1: nat, n2: nat)
    requires Grown(m, m1, s, n1) && Grown(m1, m2, s, n2)
    ensures Grown(m, m2, s, n1 + n2)
  {
  }

  /** m' is m with n more pages at the end of segment s, numbered from num on. */
  ghost predicate PaginasCreadas(m: Mem, m': Mem, s: nat, num: nat, n: nat) {
    && Ownership(m') && s < |m.tabla| && Grown(m, m', s, n)
    && NumberedFrom(m'.tabla, s, |m.tabla[s]|, num)
    && Libres(m') + n == Libres(m) && m'.entradas == m.entradas
    && TotalPaginas(m'.tabla) == TotalPaginas(m.tabla) + n
    && |m'.slots| == |m.slots| && |m'.bits| == |m.bits|
    && (SlotBudget(m) ==> SlotBudget(m'))
  }

  /** Creating n pages costs n free places, and fails exactly when there are fewer. */
  lemma {:induction false} AgregarVariasKeeps(m: Mem, s: nat, num: nat, n: nat)
    requires Ownership(m) && s < |m.tabla|
    ensures AgregarVarias(m, s, num, n).None? <==> Libres(m) < n
    ensures AgregarVarias(m, s, num, n).Some? ==>
              PaginasCreadas(m, AgregarVarias(m, s, num, n).value, s, num, n)
    decreases n
  {
    hide AgregarPagina, Ownership, Libres, TotalPaginas, SlotBudget;
    if n == 0 {
    } else {
      AgregarKeeps(m, s, num);
      var r := AgregarPagina(m, s, num);
      if r.Some? {
        AgregarVariasKeeps(r.value, s, num + 1, n - 1);
        var r2 := AgregarVarias(r.value, s, num + 1, n - 1);
        if r2.Some? {
          GrownTrans(m, r.value, r2.value, s, 1, n - 1);
          assert InTable(r.value.tabla, s, |m.tabla[s]|);
        }
      }
    }
  }

  /** A page placed without marking a slot stays in the table. */
  lemma {:induction false} PonerEnSwapBreaks(m: Mem, s: nat, num: nat, n: nat)
    requires s < |m.tabla|
    requires n > 0 || exists i: nat :: i < |m.tabla[s]| && !Colocada(m, m.tabla[s][i])
    ensures !Ownership(PonerEnSwap(m, s, num, n))
    decreases n
  {
    if n == 0 {
      var i: nat :| i < |m.tabla[s]| && !Colocada(m, m.tabla[s][i]);
      assert InTable(m.tabla, s, i) && Ref(s, i) !in {};
    } else {
      var k := FirstFree(m.slots, 0);
      var pag := Pagina(num, false, None, if k < |m.slots| then Some(k) else None);
      var m1 := m.(tabla := m.tabla[s := m.tabla[s] + [pag]]);
      assert m1.tabla[s][|m.tabla[s]|] == pag;
      PonerEnSwapBreaks(m1, s, num + 1, n - 1);
    }
  }

  /** n pages numbered from num on that are in slot k, or nowhere. */
  function SinMarco(num: nat, n: nat, k: Option<nat>): (ps: seq<Pagina>)
    ensures |ps| == n
  {
    seq(n, i requires 0 <= i < n => Pagina(num + i, false, None, k))
  }

  /** Those pages all name the first free slot, or none when every slot is taken, and nothing else
      changes. */
  lemma {:induction false} PonerEnSwapShape(m: Mem, s: nat, num: nat, n: nat)
    requires s < |m.tabla|
    ensures var k := FirstFree(m.slots, 0);
            PonerEnSwap(m, s, num, n)
            == m.(tabla := m.tabla[s := m.tabla[s] + SinMarco(num, n, if k < |m.slots| then Some(k) else None)])
    decreases n
  {
    var k := FirstFree(m.slots, 0);
    var en := if k < |m.slots| then Some(k) else None;
    if n == 0 {
      assert m.tabla[s] + SinMarco(num, 0, en) == m.tabla[s];
    } else {
      var pag := Pagina(num, false, None, en);
      PonerEnSwapShape(m.(tabla := m.tabla[s := m.tabla[s] + [pag]]), s, num + 1, n - 1);
      assert [pag] + SinMarco(num + 1, n - 1, en) == SinMarco(num, n, en);
      assert (m.tabla[s] + [pag]) + SinMarco(num + 1, n - 1, en) == m.tabla[s] + SinMarco(num, n, en);
    }
  }

  /** The loop keeps ownership exactly when it needs at most one page more than there are
      frames; then it fails exactly when there are fewer free places than pages. */
  lemma CrearPaginasExact(m: Mem, s: nat, num: nat, n: nat)
    requires Ownership(m) && s < |m.tabla|
    ensures CrearPaginas(m, s, num, n).Some? ==>
              (Ownership(CrearPaginas(m, s, num, n).value) <==> n <= |m.bits| + 1)
    ensures n <= |m.bits| + 1 ==> CrearPaginas(m, s, num, n) == AgregarVarias(m, s, num, n)
  {
    hide Ownership, AgregarVarias, NumberedFrom, Libres, TotalPaginas;
    var enMarco := if n <= |m.bits| + 1 then n else |m.bits| + 1;
    AgregarVariasKeeps(m, s, num, enMarco);
    if n > enMarco && AgregarVarias(m, s, num, enMarco).Some? {
      PonerEnSwapBreaks(AgregarVarias(m, s, num, enMarco).value, s, num + enMarco, n - enMarco);
    }
  }

  // ---- cost of the loops of muse_cpy and muse_get ---------------------------

  /** m' comes after m with nothing gained or lost: places used up went to swap-ins. */
  ghost predicate Conserves(m: Mem, m': Mem) {
    && TotalPaginas(m'.tabla) == TotalPaginas(m.tabla)
    && Libres(m') + m'.entradas == Libres(m) + m.entradas
    && |m'.slots| == |m.slots| && |m'.bits| == |m.bits|
    && (SlotBudget(m) ==> SlotBudget(m'))
  }

  /** A loop over `paginas` pages uses up at most one free place a page. */
  ghost predicate Bounded(m: Mem, m': Mem, paginas: nat) {
    Conserves(m, m') && m'.entradas <= m.entradas + paginas
  }

  lemma AccederCost(m: Mem, s: nat, i: nat)
    requires Ownership(m) && InTable(m.tabla, s, i)
    ensures Acceder(m, s, i).None? ==> Libres(m) == 0
    ensures Acceder(m, s, i).Some? ==> Bounded(m, Acceder(m, s, i).value, 1)
  {
    hide Acceder, Ownership, Libres;
    AccederKeeps(m, s, i);
    LlenoIsZero(m);
    if Acceder(m, s, i).Some? {
      AccederBalance(m, s, i);
    }
  }

  lemma CopiarCost(m: Mem, s: nat, pg: nat, off: nat, d: Bytes)
    requires Ownership(m) && InTable(m.tabla, s, pg) && off + |d| <= m.P
    ensures Copiar(m, s, pg, off, d).None? ==> Libres(m) == 0
    ensures Copiar(m, s, pg, off, d).Some? ==> Bounded(m, Copiar(m, s, pg, off, d).value, 1)
  {
    hide Acceder;
    AccederCost(m, s, pg);
    if Acceder(m, s, pg).Some? {
      AccederKeeps(m, s, pg);
      var m1 := Acceder(m, s, pg).value;
      SameOccupied(m1, EscribirPagina(m1, s, pg, off, d));
    }
  }

  /** Pages a copy of len bytes at offset off touches. */
  function Tramos(off: nat, len: nat, P: nat): nat
    requires off < P
    decreases len
  {
    if len <= P - off then 1 else 1 + Tramos(0, len - (P - off), P)
  }

  /** A copy fails only for want of free places, and never when there is one a page. */
  lemma {:induction false} CpyCost(m: Mem, s: nat, pg: nat, off: nat, d: Bytes)
    requires CpyFits(m, s, pg, off, d)
    ensures CpyDesde(m, s, pg, off, d).None? ==> Libres(m) < Tramos(off, |d|, m.P)
    ensures CpyDesde(m, s, pg, off, d).Some? ==>
              Bounded(m, CpyDesde(m, s, pg, off, d).value, Tramos(off, |d|, m.P))
    decreases |d|
  {
    hide Copiar, Ownership, Libres, TotalPaginas, SlotBudget;
    if |d| <= m.P - off {
      CopiarCost(m, s, pg, off, d);
    } else {
      CpyFitsNext(m, s, pg, off, d);
      CopiarCost(m, s, pg, off, d[..m.P - off]);
      var m2 := Copiar(m, s, pg, off, d[..m.P - off]);
      if m2.Some? {
        CopiarP(m, s, pg, off, d[..m.P - off]);
        CpyCost(m2.value, s, pg + 1, 0, d[m.P - off..]);
      }
    }
  }

  lemma CopiarP(m: Mem, s: nat, pg: nat, off: nat, d: Bytes)
    requires Ownership(m) && InTable(m.tabla, s, pg) && off + |d| <= m.P
    ensures Copiar(m, s, pg, off, d).Some? ==> Copiar(m, s, pg, off, d).value.P == m.P
  {
  }

  /** A read fails only for want of free places, and never when there is one a page. */
  lemma {:induction false} GetCost(m: Mem, s: nat, pg: nat, cant: nat)
    requires Ownership(m) && s < |m.tabla| && pg + cant <= |m.tabla[s]|
    ensures GetDesde(m, s, pg, cant).None? ==> Libres(m) < cant
    ensures GetDesde(m, s, pg, cant).Some? ==> Bounded(m, GetDesde(m, s, pg, cant).value.0, cant)
    decreases cant
  {
    hide Acceder, Ownership, Libres, TotalPaginas, SlotBudget;
    if cant != 0 {
      AccederKeeps(m, s, pg);
      AccederCost(m, s, pg);
      var a := Acceder(m, s, pg);
      if a.Some? {
        GetCost(a.value, s, pg + 1, cant - 1);
      }
    }
  }
}
