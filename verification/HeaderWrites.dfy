/** The header writes of `muse_alloc` and `muse_free` into frames: a page is accessed and a few
    bytes of it are overwritten, without marking the frame modified. */
module HeaderWrites {
  import opened Options
  import opened Pages
  import opened Paging
  import opened PageLife
  import opened FlatMemory
  import opened PageBatch

  /** A page access, then memcpy of d at offset off of its frame. */
  ghost function Estampar(m: Mem, s: nat, pg: nat, off: nat, d: Bytes): Option<Mem>
    requires Ownership(m) && InTable(m.tabla, s, pg) && off + |d| <= m.P
  {
    AccederKeeps(m, s, pg);
    var a := Acceder(m, s, pg);
    if a.None? then None
    else
      var f := a.value.tabla[s][pg].marco.value;
      Some(a.value.(memoria := a.value.memoria[f := Overwrite(a.value.memoria[f], off, d)]))
  }

  /** m2 is m1 with other use and modified bits. */
  ghost predicate MismosLugares(m1: Mem, m2: Mem) {
    && m2 == m1.(bits := m2.bits) && |m2.bits| == |m1.bits|
    && forall f: nat | f < |m1.bits| :: m2.bits[f].ocupado == m1.bits[f].ocupado
  }

  /** Use and modified bits play no part in who owns what, nor in the bytes. */
  lemma MismosLugaresKeeps(m1: Mem, m2: Mem)
    requires Ownership(m1) && MismosLugares(m1, m2)
    ensures Ownership(m2) && Libres(m2) == Libres(m1) && m2.entradas == m1.entradas && m2.desalojos == m1.desalojos
    ensures 0 < m1.P && SameBytes(m1, m2) && SameShape(m1.tabla, m2.tabla)
    ensures forall m: Mem, n: nat :: Bounded(m, m1, n) ==> Bounded(m, m2, n)
  {
    SameOccupied(m1, m2);
    assert forall s: nat, i: nat | InTable(m1.tabla, s, i) :: Contenido(m2, s, i) == Contenido(m1, s, i);
    SameContentsFlat(m1, m2);
  }

  /** A header write and a copy of one page differ in the bits they leave. */
  lemma EstamparIsCopiar(m: Mem, s: nat, pg: nat, off: nat, d: Bytes)
    requires Ownership(m) && InTable(m.tabla, s, pg) && off + |d| <= m.P
    ensures Estampar(m, s, pg, off, d).Some? <==> Copiar(m, s, pg, off, d).Some?
    ensures Estampar(m, s, pg, off, d).Some? ==>
              MismosLugares(Copiar(m, s, pg, off, d).value, Estampar(m, s, pg, off, d).value)
  {
    hide Acceder;
    AccederKeeps(m, s, pg);
  }

  /** A header write ends the server exactly when its page is in swap and no place is free. */
  lemma EstamparFails(m: Mem, s: nat, pg: nat, off: nat, d: Bytes)
    requires Ownership(m) && InTable(m.tabla, s, pg) && off + |d| <= m.P
    ensures Estampar(m, s, pg, off, d).None? <==> !m.tabla[s][pg].presencia && Libres(m) == 0
  {
    hide Acceder, Ownership, Libres;
    AccederKeeps(m, s, pg);
    LlenoIsZero(m);
  }

  /** Otherwise it overwrites exactly its bytes in flat memory, keeps ownership, and costs at
      most the one place of a swap-in. */
  lemma EstamparKeeps(m: Mem, s: nat, dst: nat, d: Bytes)
    requires Ownership(m) && 0 < m.P && Mapped(m, s, dst) && OffsetOf(dst, m.P) + |d| <= m.P
    ensures var r := Estampar(m, s, PageOf(dst, m.P), OffsetOf(dst, m.P), d);
            r.Some? ==> Ownership(r.value) && Written(m, r.value, s, dst, d) && Bounded(m, r.value, 1)
  {
    hide Estampar, Copiar, Ownership, Written, SameBytes, Bounded, MismosLugares, SameShape;
    var pg, off := PageOf(dst, m.P), OffsetOf(dst, m.P);
    EstamparIsCopiar(m, s, pg, off, d);
    if Estampar(m, s, pg, off, d).Some? {
      var c, e := Copiar(m, s, pg, off, d).value, Estampar(m, s, pg, off, d).value;
      StepWrites(m, s, dst, d);
      CopiarCost(m, s, pg, off, d);
      MismosLugaresKeeps(c, e);
      WrittenSame(m, c, e, s, dst, d);
    }
  }

  lemma WrittenSame(m: Mem, c: Mem, e: Mem, s: nat, dst: nat, d: Bytes)
    requires 0 < m.P && 0 < c.P && Written(m, c, s, dst, d) && SameBytes(c, e) && SameShape(c.tabla, e.tabla)
    ensures Written(m, e, s, dst, d)
  {
  }

  /** The page of dir, and the next one when a header at dir is cut, are in the table. */
  predicate CabeceraFits(m: Mem, s: nat, dir: nat, hm: nat) {
    && 0 < m.P && InTable(m.tabla, s, PageOf(dir, m.P))
    && (OffsetOf(dir, m.P) + hm > m.P ==> hm <= m.P && InTable(m.tabla, s, PageOf(dir, m.P) + 1))
  }

  /** `sustituirHeapMetadata`: the bytes d at dir, in one page or cut in two. */
  ghost function Sustituir(m: Mem, s: nat, dir: nat, d: Bytes): Option<Mem>
    requires Ownership(m) && CabeceraFits(m, s, dir, |d|)
  {
    var pg, off := PageOf(dir, m.P), OffsetOf(dir, m.P);
    if off + |d| <= m.P then Estampar(m, s, pg, off, d)
    else
      EstamparShape(m, s, dir, d[..m.P - off]);
      var m1 := Estampar(m, s, pg, off, d[..m.P - off]);
      if m1.None? then None else Estampar(m1.value, s, pg + 1, 0, d[m.P - off..])
  }

  lemma EstamparShape(m: Mem, s: nat, dst: nat, d: Bytes)
    requires Ownership(m) && 0 < m.P && Mapped(m, s, dst) && OffsetOf(dst, m.P) + |d| <= m.P
    ensures var r := Estampar(m, s, PageOf(dst, m.P), OffsetOf(dst, m.P), d);
            r.Some? ==> Ownership(r.value) && r.value.P == m.P && SameShape(m.tabla, r.value.tabla)
  {
    hide Estampar, Ownership;
    EstamparKeeps(m, s, dst, d);
  }

  /** Cut or not, it overwrites exactly [dir, dir + |d|) and keeps ownership. */
  lemma SustituirKeeps(m: Mem, s: nat, dir: nat, d: Bytes)
    requires Ownership(m) && CabeceraFits(m, s, dir, |d|)
    ensures var r := Sustituir(m, s, dir, d);
            r.Some? ==> Ownership(r.value) && 0 < m.P && Written(m, r.value, s, dir, d)
  {
    hide Estampar, Ownership, Written;
    var pg, off := PageOf(dir, m.P), OffsetOf(dir, m.P);
    if off + |d| <= m.P {
      EstamparKeeps(m, s, dir, d);
    } else {
      var k := m.P - off;
      EstamparShape(m, s, dir, d[..k]);
      EstamparKeeps(m, s, dir, d[..k]);
      var m1 := Estampar(m, s, pg, off, d[..k]);
      if m1.Some? {
        NextPage(dir, m.P);
        EstamparKeeps(m1.value, s, dir + k, d[k..]);
        var r := Sustituir(m, s, dir, d);
        if r.Some? { WrittenCompose(m, m1.value, r.value, s, dir, d, k); }
      }
    }
  }
}
