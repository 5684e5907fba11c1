/** The page loops of `muse_cpy` and `muse_get`, page creation and page release, and
    the flat byte memory they implement. */
module FlatMemory {
  import opened Options
  import opened Paging
  import opened Pages

  // ---- flat view ------------------------------------------------------------

  /** Address a of segment s lies in one of its pages. */
  predicate Mapped(m: Mem, s: nat, a: nat)
    requires 0 < m.P
  {
    s < |m.tabla| && PageOf(a, m.P) < |m.tabla[s]|
  }

  lemma ContenidoLen(m: Mem, s: nat, i: nat)
    requires Ownership(m) && InTable(m.tabla, s, i)
    ensures |Contenido(m, s, i)| == m.P
  {
  }

  /** The byte at address a of segment s. */
  function Byte(m: Mem, s: nat, a: nat): byte
    requires 0 < m.P && Mapped(m, s, a)
  {
    var c := Contenido(m, s, PageOf(a, m.P));
    if OffsetOf(a, m.P) < |c| then c[OffsetOf(a, m.P)] else 0
  }

  /** m' has the pages of m and perhaps more, and every old address keeps its byte. */
  ghost predicate SameBytes(m: Mem, m': Mem)
    requires 0 < m.P
  {
    && m'.P == m.P
    && forall s: nat, a: nat | Mapped(m, s, a) :: Mapped(m', s, a) && Byte(m', s, a) == Byte(m, s, a)
  }

  lemma SameContentsFlat(m: Mem, m': Mem)
    requires 0 < m.P && SameContents(m, m', {})
    ensures SameBytes(m, m')
  {
  }

  // ---- write ----------------------------------------------------------------

  function Overwrite(b: Bytes, off: nat, d: Bytes): (r: Bytes)
    requires off + |d| <= |b|
    ensures |r| == |b|
  {
    b[..off] + d + b[off + |d|..]
  }

  /** memcpy of d at offset off of the frame of a resident page, with its bits set. */
  ghost function EscribirPagina(m: Mem, s: nat, pg: nat, off: nat, d: Bytes): Mem
    requires Ownership(m) && InTable(m.tabla, s, pg) && m.tabla[s][pg].presencia
    requires off + |d| <= m.P
  {
    var f := m.tabla[s][pg].marco.value;
    m.(memoria := m.memoria[f := Overwrite(m.memoria[f], off, d)],
       bits := m.bits[f := m.bits[f].(uso := true, modificado := true)])
  }

  lemma EscribirKeeps(m: Mem, s: nat, pg: nat, off: nat, d: Bytes)
    requires Ownership(m) && InTable(m.tabla, s, pg) && m.tabla[s][pg].presencia
    requires off + |d| <= m.P
    ensures Ownership(EscribirPagina(m, s, pg, off, d))
    ensures SameContents(m, EscribirPagina(m, s, pg, off, d), {Ref(s, pg)})
    ensures Contenido(EscribirPagina(m, s, pg, off, d), s, pg) == Overwrite(Contenido(m, s, pg), off, d)
  {
    var m' := EscribirPagina(m, s, pg, off, d);
    var f := m.tabla[s][pg].marco.value;
    assert m'.tabla == m.tabla;
    assert Reside(m.tabla, s, pg, f);
    forall s': nat, i': nat | InTable(m.tabla, s', i') && Ref(s', i') != Ref(s, pg)
      ensures Contenido(m', s', i') == Contenido(m, s', i')
    {
      if m.tabla[s'][i'].presencia {
        assert Reside(m.tabla, s', i', m.tabla[s'][i'].marco.value);
      }
    }
  }

  /** One turn of the copy loop: access page pg, then copy d at offset off. */
  ghost function Copiar(m: Mem, s: nat, pg: nat, off: nat, d: Bytes): Option<Mem>
    requires Ownership(m) && InTable(m.tabla, s, pg) && off + |d| <= m.P
  {
    AccederKeeps(m, s, pg);
    var a := Acceder(m, s, pg);
    if a.None? then None else Some(EscribirPagina(a.value, s, pg, off, d))
  }

  lemma CopiarKeeps(m: Mem, s: nat, pg: nat, off: nat, d: Bytes)
    requires Ownership(m) && InTable(m.tabla, s, pg) && off + |d| <= m.P
    ensures Copiar(m, s, pg, off, d).Some? ==>
              var m' := Copiar(m, s, pg, off, d).value;
              Ownership(m') && m'.P == m.P && SameShape(m.tabla, m'.tabla)
  {
    AccederKeeps(m, s, pg);
    if Acceder(m, s, pg).Some? {
      EscribirKeeps(Acceder(m, s, pg).value, s, pg, off, d);
    }
  }

  /** d fits the pages of segment s from offset off of page pg on. */
  ghost predicate CpyFits(m: Mem, s: nat, pg: nat, off: nat, d: Bytes) {
    Ownership(m) && s < |m.tabla| && off < m.P && Fits(|m.tabla[s]|, pg, off, |d|, m.P)
  }

  lemma CpyFitsPage(m: Mem, s: nat, pg: nat, off: nat, d: Bytes)
    requires CpyFits(m, s, pg, off, d)
    ensures Ownership(m) && InTable(m.tabla, s, pg)
  {
  }

  lemma CpyFitsNext(m: Mem, s: nat, pg: nat, off: nat, d: Bytes)
    requires CpyFits(m, s, pg, off, d) && m.P - off < |d|
    ensures InTable(m.tabla, s, pg)
    ensures Copiar(m, s, pg, off, d[..m.P - off]).Some? ==>
              CpyFits(Copiar(m, s, pg, off, d[..m.P - off]).value, s, pg + 1, 0, d[m.P - off..])
  {
    CopiarKeeps(m, s, pg, off, d[..m.P - off]);
    hide Copiar, Ownership;
  }

  /** The copy loop of `muse_cpy` from offset off of page pg on: first page up to its end,
      then whole pages, then the rest. */
  ghost function CpyDesde(m: Mem, s: nat, pg: nat, off: nat, d: Bytes): (r: Option<Mem>)
    requires CpyFits(m, s, pg, off, d)
    decreases |d|
  {
    hide Copiar, Ownership;
    if |d| <= m.P - off then Copiar(m, s, pg, off, d)
    else
      CpyFitsNext(m, s, pg, off, d);
      var m2 := Copiar(m, s, pg, off, d[..m.P - off]);
      if m2.None? then None else CpyDesde(m2.value, s, pg + 1, 0, d[m.P - off..])
  }

  /** m' is m with d written at [dst, dst + |d|) of segment s and nothing else changed. */
  ghost predicate Written(m: Mem, m': Mem, s: nat, dst: nat, d: Bytes)
    requires 0 < m.P
  {
    && m'.P == m.P
    && SameShape(m.tabla, m'.tabla)
    && forall s': nat, a: nat | Mapped(m, s', a) ::
         && Mapped(m', s', a)
         && Byte(m', s', a) == if s' == s && dst <= a < dst + |d| then d[a - dst] else Byte(m, s', a)
  }

  /** One page of the copy, on flat addresses. */
  lemma PageWritten(m: Mem, m': Mem, s: nat, dst: nat, d: Bytes)
    requires 0 < m.P && OffsetOf(dst, m.P) + |d| <= m.P
    requires SameContents(m, m', {Ref(s, PageOf(dst, m.P))})
    requires Mapped(m, s, dst) && |Contenido(m, s, PageOf(dst, m.P))| == m.P
    requires Contenido(m', s, PageOf(dst, m.P)) ==
             Overwrite(Contenido(m, s, PageOf(dst, m.P)), OffsetOf(dst, m.P), d)
    ensures Written(m, m', s, dst, d)
  {
    forall s': nat, a: nat | Mapped(m, s', a)
      ensures Mapped(m', s', a)
      ensures Byte(m', s', a) == if s' == s && dst <= a < dst + |d| then d[a - dst] else Byte(m, s', a)
    {
      RangeInPage(a, dst, |d|, m.P);
      assert InTable(m.tabla, s', PageOf(a, m.P));
    }
  }

  lemma WrittenCompose(m: Mem, m2: Mem, m3: Mem, s: nat, dst: nat, d: Bytes, k: nat)
    requires 0 < m.P && k <= |d|
    requires Written(m, m2, s, dst, d[..k]) && Written(m2, m3, s, dst + k, d[k..])
    ensures Written(m, m3, s, dst, d)
  {
  }

  lemma SameThenWritten(m: Mem, m1: Mem, m2: Mem, s: nat, dst: nat, d: Bytes)
    requires 0 < m.P && SameContents(m, m1, {}) && Written(m1, m2, s, dst, d)
    ensures Written(m, m2, s, dst, d)
  {
  }

  /** Access to the page of dst followed by the copy of d into it. */
  lemma StepWrites(m: Mem, s: nat, dst: nat, d: Bytes)
    requires Ownership(m) && Mapped(m, s, dst)
    requires OffsetOf(dst, m.P) + |d| <= m.P
    ensures var r := Copiar(m, s, PageOf(dst, m.P), OffsetOf(dst, m.P), d);
            r.Some? ==> Ownership(r.value) && Written(m, r.value, s, dst, d)
  {
    var pg, off := PageOf(dst, m.P), OffsetOf(dst, m.P);
    AccederKeeps(m, s, pg);
    if Acceder(m, s, pg).Some? {
      var m1 := Acceder(m, s, pg).value;
      EscribirKeeps(m1, s, pg, off, d);
      ContenidoLen(m1, s, pg);
      PageWritten(m1, EscribirPagina(m1, s, pg, off, d), s, dst, d);
      SameThenWritten(m, m1, EscribirPagina(m1, s, pg, off, d), s, dst, d);
    }
  }

  /** A copy that finds the slots it needs writes exactly [dst, dst + |d|) and keeps
      ownership, whatever faults and evictions it goes through. */
  lemma {:induction false} CpyWrites(m: Mem, s: nat, dst: nat, d: Bytes)
    requires 0 < m.P && CpyFits(m, s, PageOf(dst, m.P), OffsetOf(dst, m.P), d)
    ensures var r := CpyDesde(m, s, PageOf(dst, m.P), OffsetOf(dst, m.P), d);
            r.Some? ==> Ownership(r.value) && Written(m, r.value, s, dst, d)
    decreases |d|
  {
    hide Copiar, Ownership, Written;
    var pg, off := PageOf(dst, m.P), OffsetOf(dst, m.P);
    var k := m.P - off;
    if |d| <= k {
      StepWrites(m, s, dst, d);
    } else {
      StepWrites(m, s, dst, d[..k]);
      var m2 := Copiar(m, s, pg, off, d[..k]);
      if m2.Some? {
        CpyFitsNext(m, s, pg, off, d);
        NextPage(dst, m.P);
        CpyWrites(m2.value, s, dst + k, d[k..]);
        var r := CpyDesde(m2.value, s, pg + 1, 0, d[k..]);
        if r.Some? {
          WrittenCompose(m, m2.value, r.value, s, dst, d, k);
        }
      }
    }
  }

  // ---- read -----------------------------------------------------------------

  /** The page loop of `muse_get`: cant whole pages from page pg on. */
  ghost function GetDesde(m: Mem, s: nat, pg: nat, cant: nat): Option<(Mem, Bytes)>
    requires Ownership(m) && s < |m.tabla| && pg + cant <= |m.tabla[s]|
    decreases cant
  {
    if cant == 0 then Some((m, []))
    else
      AccederKeeps(m, s, pg);
      var a := Acceder(m, s, pg);
      if a.None? then None
      else
        var r := GetDesde(a.value, s, pg + 1, cant - 1);
        if r.None? then None else Some((r.value.0, Contenido(a.value, s, pg) + r.value.1))
  }

  /** b is the len bytes of segment s from address src on. */
  ghost predicate ReadBack(m: Mem, s: nat, src: nat, b: Bytes)
    requires 0 < m.P
  {
    forall a: nat | src <= a < src + |b| :: Mapped(m, s, a) && b[a - src] == Byte(m, s, a)
  }

  lemma PageReadBack(m: Mem, s: nat, src: nat)
    requires 0 < m.P && OffsetOf(src, m.P) == 0 && Mapped(m, s, src)
    requires |Contenido(m, s, PageOf(src, m.P))| == m.P
    ensures ReadBack(m, s, src, Contenido(m, s, PageOf(src, m.P)))
  {
    forall a: nat | src <= a < src + m.P
      ensures Mapped(m, s, a) && Contenido(m, s, PageOf(src, m.P))[a - src] == Byte(m, s, a)
    {
      RangeInPage(a, src, m.P, m.P);
    }
  }

  lemma ReadBackJoin(m: Mem, m1: Mem, s: nat, src: nat, b1: Bytes, b2: Bytes)
    requires 0 < m.P && SameContents(m, m1, {})
    requires ReadBack(m1, s, src, b1) && ReadBack(m1, s, src + |b1|, b2)
    ensures ReadBack(m, s, src, b1 + b2)
  {
    SameContentsFlat(m, m1);
    forall a: nat | src <= a < src + |b1 + b2|
      ensures Mapped(m, s, a) && (b1 + b2)[a - src] == Byte(m, s, a)
    {
      assert Mapped(m1, s, a);
    }
  }

  lemma ReadStep(m: Mem, s: nat, src: nat, m1: Mem, rest: Bytes)
    requires Ownership(m1) && SameContents(m, m1, {}) && 0 < m.P
    requires OffsetOf(src, m.P) == 0 && Mapped(m, s, src)
    requires ReadBack(m1, s, src + m.P, rest)
    ensures ReadBack(m, s, src, Contenido(m1, s, PageOf(src, m.P)) + rest)
    ensures |Contenido(m1, s, PageOf(src, m.P))| == m.P
  {
    ContenidoLen(m1, s, PageOf(src, m.P));
    PageReadBack(m1, s, src);
    ReadBackJoin(m, m1, s, src, Contenido(m1, s, PageOf(src, m.P)), rest);
  }

  /** Reading whole pages returns their bytes in order and changes no page. */
  lemma {:induction false} GetReads(m: Mem, s: nat, src: nat, cant: nat)
    requires Ownership(m) && s < |m.tabla| && OffsetOf(src, m.P) == 0
    requires PageOf(src, m.P) + cant <= |m.tabla[s]|
    ensures var r := GetDesde(m, s, PageOf(src, m.P), cant);
            r.Some? ==>
              && Ownership(r.value.0) && SameContents(m, r.value.0, {})
              && |r.value.1| == Span(cant, m.P)
              && ReadBack(m, s, src, r.value.1)
    decreases cant
  {
    hide Acceder, Ownership;
    var pg := PageOf(src, m.P);
    if cant != 0 {
      AccederKeeps(m, s, pg);
      var a := Acceder(m, s, pg);
      if a.Some? {
        NextPage(src, m.P);
        GetReads(a.value, s, src + m.P, cant - 1);
        var r := GetDesde(a.value, s, pg + 1, cant - 1);
        if r.Some? {
          ReadStep(m, s, src, a.value, r.value.1);
          SameContentsTrans(m, a.value, r.value.0);
        }
      }
    }
  }

  lemma SameContentsTrans(m: Mem, m1: Mem, m2: Mem)
    requires SameContents(m, m1, {}) && SameContents(m1, m2, {})
    ensures SameContents(m, m2, {})
  {
  }

  ghost predicate RangoFits(m: Mem, s: nat, src: nat, n: nat) {
    Ownership(m) && s < |m.tabla| && src + n <= Span(|m.tabla[s]|, m.P)
  }

  /** The whole pages of [src, src + n). */
  ghost function GetPaginas(m: Mem, s: nat, src: nat, n: nat): Option<(Mem, Bytes)>
    requires RangoFits(m, s, src, n)
  {
    RangePages(src, n, |m.tabla[s]|, m.P);
    GetDesde(m, s, PageOf(src, m.P), Techo(src + n, m.P) - PageOf(src, m.P))
  }

  /** r holds the bytes from the start of the page of src to src + n or beyond. */
  ghost predicate PaginasLeidas(m: Mem, s: nat, src: nat, n: nat, r: (Mem, Bytes)) {
    && 0 < m.P && Ownership(r.0) && SameContents(m, r.0, {})
    && OffsetOf(src, m.P) + n <= |r.1|
    && ReadBack(m, s, src - OffsetOf(src, m.P), r.1)
  }

  lemma PositiveP(m: Mem)
    requires Ownership(m)
    ensures 0 < m.P
  {
  }

  lemma PageReads(m: Mem, s: nat, src: nat, n: nat)
    requires RangoFits(m, s, src, n)
    ensures GetPaginas(m, s, src, n).Some? ==> PaginasLeidas(m, s, src, n, GetPaginas(m, s, src, n).value)
  {
    hide Ownership, GetDesde, ReadBack, SameContents, Span, PageOf, OffsetOf, Techo;
    assert 0 < m.P by { PositiveP(m); }
    RangePages(src, n, |m.tabla[s]|, m.P);
    PageBase(src, m.P);
    GetReads(m, s, Span(PageOf(src, m.P), m.P), Techo(src + n, m.P) - PageOf(src, m.P));
  }

  /** What `muse_get` copies out: the pages of [src, src + n), then the range itself. */
  ghost function GetRango(m: Mem, s: nat, src: nat, n: nat): Option<(Mem, Bytes)>
    requires RangoFits(m, s, src, n)
  {
    hide GetPaginas, Ownership, ReadBack, SameContents;
    PageReads(m, s, src, n);
    match GetPaginas(m, s, src, n)
    case None => None
    case Some(r) => Some((r.0, r.1[OffsetOf(src, m.P)..OffsetOf(src, m.P) + n]))
  }

  /** A read returns exactly the n bytes at [src, src + n) and changes no byte. */
  lemma GetReturns(m: Mem, s: nat, src: nat, n: nat)
    requires RangoFits(m, s, src, n)
    ensures var r := GetRango(m, s, src, n);
            r.Some? ==>
              && Ownership(r.value.0) && SameContents(m, r.value.0, {})
              && |r.value.1| == n && 0 < m.P && ReadBack(m, s, src, r.value.1)
  {
    hide GetPaginas, Ownership, SameContents;
    PageReads(m, s, src, n);
  }
}
