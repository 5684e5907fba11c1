/** Where `muse_alloc` and `muse_free` write block headers, and exactly when one of those writes
    lands on the bytes of a block in use. */
module Headers {
  import opened Pages
  import opened Heap
  import opened MuseInvariant

  /** One memcpy of part of a header: len bytes at address dst of the segment. */
  datatype Rango = Rango(dst: nat, len: nat)

  predicate Cubre(r: Rango, a: nat) {
    r.dst <= a < r.dst + r.len
  }

  /** The memcpy stays in the frame of one page. */
  predicate EnPagina(r: Rango, P: nat)
    requires 0 < P
  {
    OffsetOf(r.dst, P) + r.len <= P
  }

  /** The header of a block at address dir, cut in two at a page boundary. */
  function EnDir(dir: nat, P: nat): seq<Rango>
    requires 0 < P
  {
    var resto := P - OffsetOf(dir, P);
    if resto < HM then [Rango(dir, resto), Rango(dir + resto, HM - resto)] else [Rango(dir, HM)]
  }

  /** The header writes when free block k takes t bytes. The second header goes to the right
      page, but to the offset of the first one unless it is cut. */
  function SplitHeaders(bs: Bloques, k: nat, t: nat, P: nat): seq<Rango>
    requires k < |bs| && 0 < P
  {
    var dir := bs[k].dir;
    var fin := dir + HM + t;
    EnDir(dir, P) +
    (if OffsetOf(fin, P) + HM > P then EnDir(fin, P) else [Rango(Desvio(dir, fin, P), HM)])
  }

  function Desvio(dir: nat, fin: nat, P: nat): nat
    requires 0 < P
  {
    Span(PageOf(fin, P), P) + OffsetOf(dir, P)
  }

  /** The header writes when the last block grows to take t bytes. The header of the grown block
      is written over the new one, or one page before it when that starts a page. */
  function GrowHeaders(bs: Bloques, t: nat, P: nat): seq<Rango>
    requires 0 < |bs| && 0 < P
  {
    var fin := bs[|bs| - 1].dir + HM + t;
    EnDir(fin, P) + (if OffsetOf(fin, P) == 0 && P <= fin then [Rango(fin - P, HM)] else EnDir(fin, P))
  }

  /** The header writes of a new segment. */
  function NewHeaders(t: nat, P: nat): seq<Rango>
    requires 0 < P
  {
    EnDir(0, P) + EnDir(t + HM, P)
  }

  // ---- hits -----------------------------------------------------------------

  /** A byte of a block in use is overwritten. */
  ghost predicate Pisa(bs: Bloques, rs: seq<Rango>) {
    exists u, i: nat, a: nat :: u in Usados(bs) && i < |rs| && Cubre(rs[i], a) && EnBloque(u, a)
  }

  /** The HM bytes at lo meet the payload of some block in use. */
  ghost predicate Toca(bs: Bloques, lo: nat) {
    exists u :: u in Usados(bs) && 0 < u.1 && u.0 < lo < u.0 + HM + u.1
  }

  lemma EnDirCovers(dir: nat, P: nat, a: nat)
    requires 0 < P
    ensures (exists i: nat :: i < |EnDir(dir, P)| && Cubre(EnDir(dir, P)[i], a)) <==> dir <= a < dir + HM
  {
    var rs := EnDir(dir, P);
    if dir <= a < dir + HM {
      assert Cubre(rs[0], a) || (1 < |rs| && Cubre(rs[1], a));
    }
  }

  /** The addresses the ranges cover. */
  ghost predicate Cubren(rs: seq<Rango>, a: nat) {
    exists i: nat :: i < |rs| && Cubre(rs[i], a)
  }

  lemma CubrenJoin(r1: seq<Rango>, r2: seq<Rango>, a: nat)
    ensures Cubren(r1 + r2, a) <==> Cubren(r1, a) || Cubren(r2, a)
  {
    var rs := r1 + r2;
    if i: nat :| i < |rs| && Cubre(rs[i], a) {
      assert if i < |r1| then Cubre(r1[i], a) else Cubre(r2[i - |r1|], a);
    }
    if i: nat :| i < |r1| && Cubre(r1[i], a) { assert Cubre(rs[i], a); }
    if i: nat :| i < |r2| && Cubre(r2[i], a) { assert Cubre(rs[|r1| + i], a); }
  }

  lemma CubrenUno(dst: nat, a: nat)
    ensures Cubren([Rango(dst, HM)], a) <==> dst <= a < dst + HM
  {
    assert Cubren([Rango(dst, HM)], a) <==> Cubre([Rango(dst, HM)][0], a);
  }

  lemma EnDirCubren(dir: nat, P: nat, a: nat)
    requires 0 < P
    ensures Cubren(EnDir(dir, P), a) <==> dir <= a < dir + HM
  {
    EnDirCovers(dir, P, a);
  }

  /** Exactly the bytes the header writes of each operation cover. */
  lemma NewHeadersCover(t: nat, P: nat, a: nat)
    requires 0 < P
    ensures Cubren(NewHeaders(t, P), a) <==> a < HM || t + HM <= a < t + 2 * HM
  {
    hide EnDir, Cubren;
    EnDirCubren(0, P, a);
    EnDirCubren(t + HM, P, a);
    CubrenJoin(EnDir(0, P), EnDir(t + HM, P), a);
  }

  lemma SplitHeadersCover(bs: Bloques, k: nat, t: nat, P: nat, a: nat)
    requires k < |bs| && 0 < P
    ensures var dir := bs[k].dir; var fin := dir + HM + t;
            var dst := if OffsetOf(fin, P) + HM > P then fin else Span(PageOf(fin, P), P) + OffsetOf(dir, P);
            Cubren(SplitHeaders(bs, k, t, P), a) <==> dir <= a < dir + HM || dst <= a < dst + HM
  {
    hide EnDir, Cubren, OffsetOf, PageOf, Span;
    var dir := bs[k].dir;
    var fin := dir + HM + t;
    EnDirCubren(dir, P, a);
    if OffsetOf(fin, P) + HM > P {
      EnDirCubren(fin, P, a);
      CubrenJoin(EnDir(dir, P), EnDir(fin, P), a);
    } else {
      CubrenUno(Desvio(dir, fin, P), a);
      CubrenJoin(EnDir(dir, P), [Rango(Desvio(dir, fin, P), HM)], a);
    }
  }

  lemma GrowHeadersCover(bs: Bloques, t: nat, P: nat, a: nat)
    requires 0 < |bs| && 0 < P
    ensures var fin := bs[|bs| - 1].dir + HM + t;
            var dst := if OffsetOf(fin, P) == 0 && P <= fin then fin - P else fin;
            Cubren(GrowHeaders(bs, t, P), a) <==> fin <= a < fin + HM || dst <= a < dst + HM
  {
    hide EnDir, Cubren, OffsetOf;
    var fin := bs[|bs| - 1].dir + HM + t;
    EnDirCubren(fin, P, a);
    if OffsetOf(fin, P) == 0 && P <= fin {
      CubrenUno(fin - P, a);
      CubrenJoin(EnDir(fin, P), [Rango(fin - P, HM)], a);
    } else {
      CubrenJoin(EnDir(fin, P), EnDir(fin, P), a);
    }
  }

  /** Each part of a header stays in one page. */
  lemma EnDirFits(dir: nat, P: nat)
    requires HM <= P
    ensures forall i: nat | i < |EnDir(dir, P)| :: EnPagina(EnDir(dir, P)[i], P)
  {
    NextPage(dir, P);
  }

  /** The header of a block holds no byte of a block in use. */
  lemma HeaderApart(bs: Bloques, tam: nat, i: nat, u: (nat, int), a: nat)
    requires Chained(bs, tam) && i < |bs| && u in Usados(bs) && EnBloque(u, a)
    ensures !(bs[i].dir <= a < bs[i].dir + HM)
  {
    var j: nat :| j < |bs| && !bs[j].libre && u == (bs[j].dir, bs[j].espacio);
    if i < j { ChainOrder(bs, tam, i, j); } else if j < i { ChainOrder(bs, tam, j, i); }
  }

  /** So a header written where a block starts, as those of `muse_free` are, never lands on a
      block in use. */
  lemma EnDirMisses(bs: Bloques, tam: nat, i: nat, P: nat)
    requires Chained(bs, tam) && i < |bs| && 0 < P
    ensures !Pisa(bs, EnDir(bs[i].dir, P))
  {
    var rs := EnDir(bs[i].dir, P);
    if Pisa(bs, rs) {
      var u, k: nat, a: nat :| u in Usados(bs) && k < |rs| && Cubre(rs[k], a) && EnBloque(u, a);
      EnDirCovers(bs[i].dir, P, a);
      HeaderApart(bs, tam, i, u, a);
    }
  }

  lemma PisaJoin(bs: Bloques, r1: seq<Rango>, r2: seq<Rango>)
    ensures Pisa(bs, r1 + r2) <==> Pisa(bs, r1) || Pisa(bs, r2)
  {
    var rs := r1 + r2;
    if Pisa(bs, rs) {
      var u, i: nat, a: nat :| u in Usados(bs) && i < |rs| && Cubre(rs[i], a) && EnBloque(u, a);
      assert if i < |r1| then Cubre(r1[i], a) else Cubre(r2[i - |r1|], a);
    }
    if Pisa(bs, r1) {
      var u, i: nat, a: nat :| u in Usados(bs) && i < |r1| && Cubre(r1[i], a) && EnBloque(u, a);
      assert Cubre(rs[i], a);
    }
    if Pisa(bs, r2) {
      var u, i: nat, a: nat :| u in Usados(bs) && i < |r2| && Cubre(r2[i], a) && EnBloque(u, a);
      assert Cubre(rs[|r1| + i], a);
    }
  }

  lemma PisaUno(bs: Bloques, lo: nat)
    ensures Pisa(bs, [Rango(lo, HM)]) <==> Toca(bs, lo)
  {
    var rs := [Rango(lo, HM)];
    if Toca(bs, lo) {
      var u :| u in Usados(bs) && 0 < u.1 && u.0 < lo < u.0 + HM + u.1;
      var a := if lo < u.0 + HM then u.0 + HM else lo;
      assert Cubre(rs[0], a) && EnBloque(u, a);
    }
  }

  lemma TiledChained(bs: Bloques, tam: nat)
    requires Tiled(bs, tam)
    ensures Chained(bs, tam)
  {
  }

  // ---- alloc ----------------------------------------------------------------

  /** The header writes of a new segment go where its blocks start, so they miss every block in
      use. */
  lemma NewHeadersMiss(t: nat, tam: nat, P: nat)
    requires 0 < P && Chained(NewBlocks(t, tam), tam)
    ensures !Pisa(NewBlocks(t, tam), NewHeaders(t, P))
  {
    var bs := NewBlocks(t, tam);
    EnDirMisses(bs, tam, 0, P);
    EnDirMisses(bs, tam, 1, P);
    PisaJoin(bs, EnDir(bs[0].dir, P), EnDir(bs[1].dir, P));
  }

  /** The header writes of a split land on a block in use exactly when the second header is not
      cut and the page of the remainder holds, at the offset of the first header, such a block.
      They leave their frame exactly when only the first header is cut. */
  lemma SplitHeadersHit(bs: Bloques, tam: nat, k: nat, t: nat, P: nat)
    requires HM <= P && Tiled(bs, tam) && k < |bs| && bs[k].libre && bs[k].espacio >= t + HM && bs[k].indice == k
    ensures var bs', dir := Split(bs, k, t), bs[k].dir;
            var fin := dir + HM + t;
            && (Pisa(bs', SplitHeaders(bs, k, t, P)) <==>
                  OffsetOf(fin, P) + HM <= P && Toca(bs', Desvio(dir, fin, P)))
            && ((forall i: nat | i < |SplitHeaders(bs, k, t, P)| :: EnPagina(SplitHeaders(bs, k, t, P)[i], P)) <==>
                  OffsetOf(fin, P) + HM > P || OffsetOf(dir, P) + HM <= P)
  {
    hide Split, Pisa, Tiled, EnDir, Toca, Usados, EnPagina, NoAdjacentFree;
    var bs', dir := Split(bs, k, t), bs[k].dir;
    var fin := dir + HM + t;
    SplitKeeps(bs, tam, k, t);
    SplitPlaces(bs, k, t);
    TiledChained(bs', tam);
    EnDirMisses(bs', tam, k, P);
    EnDirMisses(bs', tam, k + 1, P);
    SplitFits(bs, k, t, P);
    if OffsetOf(fin, P) + HM > P {
      PisaJoin(bs', EnDir(dir, P), EnDir(fin, P));
    } else {
      PisaJoin(bs', EnDir(dir, P), [Rango(Desvio(dir, fin, P), HM)]);
      PisaUno(bs', Desvio(dir, fin, P));
    }
  }

  lemma SplitPlaces(bs: Bloques, k: nat, t: nat)
    requires k < |bs| && bs[k].indice == k
    ensures var bs' := Split(bs, k, t);
            |bs'| == |bs| + 1 && bs'[k].dir == bs[k].dir && bs'[k + 1].dir == bs[k].dir + HM + t
  {
  }

  lemma SplitFits(bs: Bloques, k: nat, t: nat, P: nat)
    requires HM <= P && k < |bs|
    ensures var dir := bs[k].dir; var fin := dir + HM + t;
            (forall i: nat | i < |SplitHeaders(bs, k, t, P)| :: EnPagina(SplitHeaders(bs, k, t, P)[i], P)) <==>
              OffsetOf(fin, P) + HM > P || OffsetOf(dir, P) + HM <= P
  {
    var dir := bs[k].dir;
    var fin := dir + HM + t;
    EnDirFits(dir, P);
    EnDirFits(fin, P);
    DesvioOffset(dir, fin, P);
    var rs := SplitHeaders(bs, k, t, P);
    hide EnDir;
    if OffsetOf(fin, P) + HM <= P {
      assert rs[|rs| - 1] == Rango(Desvio(dir, fin, P), HM);
    }
  }

  lemma DesvioOffset(dir: nat, fin: nat, P: nat)
    requires 0 < P
    ensures OffsetOf(Desvio(dir, fin, P), P) == OffsetOf(dir, P) && PageOf(Desvio(dir, fin, P), P) == PageOf(fin, P)
  {
    SpanOffset(PageOf(fin, P), OffsetOf(dir, P), P);
  }

  lemma {:induction false} SpanOffset(pg: nat, off: nat, P: nat)
    requires off < P
    ensures OffsetOf(Span(pg, P) + off, P) == off && PageOf(Span(pg, P) + off, P) == pg
  {
    if pg != 0 { SpanOffset(pg - 1, off, P); }
  }

  /** When both headers are in one page the split's writes are where the blocks start. */
  lemma SamePageMisses(bs: Bloques, tam: nat, k: nat, t: nat, P: nat)
    requires HM <= P && Tiled(bs, tam) && k < |bs| && bs[k].libre && bs[k].espacio >= t + HM && bs[k].indice == k
    requires PageOf(bs[k].dir + HM + t, P) == PageOf(bs[k].dir, P)
    ensures !Pisa(Split(bs, k, t), SplitHeaders(bs, k, t, P))
  {
    var bs', dir := Split(bs, k, t), bs[k].dir;
    SplitHeadersHit(bs, tam, k, t, P);
    SplitKeeps(bs, tam, k, t);
    SplitPlaces(bs, k, t);
    PageSplit(dir, P);
    EnDirMisses(bs', tam, k, P);
    PageSplit(dir + HM + t, P);
    hide Split, Tiled;
    if Toca(bs', dir) {
      PisaUno(bs', dir);
      PisaPrimero(bs', tam, k, dir);
    }
  }

  lemma PisaPrimero(bs: Bloques, tam: nat, k: nat, dir: nat)
    requires Chained(bs, tam) && k < |bs| && bs[k].dir == dir
    ensures !Toca(bs, dir)
  {
    if Toca(bs, dir) {
      var u :| u in Usados(bs) && 0 < u.1 && u.0 < dir < u.0 + HM + u.1;
      var j: nat :| j < |bs| && !bs[j].libre && u == (bs[j].dir, bs[j].espacio);
      if j < k { ChainOrder(bs, tam, j, k); } else if k < j { ChainOrder(bs, tam, k, j); }
    }
  }

  /** The header writes of a growth land on a block in use exactly when the new header starts a
      page and the page before starts inside such a block. They all stay in their frames. */
  lemma GrowHeadersHit(bs: Bloques, tam: nat, t: nat, extra: nat, P: nat)
    requires HM <= P && Tiled(bs, tam) && bs[|bs| - 1].espacio + extra >= t + HM && bs[|bs| - 1].indice == |bs| - 1
    ensures var bs', fin := Grow(bs, t, extra), bs[|bs| - 1].dir + HM + t;
            && (Pisa(bs', GrowHeaders(bs, t, P)) <==> OffsetOf(fin, P) == 0 && P <= fin && Toca(bs', fin - P))
            && (forall i: nat | i < |GrowHeaders(bs, t, P)| :: EnPagina(GrowHeaders(bs, t, P)[i], P))
  {
    hide Grow, Pisa, Tiled, EnDir, Toca, Usados, EnPagina, NoAdjacentFree;
    TiledChained(bs, tam);
    var bs', fin := Grow(bs, t, extra), bs[|bs| - 1].dir + HM + t;
    GrowExact(bs, tam, t, extra);
    GrowPlaces(bs, t, extra);
    TiledChained(bs', tam + extra);
    EnDirMisses(bs', tam + extra, |bs|, P);
    GrowFits(bs, t, P);
    if OffsetOf(fin, P) == 0 && P <= fin {
      PisaJoin(bs', EnDir(fin, P), [Rango(fin - P, HM)]);
      PisaUno(bs', fin - P);
    } else {
      PisaJoin(bs', EnDir(fin, P), EnDir(fin, P));
    }
  }

  lemma GrowFits(bs: Bloques, t: nat, P: nat)
    requires HM <= P && 0 < |bs|
    ensures forall i: nat | i < |GrowHeaders(bs, t, P)| :: EnPagina(GrowHeaders(bs, t, P)[i], P)
  {
    hide EnDir;
    var fin := bs[|bs| - 1].dir + HM + t;
    EnDirFits(fin, P);
    if OffsetOf(fin, P) == 0 && P <= fin {
      assert OffsetOf(fin - P, P) == 0;
    }
  }

  lemma GrowPlaces(bs: Bloques, t: nat, extra: nat)
    requires 0 < |bs| && bs[|bs| - 1].indice == |bs| - 1
    ensures var bs' := Grow(bs, t, extra);
            |bs'| == |bs| + 1 && bs'[|bs|].dir == bs[|bs| - 1].dir + HM + t
  {
  }

  /** With 32-byte pages, a heap with one block of 40 bytes, grown for 14 more: the header of the
      grown block is written at 32, inside the block of 40. */
  lemma GrowHeaderHits()
    ensures var bs := NewBlocks(40, 64);
            && Tiled(bs, 64) && Numbered(bs) && FirstFit(bs, 14 + HM, 0) == |bs|
            && Rango(32, HM) in GrowHeaders(bs, 14, 32)
            && Pisa(Grow(bs, 14, 32), GrowHeaders(bs, 14, 32))
  {
    var bs := NewBlocks(40, 64);
    assert OffsetOf(64, 32) == OffsetOf(32, 32) == OffsetOf(0, 32) == 0;
    GrowExact(bs, 64, 14, 32);
    GrowHeadersHit(bs, 64, 14, 32, 32);
    var bs' := Grow(bs, 14, 32);
    assert (0, 40) in Usados(bs) by { assert !bs[0].libre; }
    assert (0, 40) in Usados(bs');
    assert GrowHeaders(bs, 14, 32)[|EnDir(64, 32)|] == Rango(32, HM);
  }
}
