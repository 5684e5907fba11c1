/** Page arithmetic of the memory server. Page and offset of an address are defined by
    subtraction, so that proofs that only follow page boundaries stay linear; PageDiv shows
    them to be the quotient and the remainder the C code computes. */
module Pages {

  /** dir / TAMANIO_PAGINA */
  function PageOf(a: nat, P: nat): (pg: nat)
    requires 0 < P
  {
    if a < P then 0 else 1 + PageOf(a - P, P)
  }

  /** dir % TAMANIO_PAGINA */
  function OffsetOf(a: nat, P: nat): (o: nat)
    requires 0 < P
    ensures o < P
  {
    if a < P then a else OffsetOf(a - P, P)
  }

  /** cant * TAMANIO_PAGINA */
  function Span(cant: nat, P: nat): nat {
    if cant == 0 then 0 else P + Span(cant - 1, P)
  }

  lemma {:induction false} PageSplit(a: nat, P: nat)
    requires 0 < P
    ensures a == Span(PageOf(a, P), P) + OffsetOf(a, P)
  {
    if a >= P { PageSplit(a - P, P); }
  }

  lemma {:induction false} SpanMonotone(a: nat, b: nat, P: nat)
    requires a <= b
    ensures Span(a, P) <= Span(b, P)
    ensures 0 < P && a < b ==> Span(a, P) + P <= Span(b, P)
    decreases b
  {
    if a < b { SpanMonotone(a, b - 1, P); }
  }

  lemma {:induction false} SpanAdd(a: nat, b: nat, P: nat)
    ensures Span(a + b, P) == Span(a, P) + Span(b, P)
  {
    if b != 0 { SpanAdd(a, b - 1, P); }
  }

  /** First address of the page of a. */
  lemma PageBase(a: nat, P: nat)
    requires 0 < P
    ensures var b := Span(PageOf(a, P), P);
            b <= a && a - b == OffsetOf(a, P) && PageOf(b, P) == PageOf(a, P) && OffsetOf(b, P) == 0
  {
    PageSplit(a, P);
    var b := Span(PageOf(a, P), P);
    PageInside(b, PageOf(a, P), P);
    PageInside(b, PageOf(a, P) + 1, P);
    PageSplit(b, P);
  }

  /** An address is inside cant pages exactly when its page is one of them. */
  lemma PageInside(a: nat, cant: nat, P: nat)
    requires 0 < P
    ensures a < Span(cant, P) <==> PageOf(a, P) < cant
  {
    PageSplit(a, P);
    if PageOf(a, P) < cant { SpanMonotone(PageOf(a, P), cant, P); } else { SpanMonotone(cant, PageOf(a, P), P); }
  }

  /** Which addresses a range inside one page covers. */
  lemma {:induction false} RangeInPage(a: nat, dst: nat, len: nat, P: nat)
    requires 0 < P && OffsetOf(dst, P) + len <= P
    ensures dst <= a < dst + len <==>
              && PageOf(a, P) == PageOf(dst, P)
              && OffsetOf(dst, P) <= OffsetOf(a, P) < OffsetOf(dst, P) + len
    ensures PageOf(a, P) == PageOf(dst, P) ==> a - dst == OffsetOf(a, P) - OffsetOf(dst, P)
  {
    if a >= P && dst >= P { RangeInPage(a - P, dst - P, len, P); }
  }

  /** The first address of the next page. */
  lemma {:induction false} NextPage(a: nat, P: nat)
    requires 0 < P
    ensures PageOf(a + P - OffsetOf(a, P), P) == PageOf(a, P) + 1
    ensures OffsetOf(a + P - OffsetOf(a, P), P) == 0
  {
    if a >= P { NextPage(a - P, P); }
  }

  /** The range of len bytes at offset off of page pg lies inside n pages. */
  predicate Fits(n: nat, pg: nat, off: nat, len: nat, P: nat)
    requires off < P
    decreases len
  {
    pg < n && (len <= P - off || Fits(n, pg + 1, 0, len - (P - off), P))
  }

  /** A non-empty range fits the pages exactly when it ends inside the segment. */
  lemma {:induction false} FitsInside(n: nat, a: nat, len: nat, P: nat)
    requires 0 < P && 0 < len
    ensures Fits(n, PageOf(a, P), OffsetOf(a, P), len, P) <==> a + len <= Span(n, P)
    decreases len
  {
    PageInside(a, n, P);
    PageInside(a + len - 1, n, P);
    var k := P - OffsetOf(a, P);
    NextPage(a, P);
    if len <= k {
      RangeInPage(a + len - 1, a, len, P);
    } else {
      FitsInside(n, a + k, len - k, P);
    }
  }

  // ---- page counts ----------------------------------------------------------

  /** `techo` of x / P: the integer part, plus one when there is a fractional part. */
  function Techo(x: nat, P: nat): nat
    requires 0 < P
  {
    if OffsetOf(x, P) != 0 then PageOf(x, P) + 1 else PageOf(x, P)
  }

  /** `techo` is the ceiling: the least number of pages that hold x bytes. */
  lemma TechoIsCeiling(x: nat, P: nat, k: nat)
    requires 0 < P
    ensures Techo(x, P) <= k <==> x <= Span(k, P)
  {
    PageSplit(x, P);
    var q := PageOf(x, P);
    if k <= q { SpanMonotone(k, q, P); } else { SpanMonotone(q, k, P); }
  }

  function FramesNecesarios(x: nat, P: nat): nat
    requires 0 < P
  {
    if x == 0 then 1 else Techo(x, P)
  }

  /** Enough pages, at least one, and less than a page to spare. */
  lemma FramesHold(x: nat, P: nat)
    requires 0 < P
    ensures 1 <= FramesNecesarios(x, P)
    ensures x <= Span(FramesNecesarios(x, P), P)
    ensures 0 < x ==> Span(FramesNecesarios(x, P), P) < x + P
  {
    var n := FramesNecesarios(x, P);
    if 0 < x {
      TechoIsCeiling(x, P, n);
      TechoIsCeiling(x, P, 0);
      TechoIsCeiling(x, P, n - 1);
    }
  }

  /** The pages of a range inside n pages are among them. */
  lemma RangePages(src: nat, len: nat, n: nat, P: nat)
    requires 0 < P && src + len <= Span(n, P)
    ensures PageOf(src, P) <= Techo(src + len, P) <= n
    ensures OffsetOf(src, P) + len <= Span(Techo(src + len, P) - PageOf(src, P), P)
  {
    var q := Techo(src + len, P);
    TechoIsCeiling(src + len, P, n);
    TechoIsCeiling(src + len, P, q);
    PageSplit(src, P);
    if q < PageOf(src, P) { SpanMonotone(q, PageOf(src, P), P); }
    SpanAdd(PageOf(src, P), q - PageOf(src, P), P);
  }
}
