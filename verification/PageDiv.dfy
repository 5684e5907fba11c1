/** The C operators behind the page arithmetic: `*`, `/` and `%` by the page size. */
module PageDiv {
  import opened Pages

  lemma {:induction false} SpanIsTimes(cant: nat, P: nat)
    ensures Span(cant, P) == cant * P
  {
    if cant != 0 { SpanIsTimes(cant - 1, P); }
  }

  lemma DivUnique(a: nat, P: nat, q: nat, r: nat)
    requires r < P && a == Span(q, P) + r
    ensures a / P == q && a % P == r
  {
    SpanIsTimes(q, P);
    var d := a / P - q;
    assert d * P == r - a % P;
    assert d >= 1 ==> d * P >= P;
    assert d <= -1 ==> d * P <= 0 - P;
  }

  lemma PageOfIsDiv(a: nat, P: nat)
    requires 0 < P
    ensures PageOf(a, P) == a / P && OffsetOf(a, P) == a % P
  {
    PageSplit(a, P);
    DivUnique(a, P, PageOf(a, P), OffsetOf(a, P));
  }

  /** The do-while of `calcularFramesNecesarios`: pages for x bytes, never fewer than one. */
  method CalcularFramesNecesarios(x: nat, P: nat) returns (frames: nat)
    requires 0 < P
    ensures frames == FramesNecesarios(x, P)
  {
    frames := 1;
    TechoIsCeiling(x, P, 0);
    while x > frames * P
      invariant 1 <= frames <= FramesNecesarios(x, P)
      decreases FramesNecesarios(x, P) - frames
    {
      SpanIsTimes(frames, P);
      TechoIsCeiling(x, P, frames);
      frames := frames + 1;
    }
    SpanIsTimes(frames, P);
    TechoIsCeiling(x, P, frames);
  }
}
