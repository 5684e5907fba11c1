/** The enhanced clock of muse/src/utils.c: two kinds of sweep over the frame
    bitmap, and the four-sweep victim search built from them. */
module Clock {
  import opened Options

  /** One frame of `bits_memoria`; its `pos` is its position in the list. */
  datatype BitMemoria = BitMemoria(ocupado: bool, uso: bool, modificado: bool)

  type Bits = seq<BitMemoria>

  /** What a sweep returns: the frame found (NULL is None), and the globals it leaves. */
  datatype Sweep = Sweep(frame: Option<nat>, bits: Bits, puntero: nat)

  // ---- circular order -------------------------------------------------------

  /** The k-th frame a sweep that starts at pointer p looks at. */
  function Visited(n: nat, p: nat, k: nat): (f: nat)
    requires k < n && p <= n
    ensures f < n
  {
    if p + k < n then p + k else p + k - n
  }

  /** How many frames a sweep that starts at p looks at before frame f. */
  function Rank(n: nat, p: nat, f: nat): (k: nat)
    requires f < n && p <= n
    ensures k < n
  {
    if f >= p then f - p else f + n - p
  }

  /** A complete sweep looks at every frame exactly once. */
  lemma EachFrameOnce(n: nat, p: nat)
    requires p <= n
    ensures forall f: nat | f < n :: Visited(n, p, Rank(n, p, f)) == f
    ensures forall k: nat | k < n :: Rank(n, p, Visited(n, p, k)) == k
  {
  }

  // ---- one sweep ------------------------------------------------------------

  /** The frames a sweep looks for: not used, and modified or not as asked. */
  predicate Candidate(b: BitMemoria, modificado: bool) {
    !b.uso && b.modificado == modificado
  }

  /** Rank, at least k, of the first candidate in circular order; |b| if there is none. */
  function FirstRank(b: Bits, p: nat, modificado: bool, k: nat): (r: nat)
    requires p <= |b| && k <= |b|
    ensures k <= r <= |b|
    decreases |b| - k
  {
    if k == |b| || Candidate(b[Visited(|b|, p, k)], modificado) then k
    else FirstRank(b, p, modificado, k + 1)
  }

  lemma {:induction false} FirstRankMeans(b: Bits, p: nat, modificado: bool, k: nat)
    requires p <= |b| && k <= |b|
    ensures var r := FirstRank(b, p, modificado, k);
            && (forall j: nat | k <= j < r :: !Candidate(b[Visited(|b|, p, j)], modificado))
            && (r < |b| ==> Candidate(b[Visited(|b|, p, r)], modificado))
    decreases |b| - k
  {
    if k < |b| { FirstRankMeans(b, p, modificado, k + 1); }
  }

  /** No candidate among the first k frames looked at: the search may start after them. */
  lemma {:induction false} SkipRank(b: Bits, p: nat, modificado: bool, i: nat, k: nat)
    requires p <= |b| && i <= k <= |b| && FirstRank(b, p, modificado, i) >= k
    ensures FirstRank(b, p, modificado, i) == FirstRank(b, p, modificado, k)
    decreases k - i
  {
    if i < k { SkipRank(b, p, modificado, i + 1, k); }
  }

  /** One turn of the search. */
  lemma NextRank(b: Bits, p: nat, modificado: bool, k: nat)
    requires p <= |b| && k < |b|
    ensures Visited(|b|, p, k) < |b|
    ensures FirstRank(b, p, modificado, k) ==
              if Candidate(b[Visited(|b|, p, k)], modificado) then k else FirstRank(b, p, modificado, k + 1)
    ensures k < |b| - p ==> Visited(|b|, p, k) == p + k
    ensures |b| - p <= k ==> Visited(|b|, p, k) == k - (|b| - p)
  {
  }

  /** The bitmap after the use bits of the first k frames in circular order are cleared. */
  function Cleared(b: Bits, p: nat, k: nat): (c: Bits)
    requires p <= |b|
    ensures |c| == |b|
    ensures forall f: nat | f < |b| ::
              c[f] == if Rank(|b|, p, f) < k then b[f].(uso := false) else b[f]
  {
    seq(|b|, f requires 0 <= f < |b| => if Rank(|b|, p, f) < k then b[f].(uso := false) else b[f])
  }

  lemma NothingCleared(b: Bits, p: nat)
    requires p <= |b|
    ensures Cleared(b, p, 0) == b
  {
  }

  /** Clearing one frame more. */
  lemma ClearNext(b: Bits, p: nat, k: nat)
    requires p <= |b| && k < |b|
    ensures var f := Visited(|b|, p, k);
            && Cleared(b, p, k)[f] == b[f]
            && Cleared(b, p, k + 1) ==
               if b[f].uso then Cleared(b, p, k)[f := b[f].(uso := false)] else Cleared(b, p, k)
  {
  }

  /** Where a successful sweep leaves the pointer: past the frame on the first leg,
      on the frame itself on the second. */
  function PointerAfter(p: nat, f: nat): nat {
    if f >= p then f + 1 else f
  }

  function Sweep00(b: Bits, p: nat): (s: Sweep)
    requires p <= |b|
    ensures s.puntero <= |b|
  {
    var k := FirstRank(b, p, false, 0);
    if k == |b| then Sweep(None, b, p)
    else var f := Visited(|b|, p, k); Sweep(Some(f), b, PointerAfter(p, f))
  }

  function Sweep01(b: Bits, p: nat): (s: Sweep)
    requires p <= |b|
    ensures |s.bits| == |b| && s.puntero <= |b|
  {
    var k := FirstRank(b, p, true, 0);
    if k == |b| then Sweep(None, Cleared(b, p, k), p)
    else var f := Visited(|b|, p, k); Sweep(Some(f), Cleared(b, p, k), PointerAfter(p, f))
  }

  /** The search of `ejecutarClockModificado`: (0,0), (0,1), and both again. */
  function Victim(b: Bits, p: nat): Sweep
    requires p <= |b|
  {
    var s1 := Sweep00(b, p);
    if s1.frame.Some? then s1 else
    var s2 := Sweep01(s1.bits, s1.puntero);
    if s2.frame.Some? then s2 else
    var s3 := Sweep00(s2.bits, s2.puntero);
    if s3.frame.Some? then s3 else
    Sweep01(s3.bits, s3.puntero)
  }

  // ---- what the sweeps mean -------------------------------------------------

  /** f is the first candidate in circular order from p. */
  ghost predicate IsFirst(b: Bits, p: nat, f: nat, modificado: bool)
    requires p <= |b|
  {
    && f < |b|
    && Candidate(b[f], modificado)
    && forall g: nat | g < |b| && Rank(|b|, p, g) < Rank(|b|, p, f) :: !Candidate(b[g], modificado)
  }

  ghost predicate Any(b: Bits, modificado: bool) {
    exists f: nat :: f < |b| && Candidate(b[f], modificado)
  }

  /** A sweep fails exactly when no frame qualifies; a successful one stops at the first. */
  lemma FirstRankFindsFirst(b: Bits, p: nat, modificado: bool)
    requires p <= |b|
    ensures FirstRank(b, p, modificado, 0) < |b| <==> Any(b, modificado)
    ensures FirstRank(b, p, modificado, 0) < |b| ==>
              IsFirst(b, p, Visited(|b|, p, FirstRank(b, p, modificado, 0)), modificado)
  {
    EachFrameOnce(|b|, p);
    FirstRankMeans(b, p, modificado, 0);
    var k := FirstRank(b, p, modificado, 0);
    forall g: nat | g < |b| && Rank(|b|, p, g) < k
      ensures !Candidate(b[g], modificado)
    {
      assert b[g] == b[Visited(|b|, p, Rank(|b|, p, g))];
    }
    if k < |b| {
      assert Candidate(b[Visited(|b|, p, k)], modificado);
    }
  }

  /** An unsuccessful sweep restores the pointer; a (0,0) sweep changes no bit, and a
      failed (0,1) sweep clears every use bit and nothing else. */
  lemma FailedSweeps(b: Bits, p: nat)
    requires p <= |b|
    ensures Sweep00(b, p).bits == b
    ensures Sweep00(b, p).frame.None? <==> !Any(b, false)
    ensures Sweep00(b, p).frame.None? ==> Sweep00(b, p).puntero == p
    ensures Sweep01(b, p).frame.None? <==> !Any(b, true)
    ensures Sweep01(b, p).frame.None? ==>
              && Sweep01(b, p).puntero == p
              && forall f: nat | f < |b| :: Sweep01(b, p).bits[f] == b[f].(uso := false)
  {
    FirstRankFindsFirst(b, p, false);
    FirstRankFindsFirst(b, p, true);
  }

  /** Exactly which frame the clock evicts, which bits it clears on the way, and where
      it leaves the pointer. With at least one frame it always finds a victim. */
  lemma ClockVictim(b: Bits, p: nat)
    requires 0 < |b| && p <= |b|
    ensures Victim(b, p).frame.Some?
    ensures Victim(b, p).frame.value < |b|
    ensures Victim(b, p).puntero == PointerAfter(p, Victim(b, p).frame.value) <= |b|
    ensures |Victim(b, p).bits| == |b|
    ensures Any(b, false) ==>
              && IsFirst(b, p, Victim(b, p).frame.value, false)
              && Victim(b, p).bits == b
    ensures !Any(b, false) && Any(b, true) ==>
              && IsFirst(b, p, Victim(b, p).frame.value, true)
              && Victim(b, p).bits == Cleared(b, p, Rank(|b|, p, Victim(b, p).frame.value))
    ensures !Any(b, false) && !Any(b, true) ==>
              && (forall f: nat | f < |b| :: b[f].uso && Victim(b, p).bits[f] == b[f].(uso := false))
              && (if exists f: nat :: f < |b| && !b[f].modificado
                  then IsFirst(Victim(b, p).bits, p, Victim(b, p).frame.value, false)
                  else Victim(b, p).frame.value == Visited(|b|, p, 0))
  {
    if Any(b, false) || Any(b, true) {
      VictimUnused(b, p);
    } else {
      VictimAllUsed(b, p);
    }
  }

  /** How far past the pointer a frame is, going round. */
  function Distancia(n: nat, p: nat, f: nat): int {
    if f >= p then f - p else f + n - p
  }

  /** The same in terms of the bits alone. The victim is the nearest (0,0) frame, else the nearest
      (0,1) one, and then the frames passed over are no longer used; when every frame is used, all
      lose the use bit and it is the nearest unmodified one, else the nearest of all. The pointer
      stays on a victim found after going round, and passes any other. */
  lemma ClockChoice(b: Bits, p: nat)
    requires 0 < |b| && p <= |b|
    ensures Victim(b, p).frame.Some? && Victim(b, p).frame.value < |b| && |Victim(b, p).bits| == |b|
    ensures var f, c := Victim(b, p).frame.value, Victim(b, p).bits;
            && Victim(b, p).puntero == (if f < p then f else f + 1)
            && (if exists g: nat :: g < |b| && !b[g].uso && !b[g].modificado then
                  && c == b && !b[f].uso && !b[f].modificado
                  && forall g: nat | g < |b| && Distancia(|b|, p, g) < Distancia(|b|, p, f) ::
                       b[g].uso || b[g].modificado
                else if exists g: nat :: g < |b| && !b[g].uso then
                  && !b[f].uso && b[f].modificado
                  && (forall g: nat | g < |b| && Distancia(|b|, p, g) < Distancia(|b|, p, f) :: b[g].uso)
                  && forall g: nat | g < |b| ::
                       c[g] == if Distancia(|b|, p, g) < Distancia(|b|, p, f) then b[g].(uso := false) else b[g]
                else
                  && (forall g: nat | g < |b| :: c[g] == b[g].(uso := false))
                  && if exists g: nat :: g < |b| && !b[g].modificado then
                       && !b[f].modificado
                       && forall g: nat | g < |b| && Distancia(|b|, p, g) < Distancia(|b|, p, f) :: b[g].modificado
                     else Distancia(|b|, p, f) == 0)
  {
    ClockVictim(b, p);
    PointerIs(p, Victim(b, p).frame.value);
    AnyIs(b);
    hide Victim, PointerAfter;
    RankIs(|b|, p);
    var f := Victim(b, p).frame.value;
    hide Rank, Distancia, Visited;
    if Any(b, false) {
    } else if Any(b, true) {
      hide Any;
    } else {
      hide Any;
    }
  }

  lemma RankIs(n: nat, p: nat)
    requires p <= n
    ensures forall g: nat | g < n :: Rank(n, p, g) == Distancia(n, p, g)
    ensures 0 < n ==> Visited(n, p, 0) < n && Distancia(n, p, Visited(n, p, 0)) == 0
  {
  }

  lemma PointerIs(p: nat, f: nat)
    ensures PointerAfter(p, f) == if f < p then f else f + 1
  {
  }

  lemma AnyIs(b: Bits)
    ensures Any(b, false) <==> exists g: nat :: g < |b| && !b[g].uso && !b[g].modificado
    ensures Any(b, false) || Any(b, true) <==> exists g: nat :: g < |b| && !b[g].uso
  {
    if g: nat :| g < |b| && !b[g].uso { assert Candidate(b[g], b[g].modificado); }
    if g: nat :| g < |b| && !b[g].uso && !b[g].modificado { assert Candidate(b[g], false); }
  }

  lemma VictimUnused(b: Bits, p: nat)
    requires 0 < |b| && p <= |b|
    requires Any(b, false) || Any(b, true)
    ensures var v := Victim(b, p);
            && v.frame.Some? && v.frame.value < |b|
            && v.puntero == PointerAfter(p, v.frame.value) <= |b|
            && (Any(b, false) ==> IsFirst(b, p, v.frame.value, false) && v.bits == b)
            && (!Any(b, false) ==>
                  && IsFirst(b, p, v.frame.value, true)
                  && v.bits == Cleared(b, p, Rank(|b|, p, v.frame.value)))
  {
    EachFrameOnce(|b|, p);
    FirstRankFindsFirst(b, p, false);
    FirstRankFindsFirst(b, p, true);
  }

  lemma VictimAllUsed(b: Bits, p: nat)
    requires 0 < |b| && p <= |b|
    requires !Any(b, false) && !Any(b, true)
    ensures var v := Victim(b, p);
            && v.frame.Some? && v.frame.value < |b|
            && v.puntero == PointerAfter(p, v.frame.value) <= |b|
            && |v.bits| == |b|
            && (forall f: nat | f < |b| :: b[f].uso && v.bits[f] == b[f].(uso := false))
            && (if exists f: nat :: f < |b| && !b[f].modificado
                then IsFirst(v.bits, p, v.frame.value, false)
                else v.frame.value == Visited(|b|, p, 0))
  {
    AllUsed(b);
    FailedSweeps(b, p);
    var c := Cleared(b, p, |b|);
    assert Victim(b, p) == if Sweep00(c, p).frame.Some? then Sweep00(c, p) else Sweep01(c, p);
    FirstRankFindsFirst(c, p, false);
    if exists f: nat :: f < |b| && !b[f].modificado {
      var f: nat :| f < |b| && !b[f].modificado;
      assert Candidate(c[f], false);
    } else {
      assert Candidate(c[Visited(|c|, p, 0)], true);
      assert Cleared(c, p, 0) == c;
    }
  }

  lemma AllUsed(b: Bits)
    requires !Any(b, false) && !Any(b, true)
    ensures forall f: nat | f < |b| :: b[f].uso
  {
  }

  /** A frame whose use bit is set is evicted only if every frame had it set. */
  lemma UsedVictimOnlyWhenAllUsed(b: Bits, p: nat)
    requires 0 < |b| && p <= |b|
    requires Victim(b, p).frame.Some? && Victim(b, p).frame.value < |b|
    requires b[Victim(b, p).frame.value].uso
    ensures forall f: nat | f < |b| :: b[f].uso
  {
    ClockVictim(b, p);
  }

  /** The search never touches the occupied bits or the modified bits. */
  lemma VictimKeepsOtherBits(b: Bits, p: nat)
    requires 0 < |b| && p <= |b|
    ensures |Victim(b, p).bits| == |b|
    ensures forall f: nat | f < |b| ::
              && Victim(b, p).bits[f].ocupado == b[f].ocupado
              && Victim(b, p).bits[f].modificado == b[f].modificado
  {
  }
}
