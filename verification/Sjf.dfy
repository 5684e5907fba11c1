/** The burst estimate of suse/src/suse.c: exponential averaging. */
module Sjf {

  /** `estimarDuracionHilo` */
  function Estimar(estimado: real, duracion: real, alpha: real): real {
    duracion * alpha + (1.0 - alpha) * estimado
  }

  /** The estimate after a sequence of measured bursts. */
  function EstimarTodos(estimado: real, ds: seq<real>, alpha: real): real {
    if ds == [] then estimado
    else Estimar(EstimarTodos(estimado, ds[..|ds| - 1], alpha), ds[|ds| - 1], alpha)
  }

  function Pow(b: real, n: nat): real {
    if n == 0 then 1.0 else b * Pow(b, n - 1)
  }

  /** Sum of alpha * b^(|ds|-1-k) * ds[k] over the first n bursts. */
  function Ponderada(ds: seq<real>, alpha: real, b: real, n: nat): real
    requires n <= |ds|
  {
    if n == 0 then 0.0
    else Ponderada(ds, alpha, b, n - 1) + Peso(alpha, Pow(b, |ds| - n), ds[n - 1])
  }

  function Peso(alpha: real, q: real, d: real): real {
    alpha * q * d
  }

  /** A product, kept apart so that the sums around it stay linear. */
  function Por(a: real, b: real): real {
    a * b
  }

  lemma PorSum(b: real, x: real, y: real)
    ensures Por(b, x + y) == Por(b, x) + Por(b, y)
  {
  }

  lemma PesoScale(alpha: real, b: real, q: real, d: real)
    ensures Peso(alpha, Por(b, q), d) == Por(b, Peso(alpha, q, d))
  {
    assert alpha * (b * q) == b * (alpha * q);
    assert (b * (alpha * q)) * d == b * (alpha * q * d);
  }

  /** One burst more multiplies the older weights by b. */
  lemma {:induction false} PonderadaShift(ds: seq<real>, d: real, alpha: real, b: real, n: nat)
    requires n <= |ds|
    ensures Ponderada(ds + [d], alpha, b, n) == Por(b, Ponderada(ds, alpha, b, n))
  {
    if n == 0 {
      assert Por(b, 0.0) == 0.0;
    } else {
      hide Peso, Pow, Por;
      PonderadaShift(ds, d, alpha, b, n - 1);
      PowStep(b, |ds| - n);
      PesoScale(alpha, b, Pow(b, |ds| - n), ds[n - 1]);
      assert (ds + [d])[n - 1] == ds[n - 1] && |ds + [d]| - n == |ds| - n + 1;
      PorSum(b, Ponderada(ds, alpha, b, n - 1), Peso(alpha, Pow(b, |ds| - n), ds[n - 1]));
    }
  }

  lemma PowStep(b: real, n: nat)
    ensures Pow(b, n + 1) == Por(b, Pow(b, n))
  {
  }

  lemma PonderadaLast(viejos: seq<real>, d: real, alpha: real, b: real)
    ensures Ponderada(viejos + [d], alpha, b, |viejos| + 1)
         == Por(b, Ponderada(viejos, alpha, b, |viejos|)) + Por(d, alpha)
  {
    PonderadaShift(viejos, d, alpha, b, |viejos|);
    assert Peso(alpha, Pow(b, 0), d) == Por(d, alpha);
    hide Por;
    assert (viejos + [d])[|viejos|] == d;
  }

  lemma EstimarLast(estimado: real, viejos: seq<real>, d: real, alpha: real, b: real)
    requires b == 1.0 - alpha
    ensures EstimarTodos(estimado, viejos + [d], alpha)
         == Por(d, alpha) + Por(b, EstimarTodos(estimado, viejos, alpha))
  {
  }

  lemma LastBurst(q: real, x: real, s: real, b: real)
    ensures Por(b, Por(q, x) + s) == Por(Por(b, q), x) + Por(b, s)
  {
    PorSum(b, Por(q, x), s);
    assert b * (q * x) == (b * q) * x;
  }

  lemma {:induction false} ClosedFormFor(estimado: real, ds: seq<real>, alpha: real, b: real)
    requires b == 1.0 - alpha
    ensures EstimarTodos(estimado, ds, alpha) == Por(Pow(b, |ds|), estimado) + Ponderada(ds, alpha, b, |ds|)
  {
    if ds != [] {
      hide Pow, Ponderada, EstimarTodos, Por;
      var n := |ds| - 1;
      var viejos, d := ds[..n], ds[n];
      assert viejos + [d] == ds;
      ClosedFormFor(estimado, viejos, alpha, b);
      PowStep(b, n);
      PonderadaLast(viejos, d, alpha, b);
      EstimarLast(estimado, viejos, d, alpha, b);
      LastBurst(Pow(b, n), estimado, Ponderada(viejos, alpha, b, n), b);
    }
  }

  /** Starting from any estimate, the closed form of the exponential average. */
  lemma ClosedForm(estimado: real, ds: seq<real>, alpha: real)
    ensures EstimarTodos(estimado, ds, alpha)
         == Pow(1.0 - alpha, |ds|) * estimado + Ponderada(ds, alpha, 1.0 - alpha, |ds|)
  {
    ClosedFormFor(estimado, ds, alpha, 1.0 - alpha);
  }

  /** From a new thread's estimate 0 the average is exactly the weighted sum. */
  lemma NewThreadAverage(ds: seq<real>, alpha: real)
    ensures EstimarTodos(0.0, ds, alpha) == Ponderada(ds, alpha, 1.0 - alpha, |ds|)
  {
    ClosedForm(0.0, ds, alpha);
  }

  /** Two starting estimates fed the same bursts draw together by 1 - alpha a burst. */
  lemma {:induction false} Forgetting(e1: real, e2: real, ds: seq<real>, alpha: real)
    ensures EstimarTodos(e1, ds, alpha) - EstimarTodos(e2, ds, alpha) == Pow(1.0 - alpha, |ds|) * (e1 - e2)
  {
    hide EstimarTodos, Ponderada, Pow;
    var q := Pow(1.0 - alpha, |ds|);
    ClosedForm(e1, ds, alpha);
    ClosedForm(e2, ds, alpha);
    assert q * e1 - q * e2 == q * (e1 - e2);
  }

  /** The estimate never leaves the range of what went into it: from 0, it stays between 0
      and the largest burst. */
  lemma {:induction false} Bounded(estimado: real, ds: seq<real>, alpha: real, lo: real, hi: real)
    requires 0.0 <= alpha <= 1.0 && lo <= estimado <= hi
    requires forall k: nat | k < |ds| :: lo <= ds[k] <= hi
    ensures lo <= EstimarTodos(estimado, ds, alpha) <= hi
  {
    if ds != [] {
      var viejos, d := ds[..|ds| - 1], ds[|ds| - 1];
      Bounded(estimado, viejos, alpha, lo, hi);
      Between(EstimarTodos(estimado, viejos, alpha), d, alpha, lo, hi);
    }
  }

  lemma Between(e: real, d: real, alpha: real, lo: real, hi: real)
    requires 0.0 <= alpha <= 1.0 && lo <= e <= hi && lo <= d <= hi
    ensures lo <= Estimar(e, d, alpha) <= hi
  {
    hide Estimar, Por;
    EstimarFrom(e, d, alpha, lo);
    EstimarFrom(e, d, alpha, hi);
    PorSign(alpha, d - lo);
    PorSign(1.0 - alpha, e - lo);
    PorSign(alpha, d - hi);
    PorSign(1.0 - alpha, e - hi);
  }

  /** The estimate as distances from any x. */
  lemma EstimarFrom(e: real, d: real, alpha: real, x: real)
    ensures Estimar(e, d, alpha) == x + Por(alpha, d - x) + Por(1.0 - alpha, e - x)
  {
    PorSum(alpha, d - x, x);
    PorSum(1.0 - alpha, e - x, x);
    assert Por(alpha, x) + Por(1.0 - alpha, x) == x;
  }

  lemma PorSign(a: real, b: real)
    requires 0.0 <= a
    ensures 0.0 <= b ==> 0.0 <= Por(a, b)
    ensures b <= 0.0 ==> Por(a, b) <= 0.0
  {
  }
}
