/** Exact arithmetic the schedules are built from: natural powers, sums of
    series, and Python's truncating `int(...)` conversion, all over `real`. */
module RealMath {

  /** x raised to the natural power k, as Python's `**` with an integer exponent. */
  function Pow(x: real, k: nat): real
  {
    if k == 0 then 1.0 else x * Pow(x, k - 1)
  }

  lemma {:induction false} PowOfOne(k: nat)
    ensures Pow(1.0, k) == 1.0
  {
    if k > 0 {
      PowOfOne(k - 1);
    }
  }

  lemma {:induction false} PowPositive(x: real, k: nat)
    requires x > 0.0
    ensures Pow(x, k) > 0.0
  {
    if k > 0 {
      PowPositive(x, k - 1);
    }
  }

  /** A base above one raised to a positive power stays above one. */
  lemma {:induction false} PowAboveOne(x: real, k: nat)
    requires x > 1.0 && k >= 1
    ensures Pow(x, k) > 1.0
  {
    if k > 1 {
      PowAboveOne(x, k - 1);
      assert x * Pow(x, k - 1) > 1.0 * Pow(x, k - 1);
    }
  }

  /** Bernoulli's inequality: (1 + m)^k >= 1 + k * m for m >= -1. */
  lemma {:induction false} Bernoulli(m: real, k: nat)
    requires m >= -1.0
    ensures Pow(1.0 + m, k) >= 1.0 + k as real * m
  {
    if k > 0 {
      Bernoulli(m, k - 1);
      BernoulliStep(m, Pow(1.0 + m, k - 1), (k - 1) as real);
    }
  }

  /** One step of Bernoulli on plain numbers: q stands for (1 + m)^j. */
  lemma BernoulliStep(m: real, q: real, j: real)
    requires m >= -1.0 && j >= 0.0 && q >= 1.0 + j * m
    ensures (1.0 + m) * q >= 1.0 + (j + 1.0) * m
  {
    NonNegativeProduct(1.0 + m, q - (1.0 + j * m));
    assert m * m >= 0.0;
    NonNegativeProduct(j, m * m);
    assert (1.0 + m) * q == (1.0 + m) * (q - (1.0 + j * m)) + 1.0 + (j + 1.0) * m + j * (m * m);
  }

  /** A non-zero factor cancels from both sides of an equation. */
  lemma CancelFactor(a: real, x: real, y: real)
    requires a != 0.0 && a * x == a * y
    ensures x == y
  {
    assert a * (x - y) == 0.0;
  }

  /** The product of two non-negative numbers is not negative. */
  lemma NonNegativeProduct(x: real, y: real)
    requires x >= 0.0 && y >= 0.0
    ensures x * y >= 0.0
  {
  }

  /** A product with a positive factor that is not negative has a
      non-negative other factor. */
  lemma NonNegativeFactor(x: real, y: real)
    requires y > 0.0 && x * y >= 0.0
    ensures x >= 0.0
  {
  }

  /** The sum of a series, as numpy's `.sum()` computes it in exact arithmetic. */
  function Sum(s: seq<real>): real
  {
    if |s| == 0 then 0.0 else Sum(s[..|s| - 1]) + s[|s| - 1]
  }

  /** The first k terms sum to the first k - 1 terms plus term k - 1. */
  lemma SumSnoc(a: seq<real>, k: nat)
    requires 0 < k <= |a|
    ensures Sum(a[..k]) == Sum(a[..k - 1]) + a[k - 1]
  {
    assert a[..k][..k - 1] == a[..k - 1];
  }

  /** A series whose every term is c sums to its length times c. */
  lemma {:induction false} SumConstant(s: seq<real>, c: real)
    requires forall i :: 0 <= i < |s| ==> s[i] == c
    ensures Sum(s) == |s| as real * c
  {
    if |s| > 0 {
      SumConstant(s[..|s| - 1], c);
    }
  }

  /** Adding the constant c to every term of b adds |b| times c to its sum. */
  lemma {:induction false} SumShifted(a: seq<real>, b: seq<real>, c: real)
    requires |a| == |b|
    requires forall i :: 0 <= i < |a| ==> a[i] == c + b[i]
    ensures Sum(a) == |a| as real * c + Sum(b)
  {
    if |a| > 0 {
      SumShifted(a[..|a| - 1], b[..|b| - 1], c);
    }
  }

  /** Python's `int(x)` on a float: truncation toward zero. */
  function Truncate(x: real): (t: int)
    ensures 0.0 <= x ==> 0 <= t && t as real <= x < t as real + 1.0
    ensures x < 0.0 ==> t <= 0 && t as real - 1.0 < x <= t as real
  {
    if x >= 0.0 then x.Floor else -((-x).Floor)
  }
}
