/** The two total expenses of app.py:73 side by side: for a positive loan
    and rate the linear schedule never costs more than the annuity. */
module Costs {
  import opened RealMath
  import opened Schedules
  import opened Annuity
  import opened Linear

  /** q * (1 - j * m) <= 1: with q = (1 + m)^j, a reversed Bernoulli bound. */
  ghost predicate DeficitBounded(m: real, j: real, q: real)
  {
    q * (1.0 - j * m) <= 1.0
  }

  /** 2 * i * m * p >= (2 + m * (i + 1)) * (p - 1): with p = (1 + m)^i, the
      annuity over i months costs at least as much as the linear schedule. */
  ghost predicate Outweighs(m: real, i: real, p: real)
  {
    2.0 * i * m * p >= (2.0 + m * (i + 1.0)) * (p - 1.0)
  }

  /** (1 + m)^k * (1 - k * m) never exceeds 1 when 1 + m is positive. */
  lemma {:induction false} PowTimesDeficit(m: real, k: nat)
    requires m > -1.0
    ensures DeficitBounded(m, k as real, Pow(1.0 + m, k))
  {
    if k > 0 {
      PowTimesDeficit(m, k - 1);
      PowPositive(1.0 + m, k - 1);
      DeficitStep(m, Pow(1.0 + m, k - 1), (k - 1) as real, Pow(1.0 + m, k), k as real);
    }
  }

  /** One step of PowTimesDeficit on plain numbers: q stands for (1 + m)^j
      and p for (1 + m)^i with i = j + 1. */
  lemma DeficitStep(m: real, q: real, j: real, p: real, i: real)
    requires m > -1.0 && q > 0.0 && j >= 0.0 && DeficitBounded(m, j, q)
    requires p == (1.0 + m) * q && i == j + 1.0
    ensures DeficitBounded(m, i, p)
  {
    assert (1.0 + m) * (1.0 - i * m) == (1.0 - j * m) - i * m * m;
    assert i * m * m >= 0.0;
    assert q * (i * m * m) >= 0.0;
    assert p * (1.0 - i * m) == q * (1.0 - j * m) - q * (i * m * m);
  }

  /** With Q = (1 + m)^k and m > 0: 2 * k * m * Q >= (2 + m * (k + 1)) * (Q - 1).
      The gap grows from month k to k + 1 by m * (1 - Q * (1 - k * m)). */
  lemma {:induction false} AnnuityOutweighsLinear(m: real, k: nat)
    requires m > 0.0
    ensures Outweighs(m, k as real, Pow(1.0 + m, k))
  {
    if k > 0 {
      AnnuityOutweighsLinear(m, k - 1);
      PowTimesDeficit(m, k - 1);
      OutweighStep(m, Pow(1.0 + m, k - 1), (k - 1) as real, Pow(1.0 + m, k), k as real);
    } else {
      assert Pow(1.0 + m, k) - 1.0 == 0.0;
    }
  }

  /** One step of AnnuityOutweighsLinear on plain numbers: q stands for
      (1 + m)^j and p for (1 + m)^i with i = j + 1. */
  lemma OutweighStep(m: real, q: real, j: real, p: real, i: real)
    requires m > 0.0 && DeficitBounded(m, j, q) && Outweighs(m, j, q)
    requires p == (1.0 + m) * q && i == j + 1.0
    ensures Outweighs(m, i, p)
  {
    GapGrowth(m, q, j);
    assert m * (1.0 - q * (1.0 - j * m)) >= 0.0;
  }

  /** The polynomial identity behind one step of AnnuityOutweighsLinear. */
  lemma GapGrowth(m: real, q: real, j: real)
    ensures (2.0 * (j + 1.0) * m * ((1.0 + m) * q) - (2.0 + m * (j + 2.0)) * ((1.0 + m) * q - 1.0))
          - (2.0 * j * m * q - (2.0 + m * (j + 1.0)) * (q - 1.0))
         == m * (1.0 - q * (1.0 - j * m))
  {
  }

  /** From r * (q - 1) == c * m * q and Outweighs(m, n, q) with q > 1 and
      c > 0 it follows that n * r >= c * (2 + m * (n + 1)) / 2. */
  lemma ScaledComparison(c: real, m: real, r: real, q: real, n: real)
    requires c > 0.0 && q > 1.0
    requires r * (q - 1.0) == c * m * q
    requires Outweighs(m, n, q)
    ensures n * r >= c + c * m * (n + 1.0) / 2.0
  {
    var a := 2.0 + m * (n + 1.0);
    assert n * r * (q - 1.0) == c * (n * m * q);
    assert c * (n * m * q) >= c * (a * (q - 1.0) / 2.0);
    assert (n * r - c * a / 2.0) * (q - 1.0) >= 0.0;
    NonNegativeFactor(n * r - c * a / 2.0, q - 1.0);
  }

  /** For a positive loan and rate, n annuity payments cost at least the
      capital plus the linear schedule's interest capital * mir * (n + 1) / 2. */
  lemma AnnuityCostsAtLeastLinear(capital: real, mir: real, n: nat)
    requires capital > 0.0 && mir > 0.0 && n >= 1
    ensures AnnuityDefined(mir, n)
    ensures n as real * AnnuityPayment(capital, mir, n)
         >= capital + capital * mir * (n as real + 1.0) / 2.0
  {
    PositiveRateDefined(mir, n);
    PowAboveOne(1.0 + mir, n);
    AnnuityOutweighsLinear(mir, n);
    ScaledComparison(capital, mir, AnnuityPayment(capital, mir, n), Pow(1.0 + mir, n), n as real);
  }

  /** For a positive loan and rate, the linear schedule's total expense is at
      most the annuity's over the same term. */
  lemma LinearNoDearerThanAnnuity(fr: Schedule, it: Schedule, capital: real, mir: real, n: nat)
    requires capital > 0.0 && mir > 0.0 && AnnuityDefined(mir, n)
    requires IsAnnuitySchedule(fr, capital, mir, n)
    requires n >= 1 && IsLinearSchedule(it, capital, mir, n)
    ensures TotalExpense(it) <= TotalExpense(fr)
  {
    var r := AnnuityPayment(capital, mir, n);
    var linear := capital + capital * mir * (n as real + 1.0) / 2.0;
    assert TotalExpense(fr) == n as real * r by {
      AnnuityTotal(fr, capital, mir, n);
    }
    assert TotalExpense(it) == linear by {
      LinearTotal(it, capital, mir, n);
    }
    AnnuityCostsAtLeastLinear(capital, mir, n);
  }

  /** From n * p == c, r * (q - 1) == c * m * q and q >= 1 + n * m with
      q > 1 and c >= 0 it follows that r <= p + c * m. */
  lemma FirstPaymentBound(c: real, m: real, r: real, q: real, n: real, p: real)
    requires c >= 0.0 && q > 1.0 && n >= 1.0
    requires n * p == c && r * (q - 1.0) == c * m * q && q >= 1.0 + n * m
    ensures r <= p + c * m
  {
    NonNegativeProduct(c, q - 1.0 - n * m);
    assert (p + c * m - r) * (n * (q - 1.0)) == c * (q - 1.0 - n * m);
    NonNegativeFactor(p + c * m - r, n * (q - 1.0));
  }

  /** For a non-negative loan at a positive rate, the annuity's constant
      payment is at most the linear schedule's first payment p + capital * mir. */
  lemma AnnuityBelowFirstLinear(capital: real, mir: real, n: nat)
    requires capital >= 0.0 && mir > 0.0 && n >= 1
    ensures AnnuityDefined(mir, n)
    ensures AnnuityPayment(capital, mir, n) <= Instalment(capital, n) + capital * mir
  {
    PositiveRateDefined(mir, n);
    PowAboveOne(1.0 + mir, n);
    Bernoulli(mir, n);
    FirstPaymentBound(capital, mir, AnnuityPayment(capital, mir, n), Pow(1.0 + mir, n),
                      n as real, Instalment(capital, n));
  }
}
