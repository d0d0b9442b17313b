/** The annuity ("FR") schedule of app.py:28-44: a constant monthly payment
    whose interest share is charged on the balance still owed. */
module Annuity {
  import opened RealMath
  import opened Schedules

  /** The payment formula at app.py:29 evaluates without a division by zero:
      (1 + mir)^n is neither 0 (the inner division) nor 1 (the outer one). */
  predicate AnnuityDefined(mir: real, n: nat)
  {
    Pow(1.0 + mir, n) != 0.0 && Pow(1.0 + mir, n) != 1.0
  }

  /** A defined formula has a real term and a non-zero rate: n = 0 and
      mir = 0 both make (1 + mir)^n equal to 1. */
  lemma DefinedTerm(mir: real, n: nat)
    requires AnnuityDefined(mir, n)
    ensures n >= 1 && mir != 0.0
  {
    if mir == 0.0 {
      PowOfOne(n);
    }
  }

  /** Every positive rate over a term of at least one month is defined. */
  lemma PositiveRateDefined(mir: real, n: nat)
    requires mir > 0.0 && n >= 1
    ensures AnnuityDefined(mir, n)
  {
    PowAboveOne(1.0 + mir, n);
  }

  /** The constant monthly payment r of app.py:29. Its contract is the
      equation that makes it clear the loan in n months:
      r * ((1 + mir)^n - 1) == capital * mir * (1 + mir)^n. */
  function AnnuityPayment(capital: real, mir: real, n: nat): (r: real)
    requires AnnuityDefined(mir, n)
    ensures r * (Pow(1.0 + mir, n) - 1.0) == capital * mir * Pow(1.0 + mir, n)
  {
    var q := Pow(1.0 + mir, n);
    var d := 1.0 - 1.0 / q;
    assert d * q == q - 1.0;
    assert d != 0.0;
    var r := capital * mir / d;
    assert r * d == capital * mir;
    assert r * (q - 1.0) == (r * d) * q;
    r
  }

  /** The capital still owed after k months of the loop at app.py:33-36 when
      r is paid every month: each month repays r minus the interest on what
      is owed. */
  function Balance(capital: real, mir: real, r: real, k: nat): real
  {
    if k == 0 then capital
    else
      var left := Balance(capital, mir, r, k - 1);
      left - (r - left * mir)
  }

  /** r - b * mir == g * q: the repayment share of a month that opens on b
      is the first month's share g grown by the factor q. */
  ghost predicate GrownShare(mir: real, r: real, g: real, b: real, q: real)
  {
    r - b * mir == g * q
  }

  /** mir * b == c * mir * q - r * (q - 1): b is the balance left of c after
      the months that grow it by the factor q. */
  ghost predicate RatedBalance(c: real, mir: real, r: real, b: real, q: real)
  {
    mir * b == c * mir * q - r * (q - 1.0)
  }

  /** The repayment share grows geometrically: in month k it is the first
      month's share r - capital*mir times (1 + mir)^k. */
  lemma {:induction false} RepaymentGeometric(capital: real, mir: real, r: real, k: nat)
    ensures r - Balance(capital, mir, r, k) * mir == (r - capital * mir) * Pow(1.0 + mir, k)
  {
    ShareInduction(capital, mir, r, k);
  }

  /** RepaymentGeometric by induction on k, stated through GrownShare. */
  lemma {:induction false} ShareInduction(capital: real, mir: real, r: real, k: nat)
    ensures GrownShare(mir, r, r - capital * mir, Balance(capital, mir, r, k), Pow(1.0 + mir, k))
  {
    if k > 0 {
      ShareInduction(capital, mir, r, k - 1);
      GeometricStep(mir, r, r - capital * mir, Balance(capital, mir, r, k - 1), Pow(1.0 + mir, k - 1),
                    Balance(capital, mir, r, k), Pow(1.0 + mir, k));
    }
  }

  /** One step of ShareInduction on plain numbers: left and q stand for the
      balance and the power after k - 1 months, b and pk after k. */
  lemma GeometricStep(mir: real, r: real, g: real, left: real, q: real, b: real, pk: real)
    requires GrownShare(mir, r, g, left, q)
    requires b == left - (r - left * mir) && pk == (1.0 + mir) * q
    ensures GrownShare(mir, r, g, b, pk)
  {
    var rep := r - left * mir;
    assert r - b * mir == rep * (1.0 + mir);
    assert g * pk == (g * q) * (1.0 + mir);
  }

  /** The closed form of the balance, multiplied through by mir so that it
      also holds for mir = 0:
      mir * B(k) == capital * mir * (1 + mir)^k - r * ((1 + mir)^k - 1). */
  lemma {:induction false} BalanceTimesRate(capital: real, mir: real, r: real, k: nat)
    ensures mir * Balance(capital, mir, r, k)
         == capital * mir * Pow(1.0 + mir, k) - r * (Pow(1.0 + mir, k) - 1.0)
  {
    RateInduction(capital, mir, r, k);
  }

  /** BalanceTimesRate by induction on k, stated through RatedBalance. */
  lemma {:induction false} RateInduction(capital: real, mir: real, r: real, k: nat)
    ensures RatedBalance(capital, mir, r, Balance(capital, mir, r, k), Pow(1.0 + mir, k))
  {
    if k > 0 {
      RateInduction(capital, mir, r, k - 1);
      RateStep(capital, mir, r, Balance(capital, mir, r, k - 1), Pow(1.0 + mir, k - 1),
               Balance(capital, mir, r, k), Pow(1.0 + mir, k));
    }
  }

  /** One step of RateInduction on plain numbers: left and q stand for the
      balance and the power after k - 1 months, b and pk after k. */
  lemma RateStep(c: real, mir: real, r: real, left: real, q: real, b: real, pk: real)
    requires RatedBalance(c, mir, r, left, q)
    requires b == left - (r - left * mir) && pk == (1.0 + mir) * q
    ensures RatedBalance(c, mir, r, b, pk)
  {
    assert mir * b == (1.0 + mir) * (mir * left) - mir * r;
    assert c * mir * pk == (1.0 + mir) * (c * mir * q);
    assert r * (pk - 1.0) == (1.0 + mir) * (r * (q - 1.0)) + mir * r;
  }

  /** The closed form of the balance after k months for a non-zero rate:
      B(k) == capital * (1 + mir)^k - r * ((1 + mir)^k - 1) / mir. */
  lemma BalanceClosedForm(capital: real, mir: real, r: real, k: nat)
    requires mir != 0.0
    ensures Balance(capital, mir, r, k)
         == capital * Pow(1.0 + mir, k) - r * (Pow(1.0 + mir, k) - 1.0) / mir
  {
    BalanceTimesRate(capital, mir, r, k);
    DivideThrough(mir, Balance(capital, mir, r, k), capital, Pow(1.0 + mir, k), r * (Pow(1.0 + mir, k) - 1.0));
  }

  /** If m * b == c * m * q - t for a non-zero m, then b == c * q - t / m. */
  lemma DivideThrough(m: real, b: real, c: real, q: real, t: real)
    requires m != 0.0 && m * b == c * m * q - t
    ensures b == c * q - t / m
  {
    var e := c * q - t / m;
    assert m * (t / m) == t;
    assert m * e == m * (c * q) - m * (t / m);
    CancelFactor(m, b, e);
  }

  /** Paying the formula's r for n months leaves exactly nothing owed. */
  lemma PaidOffAtTerm(capital: real, mir: real, n: nat)
    requires AnnuityDefined(mir, n)
    ensures Balance(capital, mir, AnnuityPayment(capital, mir, n), n) == 0.0
  {
    DefinedTerm(mir, n);
    var r := AnnuityPayment(capital, mir, n);
    BalanceTimesRate(capital, mir, r, n);
    assert mir * Balance(capital, mir, r, n) == 0.0;
  }

  /** For a positive loan and rate the payment exceeds the first month's
      interest, so it repays some principal from the first month on. */
  lemma PaymentExceedsFirstInterest(capital: real, mir: real, n: nat)
    requires capital > 0.0 && mir > 0.0 && AnnuityDefined(mir, n)
    ensures AnnuityPayment(capital, mir, n) > capital * mir
  {
    DefinedTerm(mir, n);
    PowAboveOne(1.0 + mir, n);
    var q := Pow(1.0 + mir, n);
    var r := AnnuityPayment(capital, mir, n);
    assert (r - capital * mir) * (q - 1.0) == capital * mir;
    assert capital * mir > 0.0;
  }

  /** Once the payment exceeds the first month's interest, every month repays
      a positive amount of principal. */
  lemma RepaymentPositive(capital: real, mir: real, r: real, k: nat)
    requires mir > -1.0 && r > capital * mir
    ensures r - Balance(capital, mir, r, k) * mir > 0.0
  {
    RepaymentGeometric(capital, mir, r, k);
    PowPositive(1.0 + mir, k);
  }

  /** With a positive loan and rate the balance stays non-negative throughout
      the term, and positive before its last month. */
  lemma {:induction false} BalanceNonNegative(capital: real, mir: real, n: nat, k: nat)
    requires capital > 0.0 && mir > 0.0 && AnnuityDefined(mir, n) && k <= n
    ensures Balance(capital, mir, AnnuityPayment(capital, mir, n), k) >= 0.0
    ensures k < n ==> Balance(capital, mir, AnnuityPayment(capital, mir, n), k) > 0.0
    decreases n - k
  {
    var r := AnnuityPayment(capital, mir, n);
    if k == n {
      PaidOffAtTerm(capital, mir, n);
    } else {
      BalanceNonNegative(capital, mir, n, k + 1);
      PaymentExceedsFirstInterest(capital, mir, n);
      RepaymentPositive(capital, mir, r, k);
    }
  }

  /** Month j of the annuity loop paying r: interest on the balance after j
      months, the rest of r repays principal, and the month closes on the
      balance after j + 1 months. */
  ghost predicate AnnuityMonth(capital: real, mir: real, r: real, j: nat,
                               repayment: real, interest: real, balance: real)
  {
    interest == Balance(capital, mir, r, j) * mir &&
    repayment == r - interest &&
    balance == Balance(capital, mir, r, j + 1)
  }

  /** The schedule the loop at app.py:28-44 builds for n months: every
      payment is r, month i's interest is charged on the balance after i
      months, the repayment is what is left of the payment, and the closing
      balance is the balance after i + 1 months. */
  ghost predicate IsAnnuitySchedule(s: Schedule, capital: real, mir: real, n: nat)
    requires AnnuityDefined(mir, n)
  {
    var r := AnnuityPayment(capital, mir, n);
    s.HasMonths(n) &&
    forall i :: 0 <= i < n ==>
      s.payment[i] == r &&
      AnnuityMonth(capital, mir, r, i, s.repayment[i], s.interest[i], s.balance[i])
  }

  /** Month i of an annuity schedule opens on the balance after i months. */
  lemma AnnuityOpening(s: Schedule, capital: real, mir: real, n: nat, i: nat)
    requires AnnuityDefined(mir, n) && IsAnnuitySchedule(s, capital, mir, n) && i < n
    ensures s.Opening(capital, i) == Balance(capital, mir, AnnuityPayment(capital, mir, n), i)
  {
    if i > 0 {
      assert s.balance[i - 1] == Balance(capital, mir, AnnuityPayment(capital, mir, n), i);
    }
  }

  /** Month i of an annuity schedule keeps the row relations. */
  lemma AnnuityRow(s: Schedule, capital: real, mir: real, n: nat, i: nat)
    requires AnnuityDefined(mir, n) && IsAnnuitySchedule(s, capital, mir, n) && i < n
    ensures s.interest[i] == s.Opening(capital, i) * mir
    ensures s.repayment[i] + s.interest[i] == s.payment[i]
    ensures s.balance[i] == s.Opening(capital, i) - s.repayment[i]
  {
    var r := AnnuityPayment(capital, mir, n);
    AnnuityOpening(s, capital, mir, n, i);
    var b := Balance(capital, mir, r, i);
    assert s.interest[i] == b * mir;
    assert s.repayment[i] == r - b * mir;
    assert s.balance[i] == Balance(capital, mir, r, i + 1);
    assert s.balance[i] == b - (r - b * mir);
  }

  /** Month i of an annuity schedule repays the first month's share grown by
      the factor (1 + mir)^i. */
  lemma AnnuityRowRepayment(s: Schedule, capital: real, mir: real, n: nat, i: nat)
    requires AnnuityDefined(mir, n) && IsAnnuitySchedule(s, capital, mir, n) && i < n
    ensures s.repayment[i] == (AnnuityPayment(capital, mir, n) - capital * mir) * Pow(1.0 + mir, i)
  {
    var r := AnnuityPayment(capital, mir, n);
    assert s.repayment[i] == r - Balance(capital, mir, r, i) * mir by {
      assert AnnuityMonth(capital, mir, r, i, s.repayment[i], s.interest[i], s.balance[i]);
    }
    RepaymentGeometric(capital, mir, r, i);
  }

  /** The annuity schedule keeps the row relations with the constant
      payment r, and its last balance is 0. */
  lemma AnnuityScheduleAmortizes(s: Schedule, capital: real, mir: real, n: nat)
    requires AnnuityDefined(mir, n) && IsAnnuitySchedule(s, capital, mir, n)
    ensures Amortizes(s, capital, mir)
    ensures forall i :: 0 <= i < n ==> s.payment[i] == AnnuityPayment(capital, mir, n)
    ensures n >= 1 && s.balance[n - 1] == 0.0
  {
    forall i | 0 <= i < n
      ensures s.interest[i] == s.Opening(capital, i) * mir
      ensures s.repayment[i] + s.interest[i] == s.payment[i]
      ensures s.balance[i] == s.Opening(capital, i) - s.repayment[i]
    {
      AnnuityRow(s, capital, mir, n, i);
    }
    AnnuityLastBalance(s, capital, mir, n);
  }

  /** The repayment share of the annuity schedule grows by the factor
      1 + mir each month from the first month's r - capital * mir. */
  lemma AnnuityRepaymentsGrow(s: Schedule, capital: real, mir: real, n: nat)
    requires AnnuityDefined(mir, n) && IsAnnuitySchedule(s, capital, mir, n)
    ensures forall i :: 0 <= i < n ==>
      s.repayment[i] == (AnnuityPayment(capital, mir, n) - capital * mir) * Pow(1.0 + mir, i)
  {
    forall i | 0 <= i < n
      ensures s.repayment[i] == (AnnuityPayment(capital, mir, n) - capital * mir) * Pow(1.0 + mir, i)
    {
      AnnuityRowRepayment(s, capital, mir, n, i);
    }
  }

  /** The annuity schedule closes its last month on a balance of 0. */
  lemma AnnuityLastBalance(s: Schedule, capital: real, mir: real, n: nat)
    requires AnnuityDefined(mir, n) && IsAnnuitySchedule(s, capital, mir, n)
    ensures n >= 1 && s.balance[n - 1] == 0.0
  {
    DefinedTerm(mir, n);
    PaidOffAtTerm(capital, mir, n);
    assert s.balance[n - 1] == Balance(capital, mir, AnnuityPayment(capital, mir, n), n);
  }

  /** For a positive loan and rate, month k of the term (k < n) repays
      principal, is charged positive interest, and closes on a balance that is
      not negative and lower than its opening balance; the next month's
      interest is lower. */
  lemma MonthShrinks(capital: real, mir: real, n: nat, k: nat)
    requires capital > 0.0 && mir > 0.0 && AnnuityDefined(mir, n) && k < n
    ensures var r := AnnuityPayment(capital, mir, n);
      var rep := r - Balance(capital, mir, r, k) * mir;
      rep > 0.0 && Balance(capital, mir, r, k) * mir > 0.0 &&
      Balance(capital, mir, r, k + 1) >= 0.0 &&
      Balance(capital, mir, r, k + 1) < Balance(capital, mir, r, k) &&
      Balance(capital, mir, r, k + 1) * mir < Balance(capital, mir, r, k) * mir
  {
    var r := AnnuityPayment(capital, mir, n);
    PaymentExceedsFirstInterest(capital, mir, n);
    RepaymentPositive(capital, mir, r, k);
    BalanceNonNegative(capital, mir, n, k);
    BalanceNonNegative(capital, mir, n, k + 1);
    var b := Balance(capital, mir, r, k);
    var rep := r - b * mir;
    assert b * mir > 0.0;
    assert Balance(capital, mir, r, k + 1) == b - rep;
    assert (b - rep) * mir == b * mir - rep * mir;
    assert rep * mir > 0.0;
  }

  /** Month i of the annuity schedule, positive loan and rate: it repays
      principal, is charged interest, and does not close below 0. */
  lemma AnnuityRowPositive(s: Schedule, capital: real, mir: real, n: nat, i: nat)
    requires capital > 0.0 && mir > 0.0
    requires AnnuityDefined(mir, n) && IsAnnuitySchedule(s, capital, mir, n) && i < n
    ensures s.repayment[i] > 0.0 && s.interest[i] > 0.0 && s.balance[i] >= 0.0
  {
    var r := AnnuityPayment(capital, mir, n);
    MonthShrinks(capital, mir, n, i);
    assert s.interest[i] == Balance(capital, mir, r, i) * mir;
    assert s.repayment[i] == r - Balance(capital, mir, r, i) * mir;
    assert s.balance[i] == Balance(capital, mir, r, i + 1);
  }

  /** Months i - 1 and i of the annuity schedule, positive loan and rate: the
      balance and the interest both fall. */
  lemma AnnuityRowFalls(s: Schedule, capital: real, mir: real, n: nat, i: nat)
    requires capital > 0.0 && mir > 0.0
    requires AnnuityDefined(mir, n) && IsAnnuitySchedule(s, capital, mir, n) && 0 < i < n
    ensures s.balance[i] < s.balance[i - 1] && s.interest[i] < s.interest[i - 1]
  {
    var r := AnnuityPayment(capital, mir, n);
    assert AnnuityMonth(capital, mir, r, i - 1, s.repayment[i - 1], s.interest[i - 1], s.balance[i - 1]);
    assert AnnuityMonth(capital, mir, r, i, s.repayment[i], s.interest[i], s.balance[i]);
    assert s.balance[i] < s.balance[i - 1] by {
      MonthShrinks(capital, mir, n, i);
    }
    assert s.interest[i] < s.interest[i - 1] by {
      MonthShrinks(capital, mir, n, i - 1);
    }
  }

  /** For a positive loan and rate, every month repays principal, the balance
      falls strictly and never goes below 0, and the interest falls strictly. */
  lemma AnnuityScheduleShrinks(s: Schedule, capital: real, mir: real, n: nat)
    requires capital > 0.0 && mir > 0.0
    requires AnnuityDefined(mir, n) && IsAnnuitySchedule(s, capital, mir, n)
    ensures forall i :: 0 <= i < n ==>
      s.repayment[i] > 0.0 && s.interest[i] > 0.0 && s.balance[i] >= 0.0
    ensures forall i :: 0 < i < n ==>
      s.balance[i] < s.balance[i - 1] && s.interest[i] < s.interest[i - 1]
  {
    forall i | 0 <= i < n
      ensures s.repayment[i] > 0.0 && s.interest[i] > 0.0 && s.balance[i] >= 0.0
      ensures i > 0 ==> s.balance[i] < s.balance[i - 1] && s.interest[i] < s.interest[i - 1]
    {
      AnnuityRowPositive(s, capital, mir, n, i);
      if i > 0 {
        AnnuityRowFalls(s, capital, mir, n, i);
      }
    }
  }

  /** The annuity's total expense is n times the constant payment. */
  lemma AnnuityTotal(s: Schedule, capital: real, mir: real, n: nat)
    requires AnnuityDefined(mir, n) && IsAnnuitySchedule(s, capital, mir, n)
    ensures TotalExpense(s) == n as real * AnnuityPayment(capital, mir, n)
  {
    SumConstant(s.payment, AnnuityPayment(capital, mir, n));
  }
}
