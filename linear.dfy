/** The linear ("IT") schedule of app.py:46-61: a constant repayment of
    principal, with interest charged on the balance still owed. */
module Linear {
  import opened RealMath
  import opened Schedules

  /** The constant monthly repayment p = capital / n of app.py:47; n of them
      give back the capital. */
  function Instalment(capital: real, n: nat): (p: real)
    requires n >= 1
    ensures n as real * p == capital
  {
    capital / n as real
  }

  /** The capital still owed after k months of the loop at app.py:51-53, in
      which every month repays p. */
  function LinearBalance(capital: real, p: real, k: nat): real
  {
    if k == 0 then capital else LinearBalance(capital, p, k - 1) - p
  }

  /** After k months the balance is capital - k * p. */
  lemma {:induction false} LinearBalanceClosedForm(capital: real, p: real, k: nat)
    ensures LinearBalance(capital, p, k) == capital - k as real * p
  {
    if k > 0 {
      LinearBalanceClosedForm(capital, p, k - 1);
    }
  }

  /** Month j of the linear loop repaying p: interest on the balance after j
      months, the payment is p plus that interest, and the month closes on
      the balance after j + 1 months. */
  ghost predicate LinearMonth(capital: real, mir: real, p: real, j: nat,
                              payment: real, interest: real, balance: real)
  {
    interest == LinearBalance(capital, p, j) * mir &&
    payment == p + interest &&
    balance == LinearBalance(capital, p, j + 1)
  }

  /** The schedule the loop at app.py:46-61 builds for n months: every
      repayment is p, month i's interest is charged on the balance after i
      months, the payment is p plus that interest, and the closing balance is
      the balance after i + 1 months. */
  ghost predicate IsLinearSchedule(s: Schedule, capital: real, mir: real, n: nat)
    requires n >= 1
  {
    var p := Instalment(capital, n);
    s.HasMonths(n) &&
    forall i :: 0 <= i < n ==>
      s.repayment[i] == p &&
      LinearMonth(capital, mir, p, i, s.payment[i], s.interest[i], s.balance[i])
  }

  /** Month i of a linear schedule: the row relations, and its interest and
      closing balance in closed form. */
  lemma LinearRow(s: Schedule, capital: real, mir: real, n: nat, i: nat)
    requires n >= 1 && IsLinearSchedule(s, capital, mir, n) && i < n
    ensures s.interest[i] == s.Opening(capital, i) * mir
    ensures s.repayment[i] + s.interest[i] == s.payment[i]
    ensures s.balance[i] == s.Opening(capital, i) - s.repayment[i]
    ensures s.interest[i] == (capital - i as real * Instalment(capital, n)) * mir
    ensures s.balance[i] == capital - (i + 1) as real * Instalment(capital, n)
  {
    var p := Instalment(capital, n);
    LinearBalanceClosedForm(capital, p, i);
    LinearBalanceClosedForm(capital, p, i + 1);
    assert s.balance[i] == LinearBalance(capital, p, i + 1);
    if i > 0 {
      assert s.balance[i - 1] == LinearBalance(capital, p, i);
    }
  }

  /** The linear schedule keeps the row relations with the constant
      repayment p = capital / n, and its last balance is 0. */
  lemma LinearScheduleAmortizes(s: Schedule, capital: real, mir: real, n: nat)
    requires n >= 1 && IsLinearSchedule(s, capital, mir, n)
    ensures Amortizes(s, capital, mir)
    ensures forall i :: 0 <= i < n ==> s.repayment[i] == Instalment(capital, n)
    ensures s.balance[n - 1] == 0.0
  {
    forall i | 0 <= i < n
      ensures s.interest[i] == s.Opening(capital, i) * mir
      ensures s.repayment[i] + s.interest[i] == s.payment[i]
      ensures s.balance[i] == s.Opening(capital, i) - s.repayment[i]
    {
      LinearRow(s, capital, mir, n, i);
    }
    LinearLastBalance(s, capital, mir, n);
  }

  /** The linear schedule closes its last month on a balance of 0. */
  lemma LinearLastBalance(s: Schedule, capital: real, mir: real, n: nat)
    requires n >= 1 && IsLinearSchedule(s, capital, mir, n)
    ensures s.balance[n - 1] == 0.0
  {
    var p := Instalment(capital, n);
    LinearBalanceClosedForm(capital, p, n);
    assert s.balance[n - 1] == LinearBalance(capital, p, n);
  }

  /** In month i of the linear schedule the interest is charged on
      capital - i * p and the month closes on capital - (i + 1) * p. */
  lemma LinearClosedForms(s: Schedule, capital: real, mir: real, n: nat)
    requires n >= 1 && IsLinearSchedule(s, capital, mir, n)
    ensures forall i :: 0 <= i < n ==>
      s.interest[i] == (capital - i as real * Instalment(capital, n)) * mir &&
      s.balance[i] == capital - (i + 1) as real * Instalment(capital, n)
  {
    forall i | 0 <= i < n
      ensures s.interest[i] == (capital - i as real * Instalment(capital, n)) * mir
      ensures s.balance[i] == capital - (i + 1) as real * Instalment(capital, n)
    {
      LinearRow(s, capital, mir, n, i);
    }
  }

  /** Month i of a linear schedule for a positive loan closes on a balance
      that is not negative and lower than its opening balance. */
  lemma LinearRowFalls(s: Schedule, capital: real, mir: real, n: nat, i: nat)
    requires capital > 0.0 && n >= 1 && IsLinearSchedule(s, capital, mir, n) && i < n
    ensures s.balance[i] >= 0.0 && s.balance[i] < s.Opening(capital, i)
  {
    var p := Instalment(capital, n);
    LinearRow(s, capital, mir, n, i);
    assert s.repayment[i] == p;
    assert p > 0.0;
    var a := (n - (i + 1)) as real;
    NonNegativeProduct(a, p);
    assert a * p == n as real * p - (i + 1) as real * p;
  }

  /** For a non-negative loan and rate, the payment of month i > 0 of a
      linear schedule is at most that of month i - 1: it is lower by p * mir. */
  lemma LinearRowPaymentFalls(s: Schedule, capital: real, mir: real, n: nat, i: nat)
    requires capital >= 0.0 && mir >= 0.0
    requires n >= 1 && IsLinearSchedule(s, capital, mir, n) && 0 < i < n
    ensures s.payment[i] <= s.payment[i - 1]
  {
    var p := Instalment(capital, n);
    LinearRow(s, capital, mir, n, i);
    LinearRow(s, capital, mir, n, i - 1);
    assert s.payment[i] == p + s.interest[i];
    assert s.payment[i - 1] == p + s.interest[i - 1];
    assert p >= 0.0;
    assert s.interest[i] == s.interest[i - 1] - p * mir;
    assert p * mir >= 0.0;
  }

  /** The payments of a linear schedule at a non-negative rate never rise:
      month i pays at most what month 0 paid. */
  lemma {:induction false} LinearPaymentsFall(s: Schedule, capital: real, mir: real, n: nat, i: nat)
    requires capital >= 0.0 && mir >= 0.0 && n >= 1 && IsLinearSchedule(s, capital, mir, n) && i < n
    ensures s.payment[i] <= s.payment[0]
  {
    if i > 0 {
      LinearPaymentsFall(s, capital, mir, n, i - 1);
      LinearRowPaymentFalls(s, capital, mir, n, i);
    }
  }

  /** Month i of a linear schedule for a positive loan at a non-negative
      rate charges interest that is not negative and pays a positive amount. */
  lemma LinearRowNonNegative(s: Schedule, capital: real, mir: real, n: nat, i: nat)
    requires capital > 0.0 && mir >= 0.0 && n >= 1 && IsLinearSchedule(s, capital, mir, n) && i < n
    ensures s.interest[i] >= 0.0 && s.payment[i] > 0.0
  {
    LinearRow(s, capital, mir, n, i);
    assert s.Opening(capital, i) >= 0.0 by {
      if i > 0 {
        LinearRowFalls(s, capital, mir, n, i - 1);
      }
    }
    NonNegativeProduct(s.Opening(capital, i), mir);
    assert s.repayment[i] == Instalment(capital, n);
    assert Instalment(capital, n) > 0.0;
  }

  /** Shape of the linear schedule: for a positive loan the balance falls
      strictly and never below 0; for a positive loan at a non-negative rate
      no interest is negative and every payment is positive; for a
      non-negative loan and rate the payments never rise; at a zero rate no
      interest is charged and every payment is p. */
  lemma LinearScheduleShape(s: Schedule, capital: real, mir: real, n: nat)
    requires n >= 1 && IsLinearSchedule(s, capital, mir, n)
    ensures capital > 0.0 ==> forall i :: 0 <= i < n ==>
      s.balance[i] >= 0.0 && s.balance[i] < s.Opening(capital, i)
    ensures capital > 0.0 && mir >= 0.0 ==> forall i :: 0 <= i < n ==>
      s.interest[i] >= 0.0 && s.payment[i] > 0.0
    ensures capital >= 0.0 && mir >= 0.0 ==> forall i :: 0 < i < n ==>
      s.payment[i] <= s.payment[i - 1]
    ensures mir == 0.0 ==> forall i :: 0 <= i < n ==>
      s.interest[i] == 0.0 && s.payment[i] == Instalment(capital, n)
  {
    if capital > 0.0 {
      forall i | 0 <= i < n
        ensures s.balance[i] >= 0.0 && s.balance[i] < s.Opening(capital, i)
      {
        LinearRowFalls(s, capital, mir, n, i);
      }
    }
    if capital > 0.0 && mir >= 0.0 {
      forall i | 0 <= i < n
        ensures s.interest[i] >= 0.0 && s.payment[i] > 0.0
      {
        LinearRowNonNegative(s, capital, mir, n, i);
      }
    }
    if capital >= 0.0 && mir >= 0.0 {
      forall i | 0 < i < n
        ensures s.payment[i] <= s.payment[i - 1]
      {
        LinearRowPaymentFalls(s, capital, mir, n, i);
      }
    }
  }

  /** total == mir * (j * c - p * j * (j - 1) / 2): the interest of the
      first j months of a linear schedule. */
  ghost predicate InterestSoFar(c: real, mir: real, p: real, j: real, total: real)
  {
    total == mir * (j * c - p * (j * (j - 1.0) / 2.0))
  }

  /** The interest the linear loop charges in its first k months. */
  function InterestUpTo(capital: real, mir: real, p: real, k: nat): real
  {
    if k == 0 then 0.0 else InterestUpTo(capital, mir, p, k - 1) + LinearBalance(capital, p, k - 1) * mir
  }

  /** The interest of the first k months of a linear schedule sums to
      mir * (k * capital - p * k * (k - 1) / 2). */
  lemma {:induction false} LinearInterestPrefix(s: Schedule, capital: real, mir: real, n: nat, k: nat)
    requires n >= 1 && IsLinearSchedule(s, capital, mir, n) && k <= n
    ensures Sum(s.interest[..k])
         == mir * (k as real * capital - Instalment(capital, n) * (k as real * (k as real - 1.0) / 2.0))
  {
    PrefixInduction(s, capital, mir, n, k);
    InterestUpToClosedForm(capital, mir, Instalment(capital, n), k);
  }

  /** The stored interest of the first k months is InterestUpTo. */
  lemma {:induction false} PrefixInduction(s: Schedule, capital: real, mir: real, n: nat, k: nat)
    requires n >= 1 && IsLinearSchedule(s, capital, mir, n) && k <= n
    ensures Sum(s.interest[..k]) == InterestUpTo(capital, mir, Instalment(capital, n), k)
  {
    if k > 0 {
      var p := Instalment(capital, n);
      PrefixInduction(s, capital, mir, n, k - 1);
      SumSnoc(s.interest, k);
      assert LinearMonth(capital, mir, p, k - 1, s.payment[k - 1], s.interest[k - 1], s.balance[k - 1]);
    }
  }

  /** InterestUpTo in closed form, by induction on k. */
  lemma {:induction false} InterestUpToClosedForm(capital: real, mir: real, p: real, k: nat)
    ensures InterestSoFar(capital, mir, p, k as real, InterestUpTo(capital, mir, p, k))
  {
    if k > 0 {
      InterestUpToClosedForm(capital, mir, p, k - 1);
      LinearBalanceClosedForm(capital, p, k - 1);
      PrefixStep(capital, mir, p, (k - 1) as real, k as real, InterestUpTo(capital, mir, p, k - 1),
                 LinearBalance(capital, p, k - 1) * mir, InterestUpTo(capital, mir, p, k));
    }
  }

  /** One step of InterestUpToClosedForm on plain numbers: j months sum to total,
      month j adds x, and i = j + 1 months sum to next. */
  lemma PrefixStep(c: real, mir: real, p: real, j: real, i: real, total: real, x: real, next: real)
    requires InterestSoFar(c, mir, p, j, total)
    requires x == (c - j * p) * mir && next == total + x && i == j + 1.0
    ensures InterestSoFar(c, mir, p, i, next)
  {
    assert i * (i - 1.0) / 2.0 == j * (j - 1.0) / 2.0 + j;
    assert i * c - p * (i * (i - 1.0) / 2.0) == (j * c - p * (j * (j - 1.0) / 2.0)) + (c - j * p);
  }

  /** The interest of the whole linear schedule sums to
      capital * mir * (n + 1) / 2. */
  lemma LinearInterestTotal(s: Schedule, capital: real, mir: real, n: nat)
    requires n >= 1 && IsLinearSchedule(s, capital, mir, n)
    ensures Sum(s.interest) == capital * mir * (n as real + 1.0) / 2.0
  {
    var p := Instalment(capital, n);
    LinearInterestPrefix(s, capital, mir, n, n);
    assert s.interest[..n] == s.interest;
    TotalInterestForm(capital, mir, p, n as real);
  }

  /** With n * p == c: mir * (n * c - p * n * (n - 1) / 2) == c * mir * (n + 1) / 2. */
  lemma TotalInterestForm(c: real, mir: real, p: real, n: real)
    requires n * p == c
    ensures mir * (n * c - p * (n * (n - 1.0) / 2.0)) == c * mir * (n + 1.0) / 2.0
  {
    assert p * (n * (n - 1.0) / 2.0) == (n * p) * (n - 1.0) / 2.0;
  }

  /** The linear schedule's total expense is the capital plus all interest:
      capital * (1 + mir * (n + 1) / 2). */
  lemma LinearTotal(s: Schedule, capital: real, mir: real, n: nat)
    requires n >= 1 && IsLinearSchedule(s, capital, mir, n)
    ensures TotalExpense(s) == capital + Sum(s.interest)
    ensures TotalExpense(s) == capital + capital * mir * (n as real + 1.0) / 2.0
  {
    var p := Instalment(capital, n);
    SumShifted(s.payment, s.interest, p);
    LinearInterestTotal(s, capital, mir, n);
  }
}
