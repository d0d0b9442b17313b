/** The computation inside visualize_mortgages (app.py:23-73): the two
    schedule loops, the shared y-axis ceiling of the charts and the total
    expense of each schedule. The rate `ir` is a fraction (the caller has
    already divided the percentage by 100) and the monthly rate is ir / 12. */
module Simulator {
  import opened RealMath
  import opened Schedules
  import opened Annuity
  import opened Linear
  import opened Costs

  /** The annuity schedule of app.py:28-44: the constant payment r of line
      29 fills the payment series, and the loop fills the other three. */
  method BuildAnnuity(capital: real, mir: real, n: nat) returns (s: Schedule)
    requires AnnuityDefined(mir, n)
    ensures IsAnnuitySchedule(s, capital, mir, n)
  {
    var r := AnnuityPayment(capital, mir, n);
    var payments := seq(n, _ => r);
    var repayments, interests, balances := AnnuityLoop(capital, mir, r, n);
    s := Schedule(payments, repayments, interests, balances);
  }

  /** The loop of app.py:32-40 for a given payment r: each month the
      interest on what is still owed is charged and the rest of r repays
      capital. */
  method AnnuityLoop(capital: real, mir: real, r: real, n: nat)
    returns (repayments: seq<real>, interests: seq<real>, balances: seq<real>)
    ensures |repayments| == n && |interests| == n && |balances| == n
    ensures forall j :: 0 <= j < n ==>
      AnnuityMonth(capital, mir, r, j, repayments[j], interests[j], balances[j])
  {
    repayments, interests, balances := [], [], [];
    var left := capital;
    for i := 0 to n
      invariant |repayments| == i && |interests| == i && |balances| == i
      invariant left == Balance(capital, mir, r, i)
      invariant forall j :: 0 <= j < i ==>
        AnnuityMonth(capital, mir, r, j, repayments[j], interests[j], balances[j])
    {
      var interest := left * mir;
      var repayment := r - interest;
      left := left - repayment;
      assert AnnuityMonth(capital, mir, r, i, repayment, interest, left);
      repayments := repayments + [repayment];
      interests := interests + [interest];
      balances := balances + [left];
    }
  }

  /** The linear schedule of app.py:46-61: the constant repayment
      p = capital / n of line 47 fills the repayment series, and the loop
      fills the other three. */
  method BuildLinear(capital: real, mir: real, n: nat) returns (s: Schedule)
    requires n >= 1
    ensures IsLinearSchedule(s, capital, mir, n)
  {
    var p := Instalment(capital, n);
    var repayments := seq(n, _ => p);
    var payments, interests, balances := LinearLoop(capital, mir, p, n);
    s := Schedule(payments, repayments, interests, balances);
  }

  /** The loop of app.py:51-57 for a given repayment p: each month the
      interest on what is still owed is charged, then p is repaid. */
  method LinearLoop(capital: real, mir: real, p: real, n: nat)
    returns (payments: seq<real>, interests: seq<real>, balances: seq<real>)
    ensures |payments| == n && |interests| == n && |balances| == n
    ensures forall j :: 0 <= j < n ==>
      LinearMonth(capital, mir, p, j, payments[j], interests[j], balances[j])
  {
    payments, interests, balances := [], [], [];
    var left := capital;
    for i := 0 to n
      invariant |payments| == i && |interests| == i && |balances| == i
      invariant left == LinearBalance(capital, p, i)
      invariant forall j :: 0 <= j < i ==>
        LinearMonth(capital, mir, p, j, payments[j], interests[j], balances[j])
    {
      var interest := left * mir;
      left := left - p;
      assert LinearMonth(capital, mir, p, i, p + interest, interest, left);
      payments := payments + [p + interest];
      interests := interests + [interest];
      balances := balances + [left];
    }
  }

  /** The y-axis ceiling of app.py:66: `(int(first / 100) + 1) * 100`, with
      Python's truncation toward zero. It is a multiple of 100 strictly above
      the first payment; for a payment that is not negative it is the least
      such multiple. */
  function AxisCeiling(first: real): (m: int)
    ensures m % 100 == 0
    ensures m as real > first
    ensures first >= 0.0 ==> m as real <= first + 100.0
    ensures first < 0.0 ==> m as real < first + 200.0
  {
    (Truncate(first / 100.0) + 1) * 100
  }

  /** What visualize_mortgages computes before it draws: both schedules,
      the shared y-axis ceiling and each schedule's total expense. */
  datatype Figures = Figures(
    annuity: Schedule,
    linear: Schedule,
    yMax: int,
    annuityTotal: real,
    linearTotal: real)

  /** What visualize_mortgages hands to the charts for a loan of capital at
      monthly rate mir over n months: the two schedules, the y-axis ceiling
      taken from the linear schedule's first payment (its largest when the
      loan and the rate are not negative), and the total expense of each
      schedule. */
  ghost predicate Reports(f: Figures, capital: real, mir: real, n: nat)
    requires n >= 1 && AnnuityDefined(mir, n)
  {
    IsAnnuitySchedule(f.annuity, capital, mir, n) &&
    IsLinearSchedule(f.linear, capital, mir, n) &&
    f.yMax == AxisCeiling(f.linear.interest[0] + f.linear.repayment[0]) &&
    f.annuityTotal == TotalExpense(f.annuity) &&
    f.linearTotal == TotalExpense(f.linear)
  }

  /** visualize_mortgages(capital, ir, years), app.py:23-73, up to the
      figures it hands to the charting library. */
  method VisualizeMortgages(capital: real, ir: real, years: nat) returns (f: Figures)
    requires years >= 1 && AnnuityDefined(ir / 12.0, years * 12)
    ensures Reports(f, capital, ir / 12.0, years * 12)
  {
    var n := years * 12;
    var mir := ir / 12.0;
    var annuity := BuildAnnuity(capital, mir, n);
    var linear := BuildLinear(capital, mir, n);
    var yMax := AxisCeiling(linear.interest[0] + linear.repayment[0]);
    f := Figures(annuity, linear, yMax, TotalExpense(annuity), TotalExpense(linear));
  }

  /** What the figures show: both schedules keep the row relations and end
      on a balance of 0, the annuity costs n * r, the linear schedule the
      capital plus capital * mir * (n + 1) / 2, and for a positive loan and
      rate the linear schedule is never dearer. */
  lemma ReportedFigures(f: Figures, capital: real, mir: real, n: nat)
    requires n >= 1 && AnnuityDefined(mir, n) && Reports(f, capital, mir, n)
    ensures Amortizes(f.annuity, capital, mir) && Amortizes(f.linear, capital, mir)
    ensures f.annuity.balance[n - 1] == 0.0 && f.linear.balance[n - 1] == 0.0
    ensures f.annuityTotal == n as real * AnnuityPayment(capital, mir, n)
    ensures f.linearTotal == capital + capital * mir * (n as real + 1.0) / 2.0
    ensures capital > 0.0 && mir > 0.0 ==> f.linearTotal <= f.annuityTotal
  {
    AnnuityScheduleAmortizes(f.annuity, capital, mir, n);
    LinearScheduleAmortizes(f.linear, capital, mir, n);
    AnnuityTotal(f.annuity, capital, mir, n);
    LinearTotal(f.linear, capital, mir, n);
    if capital > 0.0 && mir > 0.0 {
      LinearNoDearerThanAnnuity(f.annuity, f.linear, capital, mir, n);
    }
  }

  /** The axis ceiling rests on the linear schedule's first payment, which
      is the instalment p plus the interest capital * mir on the whole loan. */
  lemma ReportedCeiling(f: Figures, capital: real, mir: real, n: nat)
    requires n >= 1 && AnnuityDefined(mir, n) && Reports(f, capital, mir, n)
    ensures f.yMax == AxisCeiling(f.linear.payment[0])
    ensures f.linear.payment[0] == Instalment(capital, n) + capital * mir
  {
    LinearRow(f.linear, capital, mir, n, 0);
  }

  /** For a non-negative loan at a positive rate the first linear payment is
      the larger of the two first-month payments, so the ceiling lies above
      every monthly payment of both charts. */
  lemma CeilingAboveEveryPayment(f: Figures, capital: real, mir: real, n: nat)
    requires capital >= 0.0 && mir > 0.0 && n >= 1
    requires AnnuityDefined(mir, n) && Reports(f, capital, mir, n)
    ensures f.annuity.payment[0] <= f.linear.payment[0]
    ensures forall i :: 0 <= i < n ==> f.annuity.payment[i] < f.yMax as real
    ensures forall i :: 0 <= i < n ==> f.linear.payment[i] < f.yMax as real
  {
    ReportedCeiling(f, capital, mir, n);
    AnnuityBelowFirstLinear(capital, mir, n);
    AnnuityScheduleAmortizes(f.annuity, capital, mir, n);
    forall i | 0 <= i < n
      ensures f.linear.payment[i] <= f.linear.payment[0]
    {
      LinearPaymentsFall(f.linear, capital, mir, n, i);
    }
  }
}
