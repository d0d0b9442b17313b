/** The monthly series of one mortgage schedule, as the dictionary `M[k]` of
    app.py holds them, and the row relations both schedules share. */
module Schedules {
  import opened RealMath

  /** One schedule. Month i (counted from 0) is index i of every series:
      `payment` is column R (the total paid that month), `repayment` column P
      (the principal repaid), `interest` column I, and `balance` column C (the
      capital still owed after that month). */
  datatype Schedule = Schedule(
    payment: seq<real>,
    repayment: seq<real>,
    interest: seq<real>,
    balance: seq<real>)
  {
    /** Every series has exactly one entry per month of the term. */
    predicate HasMonths(n: nat)
    {
      |payment| == n && |repayment| == n && |interest| == n && |balance| == n
    }

    /** The capital owed at the start of month i: the loan itself in month 0,
        otherwise the previous month's closing balance. */
    function Opening(capital: real, i: nat): real
      requires i <= |balance|
    {
      if i == 0 then capital else balance[i - 1]
    }
  }

  /** The row relations of both loops of app.py: interest is charged on the
      balance owed before the month's repayment, the payment is repayment plus
      interest, and the balance drops by exactly the repayment. */
  ghost predicate Amortizes(s: Schedule, capital: real, mir: real)
  {
    s.HasMonths(|s.balance|) &&
    forall i :: 0 <= i < |s.balance| ==>
      s.interest[i] == s.Opening(capital, i) * mir &&
      s.repayment[i] + s.interest[i] == s.payment[i] &&
      s.balance[i] == s.Opening(capital, i) - s.repayment[i]
  }

  /** What the schedule costs in all: the sum of its payment series. */
  function TotalExpense(s: Schedule): real
  {
    Sum(s.payment)
  }
}
