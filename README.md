# Mortgage simulator: the amortization engine

The simulator compares two ways of repaying a loan of `capital` at a yearly
rate `ir` (a fraction) over `years` years. The term is `n = years * 12` months
and the monthly rate is `mir = ir / 12`. `visualize_mortgages` (app.py:23-73)
builds the schedules below and passes them to the charts.

- **Annuity ("FR")**: a constant payment
  `r = capital * mir / (1 - 1 / (1 + mir)^n)`. Each month the interest on the
  balance is charged, and the rest of `r` repays principal.
- **Linear ("IT")**: a constant principal repayment `p = capital / n`. Each
  month the interest on the balance before that repayment is added to it.

For each schedule it also computes the total expense, which is the sum of the
payment series. It computes one y-axis ceiling shared by both charts:
`(int(first / 100) + 1) * 100`, where `first` is the linear schedule's first
payment.

The model is written over exact `real` arithmetic. It has six modules:

- `RealMath`: natural powers, sums of series, and Python's truncating `int()`.
- `Schedules`: the four monthly series R, P, I and C, and the row relations both
  loops keep.
- `Annuity`: the annuity schedule as specification functions and predicates,
  with its closed forms, pay-off, monotonicity and total.
- `Linear`: the same for the linear schedule.
- `Costs`: compares the two schedules.
- `Simulator`: the two `for i in range(n)` loops as methods with loop
  invariants, the axis ceiling, and `visualize_mortgages` itself.

The preconditions exclude exactly the inputs on which the Python code raises
a `ZeroDivisionError`:

- `years >= 1`. With `years = 0` the term is 0 months, `(1 + mir)**0` is 1,
  and the annuity formula at line 29 divides by zero. Line 47 is never
  reached.
- `(1 + mir)^n` must be neither 0 nor 1 (`Annuity.AnnuityDefined`). Otherwise
  the formula at line 29 divides by zero. This happens for a zero rate, for
  `mir = -1`, and for any other rate with `(1 + mir)^n == 1`.

The code does not check for negative, zero or missing inputs and has no
fallback for a zero rate. The model admits every input that does not raise.

The shared ceiling is taken from the linear schedule's first payment only.
For a non-negative loan at a positive rate, that payment is also the larger
of the two first-month payments (`Costs.AnnuityBelowFirstLinear`), so both
charts fit under the ceiling (`Simulator.CeilingAboveEveryPayment`).

## Model

| member | source | states |
|---|---|---|
| Annuity.AnnuityPayment | app.py:29 | the payment r satisfies r * ((1+mir)^n - 1) == capital * mir * (1+mir)^n, which is the equation for clearing the loan in n months |
| Annuity.DefinedTerm | app.py:24-29 | if the formula at line 29 does not divide by zero, then n >= 1 and mir != 0 |
| Annuity.PositiveRateDefined | app.py:29 | every positive rate over at least one month gives a defined payment |
| Annuity.RepaymentGeometric | app.py:33-36 | the principal repaid in month k is (r - capital*mir) * (1+mir)^k |
| Annuity.BalanceTimesRate | app.py:32-36 | mir * B(k) == capital*mir*(1+mir)^k - r*((1+mir)^k - 1), for every rate |
| Annuity.BalanceClosedForm | app.py:32-36 | for mir != 0, B(k) == capital*(1+mir)^k - r*((1+mir)^k - 1)/mir |
| Annuity.PaidOffAtTerm | app.py:29-36 | paying the formula's r for n months leaves a balance of exactly 0 |
| Annuity.PaymentExceedsFirstInterest | app.py:29-34 | for a positive loan and rate, r exceeds the first month's interest capital*mir |
| Annuity.RepaymentPositive | app.py:33-35 | if r exceeds the first interest and mir > -1, the principal repaid is positive every month |
| Annuity.BalanceNonNegative | app.py:29-36 | for a positive loan and rate, the balance is >= 0 throughout the term and > 0 before its end |
| Annuity.AnnuityOpening | app.py:32-40 | month i of the annuity schedule opens on the balance after i months |
| Annuity.AnnuityRow | app.py:33-40 | month i keeps the row relations: interest on the opening balance, repayment + interest == payment, balance drops by the repayment |
| Annuity.AnnuityRowRepayment | app.py:33-38 | the repayment stored in month i is (r - capital*mir)*(1+mir)^i |
| Annuity.AnnuityScheduleAmortizes | app.py:28-44 | the annuity schedule keeps the row relations every month, every payment is r, and the last balance is 0 |
| Annuity.AnnuityRepaymentsGrow | app.py:30-38 | the stored repayments grow by the factor 1+mir each month |
| Annuity.AnnuityLastBalance | app.py:29-40 | the annuity schedule's last closing balance is 0 |
| Annuity.MonthShrinks | app.py:29-36 | for a positive loan and rate, month k repays principal, charges positive interest, and closes >= 0 and below its opening balance, and the next month's interest is lower |
| Annuity.AnnuityRowPositive | app.py:33-40 | for a positive loan and rate, the stored repayment and interest are positive and the balance is >= 0 |
| Annuity.AnnuityRowFalls | app.py:33-40 | for a positive loan and rate, the balance and the interest both fall from month i-1 to month i |
| Annuity.AnnuityScheduleShrinks | app.py:29-40 | for a positive loan and rate, over the whole schedule the repayments are positive, the balance falls strictly and stays >= 0, and the interest falls strictly |
| Annuity.AnnuityTotal | app.py:73 | the annuity's total expense is n * r |
| Linear.Instalment | app.py:47 | the repayment p satisfies n * p == capital |
| Linear.LinearBalanceClosedForm | app.py:51-53 | the linear balance after k months is capital - k*p |
| Linear.LinearRow | app.py:51-57 | month i keeps the row relations; its interest is (capital - i*p)*mir and it closes on capital - (i+1)*p |
| Linear.LinearScheduleAmortizes | app.py:46-61 | the linear schedule keeps the row relations every month, every repayment is capital/n, and the last balance is 0 |
| Linear.LinearLastBalance | app.py:47-57 | the linear schedule's last closing balance is 0 |
| Linear.LinearClosedForms | app.py:51-57 | every month's interest and closing balance, in closed form |
| Linear.LinearRowFalls | app.py:51-57 | for a positive loan, every closing balance is >= 0 and below its opening balance |
| Linear.LinearRowPaymentFalls | app.py:51-55 | for a non-negative loan and rate, each payment is at most the previous one |
| Linear.LinearPaymentsFall | app.py:51-55 | for a non-negative loan and rate, no payment exceeds the first |
| Linear.LinearRowNonNegative | app.py:51-56 | for a positive loan at a non-negative rate, month i's interest is >= 0 and its payment is > 0 |
| Linear.LinearScheduleShape | app.py:51-57 | for a positive loan the balance falls strictly and stays >= 0; for a positive loan at a non-negative rate every interest is >= 0 and every payment > 0; for a non-negative loan and rate the payments never rise; at a zero rate there is no interest and every payment is p |
| Linear.PrefixInduction | app.py:52-56 | the stored interest of the first k months sums to the interest the loop charges on balances 0 to k-1 |
| Linear.InterestUpToClosedForm | app.py:51-53 | the interest charged on balances 0 to k-1 is mir*(k*capital - p*k*(k-1)/2) |
| Linear.LinearInterestPrefix | app.py:52-56 | the interest of the first k months sums to mir*(k*capital - p*k*(k-1)/2) |
| Linear.LinearInterestTotal | app.py:52-56 | all the interest sums to capital*mir*(n+1)/2 |
| Linear.LinearTotal | app.py:73 | the linear total expense is capital + the sum of interests, which is capital + capital*mir*(n+1)/2 |
| Costs.PowTimesDeficit | app.py:29 | (1+m)^k * (1 - k*m) <= 1 for m > -1 |
| Costs.AnnuityOutweighsLinear | app.py:29 | for m > 0, 2*k*m*(1+m)^k >= (2 + m*(k+1))*((1+m)^k - 1) |
| Costs.ScaledComparison | app.py:29 | the scaled form of the cost comparison: n*r >= c + c*m*(n+1)/2 |
| Costs.AnnuityCostsAtLeastLinear | app.py:29 | for a positive loan and rate, n*r >= capital + capital*mir*(n+1)/2 |
| Costs.LinearNoDearerThanAnnuity | app.py:73 | for a positive loan and rate, the linear total expense is at most the annuity's |
| Costs.FirstPaymentBound | app.py:29 | the scaled form of the first-payment comparison: r <= p + c*m |
| Costs.AnnuityBelowFirstLinear | app.py:29-55 | for a non-negative loan at a positive rate, r <= capital/n + capital*mir |
| RealMath.Bernoulli | app.py:29 | (1+m)^k >= 1 + k*m for m >= -1 |
| RealMath.SumConstant | app.py:73 | a series of n copies of c sums to n*c |
| RealMath.SumShifted | app.py:73 | adding c to every term of a series adds its length times c to the sum |
| RealMath.Truncate | app.py:66 | Python's int(): truncates toward zero, so t <= x < t+1 for x >= 0 and t-1 < x <= t for x < 0 |
| Simulator.AnnuityLoop | app.py:32-40 | the loop yields n interests, repayments and balances, with month j matching B(j)*mir, r - B(j)*mir and B(j+1), where B is the balance after j months of paying r |
| Simulator.BuildAnnuity | app.py:28-44 | builds exactly the annuity schedule of n months |
| Simulator.BuildLinear | app.py:46-61 | builds exactly the linear schedule of n months |
| Simulator.LinearLoop | app.py:50-57 | the loop yields n payments, interests and balances, with month j matching p + L(j)*mir, L(j)*mir and L(j+1), where L(j) is the balance after j repayments of p |
| Simulator.AxisCeiling | app.py:66 | the ceiling is a multiple of 100 strictly above the first payment; it is at most 100 above a non-negative payment and less than 200 above a negative one |
| Simulator.VisualizeMortgages | app.py:23-73 | with n = years*12 and mir = ir/12, returns both schedules, the ceiling taken from the first linear month's interest + repayment, and each schedule's total expense |
| Simulator.ReportedFigures | app.py:23-73 | both returned schedules amortize and end on 0; the totals are n*r and capital + capital*mir*(n+1)/2; for a positive loan and rate the linear total is at most the annuity's |
| Simulator.ReportedCeiling | app.py:66 | the ceiling rests on the first linear payment, which is capital/n + capital*mir |
| Simulator.CeilingAboveEveryPayment | app.py:66-85 | for a non-negative loan at a positive rate, the first linear payment is the larger of the two first-month payments, and the ceiling lies above every monthly payment of both schedules |

## Left out

- The Dash application, its layout and widgets (app.py:10-17, app.py:91-150) are user interface only.
- The `update_output` callback (app.py:154-165) is glue. Its one relevant step, dividing the percentage by 100, is taken as the input convention: `ir` is already a fraction.
- The pandas merge and the Month column (app.py:64-65) only reshape series that are already computed. The model keeps the two schedules side by side in `Figures`.
- Building the plotly figures, their labels and the formatted title strings (app.py:69-89) are rendering calls into a library that is not modelled. The total expense and the ceiling they display are modelled.
- IEEE floating-point rounding is left out. All arithmetic is exact `real`, so residuals such as a last balance of 1e-9 instead of 0 are not modelled.
- The unused imports (app.py:1-3) and the server entry point (app.py:167-168) are not modelled.
- The `ZeroDivisionError` that app.py:29 raises for `years = 0`, a zero rate, `mir = -1` or any other rate with `(1 + mir)^n == 1` is not modelled as an error result. The requires of `Simulator.VisualizeMortgages`, `Simulator.BuildAnnuity` and `Simulator.BuildLinear` exclude those inputs instead.
- `years` is a `nat`. With a negative or non-integer term, `np.ones(n)` at app.py:30 raises a ValueError or a TypeError before the loop at line 33 runs. The model does not represent those inputs.
