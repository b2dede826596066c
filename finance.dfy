/** The loan solver and amortizer `calculateLoan` (utils/finance.ts).

    Given a price, a down payment, an APR and a term, the solver derives the
    unknown side of the annuity (the monthly payment in balloon mode, the
    residual in installment mode), clamps the residual at zero for display,
    and then amortizes month by month.  Arithmetic is exact: there is no
    IEEE rounding, no NaN and no infinity, so the divisions of the source
    are guarded by preconditions instead. */
module Finance {
  import opened LoanTypes
  import opened RealAlgebra

  // ---------------------------------------------------------------------
  // Arithmetic building blocks
  // ---------------------------------------------------------------------

  /** `Math.max(0, x)`. */
  function Max0(x: real): (m: real)
    ensures m >= 0.0 && m >= x
    ensures m == x || m == 0.0
  {
    if x > 0.0 then x else 0.0
  }

  /** The monthly rate of a nominal annual percentage rate. */
  function MonthlyRate(apr: real): (r: real)
    ensures r * 1200.0 == apr
    ensures r == 0.0 <==> apr == 0.0
  {
    apr / 100.0 / 12.0
  }

  /** `Math.pow(x, n)` for a whole exponent. */
  function Pow(x: real, n: nat): real
  {
    if n == 0 then 1.0 else x * Pow(x, n - 1)
  }

  /** `Math.pow(1 + monthlyRate, n)`: what one unit grows to over n months. */
  function Growth(r: real, n: nat): real
  {
    Pow(1.0 + r, n)
  }

  /** The annuity factor 1 + x + x^2 + ... + x^(n-1) with x = 1 + r: how much
      of a balance n payments of 1 retire, measured at the end of the term. */
  function Annuity(r: real, n: nat): real
  {
    if n == 0 then 0.0 else Annuity(r, n - 1) * (1.0 + r) + 1.0
  }

  lemma {:induction false} PowAboveOne(x: real, n: nat)
    requires x > 1.0 && n >= 1
    ensures Pow(x, n) > 1.0
    decreases n
  {
    if n > 1 {
      PowAboveOne(x, n - 1);
      ProductAboveOne(x, Pow(x, n - 1));
    }
  }

  /** The geometric-sum identity behind the comment at line 36:
      ((1+r)^n - 1) / r is the annuity factor. */
  lemma {:induction false} AnnuityTimesRate(r: real, n: nat)
    ensures Annuity(r, n) * r == Growth(r, n) - 1.0
    decreases n
  {
    if n > 0 {
      AnnuityTimesRate(r, n - 1);
      GeometricStep(Annuity(r, n - 1), Growth(r, n - 1), r);
    }
  }

  /** At a zero rate nothing grows: the annuity factor is the month count. */
  lemma {:induction false} ZeroRateFactors(r: real, n: nat)
    requires r == 0.0
    ensures Growth(r, n) == 1.0
    ensures Annuity(r, n) == n as real
    decreases n
  {
    if n > 0 {
      ZeroRateFactors(r, n - 1);
    }
  }

  // ---------------------------------------------------------------------
  // The term
  // ---------------------------------------------------------------------

  /** The term is a positive whole number of months. */
  predicate IsWholeTerm(t: real)
  {
    1.0 <= t && t.Floor as real == t
  }

  function Term(inputs: LoanInputs): (n: nat)
    requires IsWholeTerm(inputs.termMonths)
    ensures n >= 1 && n as real == inputs.termMonths
  {
    inputs.termMonths.Floor
  }

  // ---------------------------------------------------------------------
  // Solving for the unknown side (lines 20-39)
  // ---------------------------------------------------------------------

  /** The balloon-mode division at line 27 is defined: either the zero-rate
      branch runs, or the growth factor differs from 1. */
  predicate Solvable(r: real, n: nat)
  {
    r == 0.0 || Growth(r, n) != 1.0
  }

  /** Lines 23-27: the payment for a given balloon (straight line at rate 0,
      the annuity-with-residual formula otherwise). */
  function BalloonPayment(pv: real, r: real, n: nat, balloon: real): real
    requires n >= 1 && Solvable(r, n)
  {
    if r == 0.0 then
      (pv - balloon) / n as real
    else
      (pv * r * Growth(r, n) - balloon * r) / (Growth(r, n) - 1.0)
  }

  /** Lines 32-37: the residual left by a given payment (the future-value
      formula, or its straight-line form at rate 0). */
  function InstallmentResidual(pv: real, r: real, n: nat, pmt: real): real
  {
    if r == 0.0 then
      pv - pmt * n as real
    else
      pv * Growth(r, n) - pmt * (Growth(r, n) - 1.0) / r
  }

  lemma ZeroRatePaymentByAnnuity(pv: real, r: real, n: nat, balloon: real)
    requires n >= 1 && r == 0.0
    ensures Annuity(r, n) != 0.0
    ensures BalloonPayment(pv, r, n, balloon) == (pv * Growth(r, n) - balloon) / Annuity(r, n)
  {
    ZeroRateFactors(r, n);
    SameQuotient(pv - balloon, n as real, pv * Growth(r, n) - balloon, Annuity(r, n));
  }

  lemma RatePaymentFromFactors(pv: real, r: real, n: nat, balloon: real)
    requires n >= 1 && r != 0.0 && Growth(r, n) != 1.0
    requires Annuity(r, n) * r == Growth(r, n) - 1.0
    requires BalloonPayment(pv, r, n, balloon) == (pv * r * Growth(r, n) - balloon * r) / (Growth(r, n) - 1.0)
    ensures Annuity(r, n) != 0.0
    ensures BalloonPayment(pv, r, n, balloon) == (pv * Growth(r, n) - balloon) / Annuity(r, n)
  {
    PaymentByAnnuity(pv, balloon, r, Growth(r, n), Annuity(r, n));
  }

  lemma RatePaymentByAnnuity(pv: real, r: real, n: nat, balloon: real)
    requires n >= 1 && r != 0.0 && Growth(r, n) != 1.0
    ensures Annuity(r, n) != 0.0
    ensures BalloonPayment(pv, r, n, balloon) == (pv * Growth(r, n) - balloon) / Annuity(r, n)
  {
    AnnuityTimesRate(r, n);
    RatePaymentFromFactors(pv, r, n, balloon);
  }

  /** The balloon-mode payment is the principal grown over the term, less
      the balloon, spread over the annuity factor. */
  lemma BalloonPaymentByAnnuity(pv: real, r: real, n: nat, balloon: real)
    requires n >= 1 && Solvable(r, n)
    ensures Annuity(r, n) != 0.0
    ensures BalloonPayment(pv, r, n, balloon) == (pv * Growth(r, n) - balloon) / Annuity(r, n)
  {
    if r == 0.0 {
      ZeroRatePaymentByAnnuity(pv, r, n, balloon);
    } else {
      RatePaymentByAnnuity(pv, r, n, balloon);
    }
  }

  /** The installment-mode residual is the principal grown over the term,
      less the payments grown to the same date. */
  lemma InstallmentResidualByAnnuity(pv: real, r: real, n: nat, pmt: real)
    ensures InstallmentResidual(pv, r, n, pmt) == pv * Growth(r, n) - pmt * Annuity(r, n)
  {
    if r == 0.0 {
      ZeroRateFactors(r, n);
    } else {
      AnnuityTimesRate(r, n);
      RateResidualFromFactors(pv, r, n, pmt);
    }
  }

  lemma RateResidualFromFactors(pv: real, r: real, n: nat, pmt: real)
    requires r != 0.0 && Annuity(r, n) * r == Growth(r, n) - 1.0
    ensures InstallmentResidual(pv, r, n, pmt) == pv * Growth(r, n) - pmt * Annuity(r, n)
  {
    ResidualByAnnuity(pmt, r, Growth(r, n), Annuity(r, n));
    assert InstallmentResidual(pv, r, n, pmt) == pv * Growth(r, n) - pmt * (Growth(r, n) - 1.0) / r;
  }

  /** Balloon mode then installment mode: feeding the balloon-mode payment
      back into the future-value formula returns the balloon. */
  lemma InstallmentOfBalloonPayment(pv: real, r: real, n: nat, balloon: real)
    requires n >= 1 && Solvable(r, n)
    ensures InstallmentResidual(pv, r, n, BalloonPayment(pv, r, n, balloon)) == balloon
  {
    var pmt := BalloonPayment(pv, r, n, balloon);
    BalloonPaymentByAnnuity(pv, r, n, balloon);
    InstallmentResidualByAnnuity(pv, r, n, pmt);
    ResidualOfPayment(pv * Growth(r, n), balloon, Annuity(r, n));
  }

  /** Installment mode then balloon mode: asking for the payment that leaves
      the installment-mode residual returns the installment. */
  lemma BalloonOfInstallmentResidual(pv: real, r: real, n: nat, pmt: real)
    requires n >= 1 && Solvable(r, n)
    ensures BalloonPayment(pv, r, n, InstallmentResidual(pv, r, n, pmt)) == pmt
  {
    var balloon := InstallmentResidual(pv, r, n, pmt);
    InstallmentResidualByAnnuity(pv, r, n, pmt);
    BalloonPaymentByAnnuity(pv, r, n, balloon);
    PaymentOfResidual(pv * Growth(r, n), pmt, Annuity(r, n));
  }

  /** With a non-negative APR the balloon-mode formula is always defined. */
  lemma NonNegativeRateIsSolvable(apr: real, n: nat)
    requires apr >= 0.0 && n >= 1
    ensures Solvable(MonthlyRate(apr), n)
  {
    var r := MonthlyRate(apr);
    if r != 0.0 {
      PowAboveOne(1.0 + r, n);
    }
  }

  // ---------------------------------------------------------------------
  // The amortization (lines 44-62)
  // ---------------------------------------------------------------------

  /** The unclamped `currentBalance` after k months: each month adds the
      interest on the balance and removes the payment. */
  function RunningBalance(pv: real, r: real, pmt: real, k: nat): real
  {
    if k == 0 then pv
    else
      var b := RunningBalance(pv, r, pmt, k - 1);
      b - (pmt - b * r)
  }

  /** The running balance in closed form: the principal grown over k months,
      less the payments grown to the same date. */
  lemma {:induction false} RunningBalanceClosedForm(pv: real, r: real, pmt: real, k: nat)
    ensures RunningBalance(pv, r, pmt, k) == pv * Growth(r, k) - pmt * Annuity(r, k)
    decreases k
  {
    if k > 0 {
      RunningBalanceClosedForm(pv, r, pmt, k - 1);
      ClosedFormStep(pv, r, pmt, k);
    }
  }

  lemma ClosedFormStep(pv: real, r: real, pmt: real, k: nat)
    requires k >= 1
    requires RunningBalance(pv, r, pmt, k - 1) == pv * Growth(r, k - 1) - pmt * Annuity(r, k - 1)
    ensures RunningBalance(pv, r, pmt, k) == pv * Growth(r, k) - pmt * Annuity(r, k)
  {
    BalanceStep(RunningBalance(pv, r, pmt, k - 1), RunningBalance(pv, r, pmt, k), pv,
                Growth(r, k - 1), Growth(r, k), pmt, Annuity(r, k - 1), Annuity(r, k), r);
  }

  /** The row pushed for month m: interest on the unclamped balance carried
      in, the rest of the payment as principal, the balance shown clamped. */
  function MonthRow(pv: real, r: real, pmt: real, m: nat): AmortizationRow
    requires m >= 1
  {
    var interest := RunningBalance(pv, r, pmt, m - 1) * r;
    AmortizationRow(m, pmt, pmt - interest, interest, Max0(RunningBalance(pv, r, pmt, m)))
  }

  /** Every field of the row for month i + 1, and the balance it closes on. */
  lemma MonthRowFields(pv: real, r: real, pmt: real, i: nat)
    ensures var row := MonthRow(pv, r, pmt, i + 1);
            var b := RunningBalance(pv, r, pmt, i);
            row.month == i + 1 && row.payment == pmt && row.interest == b * r && row.principal == pmt - b * r &&
            RunningBalance(pv, r, pmt, i + 1) == b - (pmt - b * r) &&
            row.balance == Max0(RunningBalance(pv, r, pmt, i + 1))
  {
    assert i + 1 - 1 == i;
  }

  /** The first k rows of the schedule, in month order. */
  function Schedule(pv: real, r: real, pmt: real, k: nat): (rows: seq<AmortizationRow>)
    ensures |rows| == k
  {
    if k == 0 then [] else Schedule(pv, r, pmt, k - 1) + [MonthRow(pv, r, pmt, k)]
  }

  /** The interest column summed in schedule order. */
  function SumInterest(rows: seq<AmortizationRow>): real
  {
    if rows == [] then 0.0 else SumInterest(rows[..|rows| - 1]) + rows[|rows| - 1].interest
  }

  /** What `months` payments of `pmt` add up to. */
  function Paid(pmt: real, months: real): real
  {
    pmt * months
  }

  /** The loop's `totalInterest` after k months: the interest on each
      month's opening running balance, added up. */
  function AccruedInterest(pv: real, r: real, pmt: real, k: nat): real
  {
    if k == 0 then 0.0 else AccruedInterest(pv, r, pmt, k - 1) + RunningBalance(pv, r, pmt, k - 1) * r
  }

  lemma {:induction false} ScheduleRow(pv: real, r: real, pmt: real, k: nat, i: nat)
    requires i < k
    ensures Schedule(pv, r, pmt, k)[i] == MonthRow(pv, r, pmt, i + 1)
    decreases k
  {
    if i < k - 1 {
      ScheduleRow(pv, r, pmt, k - 1, i);
    }
  }

  /** Row i of the schedule, field by field: month i + 1, the payment, the
      interest on the unclamped balance carried in, the rest of the payment as
      principal, and the balance after the payment shown clamped at 0. */
  lemma ScheduleRowAt(pv: real, r: real, pmt: real, k: nat, i: nat)
    requires i < k
    ensures var row := Schedule(pv, r, pmt, k)[i];
            row.month == i + 1 &&
            row.payment == pmt &&
            row.interest == RunningBalance(pv, r, pmt, i) * r &&
            row.principal == pmt - row.interest &&
            RunningBalance(pv, r, pmt, i + 1) == RunningBalance(pv, r, pmt, i) - row.principal &&
            row.balance == Max0(RunningBalance(pv, r, pmt, i + 1))
  {
    ScheduleRow(pv, r, pmt, k, i);
    MonthRowFields(pv, r, pmt, i);
  }

  /** The accumulated interest is the sum of the interest column. */
  lemma {:induction false} InterestColumnSum(pv: real, r: real, pmt: real, k: nat)
    ensures SumInterest(Schedule(pv, r, pmt, k)) == AccruedInterest(pv, r, pmt, k)
    decreases k
  {
    if k > 0 {
      var rows := Schedule(pv, r, pmt, k);
      assert rows[..k - 1] == Schedule(pv, r, pmt, k - 1);
      InterestColumnSum(pv, r, pmt, k - 1);
    }
  }

  /** Interest paid equals payments made less the principal retired. */
  lemma {:induction false} AccruedInterestIdentity(pv: real, r: real, pmt: real, k: nat)
    ensures AccruedInterest(pv, r, pmt, k) == RunningBalance(pv, r, pmt, k) - pv + Paid(pmt, k as real)
    decreases k
  {
    if k > 0 {
      AccruedInterestIdentity(pv, r, pmt, k - 1);
      InterestStep(AccruedInterest(pv, r, pmt, k - 1), RunningBalance(pv, r, pmt, k - 1), r, pv, pmt,
                   Paid(pmt, (k - 1) as real), Paid(pmt, k as real));
    }
  }

  /** The payment freezes the balance only through the running balance:
      balloon mode retires the principal exactly down to the balloon. */
  lemma BalloonPaymentReachesBalloon(pv: real, r: real, n: nat, balloon: real)
    requires n >= 1 && Solvable(r, n)
    ensures RunningBalance(pv, r, BalloonPayment(pv, r, n, balloon), n) == balloon
  {
    InstallmentOfBalloonPayment(pv, r, n, balloon);
    InstallmentResidualIsFinalBalance(pv, r, n, BalloonPayment(pv, r, n, balloon));
  }

  /** The closed form of line 37 (and of line 33 at rate 0) is the balance
      the month-by-month loop ends with, before any clamp. */
  lemma InstallmentResidualIsFinalBalance(pv: real, r: real, n: nat, pmt: real)
    ensures InstallmentResidual(pv, r, n, pmt) == RunningBalance(pv, r, pmt, n)
  {
    RunningBalanceClosedForm(pv, r, pmt, n);
    InstallmentResidualByAnnuity(pv, r, n, pmt);
  }

  // ---------------------------------------------------------------------
  // The whole computation
  // ---------------------------------------------------------------------

  /** Inputs on which the source's arithmetic is defined over exact reals:
      a whole positive term, and a balloon-mode division that is not by 0. */
  predicate WellDefined(inputs: LoanInputs)
  {
    IsWholeTerm(inputs.termMonths) &&
    (inputs.calculationMode == Balloon ==> Solvable(MonthlyRate(inputs.apr), Term(inputs)))
  }

  function Principal(inputs: LoanInputs): real
  {
    inputs.carPrice - inputs.downPayment
  }

  /** What the solving step (lines 17-39) settles: the monthly payment and
      the balloon, the latter before the clamp of line 42. */
  datatype Solution = Solution(payment: real, residual: real)

  /** Balloon mode solves for the payment and keeps the balloon; installment
      mode keeps the payment and solves for the balloon. */
  function Solve(inputs: LoanInputs): Solution
    requires WellDefined(inputs)
  {
    var pv, r, n := Principal(inputs), MonthlyRate(inputs.apr), Term(inputs);
    match inputs.calculationMode
    case Balloon => Solution(BalloonPayment(pv, r, n, inputs.balloonAmount), inputs.balloonAmount)
    case Installment => Solution(inputs.targetMonthlyPayment, InstallmentResidual(pv, r, n, inputs.targetMonthlyPayment))
  }

  /** The result record built from a solution (lines 42-71). */
  function Amortized(pv: real, r: real, n: nat, sol: Solution, downPayment: real): LoanResults
  {
    var interest := AccruedInterest(pv, r, sol.payment, n);
    LoanResults(sol.payment, interest, pv + interest + downPayment, pv, Max0(sol.residual), Schedule(pv, r, sol.payment, n))
  }

  /** The result record `calculateLoan` returns. */
  function Loan(inputs: LoanInputs): LoanResults
    requires WellDefined(inputs)
  {
    Amortized(Principal(inputs), MonthlyRate(inputs.apr), Term(inputs), Solve(inputs), inputs.downPayment)
  }

  /** The month-by-month loop of lines 44-62: interest on the running
      balance, the rest of the payment as principal, one row pushed per
      month, the interest added to the total. */
  method Amortize(pv: real, monthlyRate: real, monthlyPayment: real, n: nat)
    returns (schedule: seq<AmortizationRow>, totalInterest: real)
    ensures schedule == Schedule(pv, monthlyRate, monthlyPayment, n)
    ensures totalInterest == AccruedInterest(pv, monthlyRate, monthlyPayment, n)
  {
    schedule := [];
    var currentBalance := pv;
    totalInterest := 0.0;

    var m := 1;
    while m <= n
      invariant 1 <= m <= n + 1
      invariant currentBalance == RunningBalance(pv, monthlyRate, monthlyPayment, m - 1)
      invariant schedule == Schedule(pv, monthlyRate, monthlyPayment, m - 1)
      invariant totalInterest == AccruedInterest(pv, monthlyRate, monthlyPayment, m - 1)
    {
      var interestForMonth := currentBalance * monthlyRate;
      var principalForMonth := monthlyPayment - interestForMonth;

      currentBalance := currentBalance - principalForMonth;
      totalInterest := totalInterest + interestForMonth;

      schedule := schedule + [AmortizationRow(m, monthlyPayment, principalForMonth, interestForMonth, Max0(currentBalance))];
      m := m + 1;
    }
  }

  /** `calculateLoan`: solve for the unknown side, clamp the residual, then
      amortize. */
  method CalculateLoan(inputs: LoanInputs) returns (results: LoanResults)
    requires WellDefined(inputs)
    ensures results == Loan(inputs)
  {
    var principalAmount := inputs.carPrice - inputs.downPayment;
    var monthlyRate := inputs.apr / 100.0 / 12.0;
    var n := Term(inputs);
    var pv := principalAmount;

    var monthlyPayment := 0.0;
    var effectiveBalloon := 0.0;

    if inputs.calculationMode == Balloon {
      effectiveBalloon := inputs.balloonAmount;
      monthlyPayment := BalloonPayment(pv, monthlyRate, n, effectiveBalloon);
    } else {
      monthlyPayment := inputs.targetMonthlyPayment;
      effectiveBalloon := InstallmentResidual(pv, monthlyRate, n, monthlyPayment);
    }

    effectiveBalloon := Max0(effectiveBalloon);

    var schedule, totalInterest := Amortize(pv, monthlyRate, monthlyPayment, n);

    results := LoanResults(monthlyPayment, totalInterest, principalAmount + totalInterest + inputs.downPayment,
                           principalAmount, effectiveBalloon, schedule);
  }

  // ---------------------------------------------------------------------
  // Properties of the result
  // ---------------------------------------------------------------------

  /** One row per month, numbered from 1, each carrying the solved payment
      split exactly into principal and interest. */
  lemma LoanScheduleRow(inputs: LoanInputs, i: nat)
    requires WellDefined(inputs) && i < Term(inputs)
    ensures |Loan(inputs).schedule| == Term(inputs)
    ensures Loan(inputs).schedule[i].month == i + 1
    ensures Loan(inputs).schedule[i].payment == Loan(inputs).monthlyPayment
    ensures Loan(inputs).schedule[i].payment == Loan(inputs).schedule[i].principal + Loan(inputs).schedule[i].interest
  {
    ScheduleRowAt(Principal(inputs), MonthlyRate(inputs.apr), Solve(inputs).payment, Term(inputs), i);
  }

  /** Interest accrues on the unclamped running balance; the balance shown
      is that running balance clamped at 0. */
  lemma AmortizedRowBalance(pv: real, r: real, n: nat, sol: Solution, downPayment: real, i: nat)
    requires i < n
    ensures var res := Amortized(pv, r, n, sol, downPayment);
            var row := res.schedule[i];
            var run := RunningBalance(pv, r, sol.payment, i);
            var next := RunningBalance(pv, r, sol.payment, i + 1);
            row.interest == run * r &&
            next == run - row.principal &&
            row.balance == Max0(next) && row.balance >= 0.0
  {
    var res := Amortized(pv, r, n, sol, downPayment);
    ScheduleRowAt(pv, r, sol.payment, n, i);
  }

  /** The totals: the interest total is the sum of the interest column and
      also the payments made less the principal retired, and the cost adds
      principal, interest and down payment. */
  lemma AmortizedTotals(pv: real, r: real, n: nat, sol: Solution, downPayment: real)
    ensures var res := Amortized(pv, r, n, sol, downPayment);
            res.principalAmount == pv &&
            res.totalInterest == SumInterest(res.schedule) &&
            res.totalInterest == RunningBalance(pv, r, sol.payment, n) - pv + Paid(sol.payment, n as real) &&
            res.totalCost == res.principalAmount + res.totalInterest + downPayment
  {
    InterestColumnSum(pv, r, sol.payment, n);
    AccruedInterestIdentity(pv, r, sol.payment, n);
  }

  /** The totals of the record `calculateLoan` returns: the principal is
      price less down payment, the interest total is the interest column
      summed and also the payments over the term less the principal retired,
      and the cost adds principal, interest and down payment. */
  lemma LoanTotals(inputs: LoanInputs)
    requires WellDefined(inputs)
    ensures var res := Loan(inputs);
            res.principalAmount == inputs.carPrice - inputs.downPayment &&
            res.totalInterest == SumInterest(res.schedule) &&
            res.totalInterest ==
              RunningBalance(res.principalAmount, MonthlyRate(inputs.apr), res.monthlyPayment, Term(inputs))
              - res.principalAmount + Paid(res.monthlyPayment, inputs.termMonths) &&
            res.totalCost == res.principalAmount + res.totalInterest + inputs.downPayment
  {
    AmortizedTotals(Principal(inputs), MonthlyRate(inputs.apr), Term(inputs), Solve(inputs), inputs.downPayment);
  }

  /** The clamp: the displayed balloon is never negative, equals a
      non-negative balloon as given, and does not feed back into the payment
      (which is solved from the unclamped balloon, and amortizes to it). */
  lemma LoanResidualClamp(inputs: LoanInputs)
    requires WellDefined(inputs)
    ensures Loan(inputs).effectiveBalloonAmount >= 0.0
    ensures inputs.calculationMode == Balloon && inputs.balloonAmount >= 0.0 ==>
              Loan(inputs).effectiveBalloonAmount == inputs.balloonAmount
    ensures inputs.calculationMode == Balloon ==>
              Loan(inputs).monthlyPayment ==
                BalloonPayment(Principal(inputs), MonthlyRate(inputs.apr), Term(inputs), inputs.balloonAmount) &&
              RunningBalance(Principal(inputs), MonthlyRate(inputs.apr), Loan(inputs).monthlyPayment, Term(inputs))
                == inputs.balloonAmount
  {
    if inputs.calculationMode == Balloon {
      BalloonPaymentReachesBalloon(Principal(inputs), MonthlyRate(inputs.apr), Term(inputs), inputs.balloonAmount);
    }
  }

  /** Installment mode pays the target, and the residual it shows is the
      loop's final running balance, clamped. */
  lemma LoanInstallmentResidual(inputs: LoanInputs)
    requires WellDefined(inputs) && inputs.calculationMode == Installment
    ensures Loan(inputs).monthlyPayment == inputs.targetMonthlyPayment
    ensures Solve(inputs).residual ==
              RunningBalance(Principal(inputs), MonthlyRate(inputs.apr), inputs.targetMonthlyPayment, Term(inputs))
    ensures Loan(inputs).effectiveBalloonAmount ==
              Max0(RunningBalance(Principal(inputs), MonthlyRate(inputs.apr), inputs.targetMonthlyPayment, Term(inputs)))
  {
    InstallmentResidualIsFinalBalance(Principal(inputs), MonthlyRate(inputs.apr), Term(inputs), inputs.targetMonthlyPayment);
  }

  /** At rate 0 no month accrues interest. */
  lemma {:induction false} ZeroRateAccruesNothing(pv: real, pmt: real, k: nat)
    ensures AccruedInterest(pv, 0.0, pmt, k) == 0.0
    decreases k
  {
    if k > 0 {
      ZeroRateAccruesNothing(pv, pmt, k - 1);
    }
  }

  /** At APR 0 no row accrues interest, balloon mode pays the straight-line
      amount and installment mode leaves principal less payments, clamped. */
  lemma ZeroRateLoan(inputs: LoanInputs, i: nat)
    requires WellDefined(inputs) && inputs.apr == 0.0 && i < Term(inputs)
    ensures Loan(inputs).schedule[i].interest == 0.0
    ensures Loan(inputs).totalInterest == 0.0
    ensures inputs.calculationMode == Balloon ==>
              Loan(inputs).monthlyPayment == (Principal(inputs) - inputs.balloonAmount) / Term(inputs) as real
    ensures inputs.calculationMode == Installment ==>
              Loan(inputs).effectiveBalloonAmount ==
                Max0(Principal(inputs) - inputs.targetMonthlyPayment * Term(inputs) as real)
  {
    var pv, pmt, n := Principal(inputs), Solve(inputs).payment, Term(inputs);
    assert MonthlyRate(inputs.apr) == 0.0;
    ScheduleRowAt(pv, 0.0, pmt, n, i);
    ZeroRateAccruesNothing(pv, pmt, n);
  }

  /** Solving in balloon mode, then feeding the payment into installment
      mode with everything else unchanged, gives back the balloon, the same
      payment and the same schedule. */
  lemma BalloonInstallmentRoundTrip(inputs: LoanInputs)
    requires WellDefined(inputs) && inputs.calculationMode == Balloon && inputs.balloonAmount >= 0.0
    ensures var back := inputs.(calculationMode := Installment, targetMonthlyPayment := Loan(inputs).monthlyPayment);
            WellDefined(back) &&
            Loan(back).effectiveBalloonAmount == inputs.balloonAmount &&
            Loan(back).monthlyPayment == Loan(inputs).monthlyPayment &&
            Loan(back).schedule == Loan(inputs).schedule
  {
    InstallmentOfBalloonPayment(Principal(inputs), MonthlyRate(inputs.apr), Term(inputs), inputs.balloonAmount);
  }

  /** Solving in installment mode, then feeding a non-negative residual into
      balloon mode, gives back the installment. */
  lemma InstallmentBalloonRoundTrip(inputs: LoanInputs)
    requires WellDefined(inputs) && inputs.calculationMode == Installment
    requires Solvable(MonthlyRate(inputs.apr), Term(inputs)) && Solve(inputs).residual >= 0.0
    ensures var there := inputs.(calculationMode := Balloon, balloonAmount := Loan(inputs).effectiveBalloonAmount);
            WellDefined(there) &&
            Loan(there).monthlyPayment == inputs.targetMonthlyPayment &&
            Loan(there).schedule == Loan(inputs).schedule
  {
    BalloonOfInstallmentResidual(Principal(inputs), MonthlyRate(inputs.apr), Term(inputs), inputs.targetMonthlyPayment);
  }

  /** A zero-interest loan of 1000 over 10 months with no balloon pays 100 a
      month and ends at a zero balance. */
  lemma StraightLineExample(inputs: LoanInputs)
    requires inputs.carPrice == 1000.0 && inputs.downPayment == 0.0 && inputs.apr == 0.0
    requires inputs.termMonths == 10.0 && inputs.calculationMode == Balloon && inputs.balloonAmount == 0.0
    ensures WellDefined(inputs)
    ensures Loan(inputs).monthlyPayment == 100.0
    ensures Loan(inputs).principalAmount == 1000.0
    ensures Loan(inputs).schedule[9].balance == 0.0
  {
    assert Term(inputs) == 10;
    ZeroRateLoan(inputs, 9);
    AmortizedRowBalance(Principal(inputs), MonthlyRate(inputs.apr), Term(inputs), Solve(inputs), inputs.downPayment, 9);
    LoanResidualClamp(inputs);
  }

  /** The shown balance need not fall month by month: at 10% a month, a
      1000 loan repaid at 50 a month grows, because each payment is less
      than the interest it has to cover (the principal column goes
      negative). */
  lemma NegativeAmortizationExample(inputs: LoanInputs)
    requires inputs.carPrice == 1000.0 && inputs.downPayment == 0.0 && inputs.apr == 120.0
    requires inputs.termMonths == 2.0 && inputs.calculationMode == Installment
    requires inputs.targetMonthlyPayment == 50.0
    ensures WellDefined(inputs)
    ensures Loan(inputs).schedule[0].principal == -50.0
    ensures Loan(inputs).schedule[0].balance == 1050.0
    ensures Loan(inputs).schedule[1].balance == 1105.0
  {
    assert Term(inputs) == 2;
    var pv, r := Principal(inputs), MonthlyRate(inputs.apr);
    AmortizedRowBalance(pv, r, 2, Solve(inputs), inputs.downPayment, 0);
    AmortizedRowBalance(pv, r, 2, Solve(inputs), inputs.downPayment, 1);
  }
}
