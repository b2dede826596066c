# Car loan solver and form updates, modelled in Dafny

This project models the computational core of a car-financing calculator:

- `calculateLoan` (utils/finance.ts). Given a price, a down payment, an APR
  and a term, it solves for the unknown side of the annuity. In balloon mode
  that is the monthly payment for a given final balloon. In installment mode
  it is the residual balloon a given monthly payment leaves. It clamps that
  residual at zero for display, then amortizes the loan month by month into a
  schedule of rows and totals.
- The state updates of the input form (components/InputSection.tsx). These
  are the `setInputs` updater of `handleInputChange`, which keeps the
  down-payment amount and percentage in step, the APR preset, the two mode
  toggles, and the "Interest Impact" markup ratio.
- The record shapes of types.ts.

Numbers are exact `real`s. The solving step is a set of pure functions, and
the amortization loop is a method with loop invariants, proved equal to a
recursive specification (`RunningBalance`, `Schedule`, `AccruedInterest`).
`CalculateLoan` is proved to return `Loan(inputs)`. The properties of the
solver's result are proved about `Loan`, or about `Amortized`, the record
`Loan` builds from a solved payment and residual. Those of the form are
proved about its updater functions.

Modules:

- `LoanTypes` (loan_types.dfy) holds the records and the two mode enums.
- `RealAlgebra` (real_algebra.dfy) holds the field identities the proofs use.
- `Finance` (finance.dfy) holds the solver, the amortization and their
  properties.
- `InputForm` (input_form.dfy) holds the form updaters and the markup ratio.

The closed forms use the annuity factor
`Annuity(r, n) = 1 + (1+r) + ... + (1+r)^(n-1)`, with
`Annuity(r, n) * r == (1+r)^n - 1`. With it:

- the running balance after k months is `pv*(1+r)^k - pmt*Annuity(r, k)`;
- the balloon-mode payment is `(pv*(1+r)^n - balloon) / Annuity(r, n)`;
- the installment-mode residual is `pv*(1+r)^n - pmt*Annuity(r, n)`.

Both modes are therefore inverse to each other, and the closed form of
line 37 is the loop's final balance.

`WellDefined(inputs)` is what the solver requires:

- the term is a whole number of months, at least 1. This is an assumption
  of the model, not a need of the source: both modes compute a result for a
  positive fractional term, and among the excluded terms only a term of 0 in
  balloon mode divides by 0 (line 24, or line 27 where `pow == 1`);
- in balloon mode, the rate is 0 or `(1+r)^n != 1`, so that the division at
  line 27 is not by 0.

`NonNegativeRateIsSolvable` shows that any APR >= 0 meets the second
condition.

## Model

| member | source | states |
|---|---|---|
| Finance.CalculateLoan | utils/finance.ts:9-72 | the whole solver returns exactly the specified record `Loan(inputs)`: payment and residual from the mode's formula, residual clamped, schedule and totals from the loop |
| Finance.Amortize | utils/finance.ts:44-62 | the loop pushes exactly the rows of `Schedule` and accumulates exactly `AccruedInterest`, with the unclamped running balance as its invariant |
| Finance.Solve | utils/finance.ts:20-39 | the definition of the solving step: balloon mode derives the payment and keeps the balloon, installment mode keeps the target payment and derives the residual; `LoanResidualClamp`, `LoanInstallmentResidual` and the round-trip lemmas carry its properties |
| Finance.BalloonPayment | utils/finance.ts:23-27 | the definition of the balloon-mode payment, straight-line at rate 0 and the annuity-with-residual formula otherwise; `BalloonPaymentByAnnuity`, `BalloonPaymentReachesBalloon` and `InstallmentOfBalloonPayment` carry its properties |
| Finance.InstallmentResidual | utils/finance.ts:32-37 | the definition of the installment-mode residual, principal less payments at rate 0 and the future-value formula otherwise; `InstallmentResidualByAnnuity`, `InstallmentResidualIsFinalBalance` and `BalloonOfInstallmentResidual` carry its properties |
| Finance.RunningBalance | utils/finance.ts:49-52 | the definition of the unclamped `currentBalance` after k months; `RunningBalanceClosedForm` and `AmortizedRowBalance` carry its properties |
| Finance.MonthRow | utils/finance.ts:49-60 | the definition of the row pushed for one month; `ScheduleRowAt` and `LoanScheduleRow` carry its properties |
| Finance.AccruedInterest | utils/finance.ts:53 | the definition of the loop's `totalInterest` after k months; `InterestColumnSum`, `AccruedInterestIdentity` and `ZeroRateAccruesNothing` carry its properties |
| Finance.Amortized | utils/finance.ts:42-71 | the definition of the result record built from a solved payment and residual: the residual clamped, the schedule and interest of the loop, and `totalCost`; `AmortizedTotals` and `AmortizedRowBalance` carry its properties |
| Finance.Loan | utils/finance.ts:9-72 | the definition of the record `calculateLoan` returns; `CalculateLoan` is proved to compute it, and `LoanTotals`, `LoanScheduleRow`, `LoanResidualClamp` and the round trips carry its properties |
| Finance.Max0 | utils/finance.ts:42 | `Math.max(0, x)` is at least 0 and at least x, and is one of the two |
| Finance.MonthlyRate | utils/finance.ts:13 | the monthly rate is the APR over 1200, and is 0 exactly when the APR is 0 |
| Finance.Term | utils/finance.ts:14 | a whole term of at least one month is that many loop iterations |
| Finance.PowAboveOne | utils/finance.ts:26-27 | `(1+r)^n > 1` for a positive rate and at least one month, so the divisor `pow - 1` is not 0 |
| Finance.NonNegativeRateIsSolvable | utils/finance.ts:23-27 | with APR >= 0, either the zero-rate branch runs or `pow - 1 != 0` |
| Finance.AnnuityTimesRate | utils/finance.ts:36-37 | the geometric sum behind the future-value formula: annuity factor times rate is `(1+r)^n - 1` |
| Finance.ZeroRateFactors | utils/finance.ts:32-33 | at rate 0 nothing grows and the annuity factor is the month count |
| Finance.BalloonPaymentByAnnuity | utils/finance.ts:20-28 | both balloon-mode branches (straight line, annuity with residual) equal one closed form, with a non-zero divisor |
| Finance.InstallmentResidualByAnnuity | utils/finance.ts:29-38 | both installment-mode branches equal the principal grown over the term less the payments grown to the same date |
| Finance.InstallmentOfBalloonPayment | utils/finance.ts:20-38 | the installment formula applied to the balloon-mode payment gives back the balloon |
| Finance.BalloonOfInstallmentResidual | utils/finance.ts:20-38 | the balloon formula applied to the installment-mode residual gives back the installment |
| Finance.RunningBalanceClosedForm | utils/finance.ts:45-52 | the loop's unclamped `currentBalance` after k months in closed form |
| Finance.InstallmentResidualIsFinalBalance | utils/finance.ts:29-52 | the residual of line 37 (and of line 33) is the balance the loop ends with, as the comment at line 36 says |
| Finance.BalloonPaymentReachesBalloon | utils/finance.ts:20-52 | paying the balloon-mode payment every month brings the running balance exactly to the balloon |
| Finance.Schedule | utils/finance.ts:44-62 | the schedule of k months has k rows |
| Finance.ScheduleRowAt | utils/finance.ts:48-61 | row i is month i+1, carries the payment, interest on the unclamped opening balance, the rest as principal, and the clamped closing balance |
| Finance.InterestColumnSum | utils/finance.ts:46-59 | the accumulated `totalInterest` is the sum of the rows' interest column |
| Finance.AccruedInterestIdentity | utils/finance.ts:45-53 | interest accrued over k months is the final balance less the principal plus the k payments |
| Finance.LoanScheduleRow | utils/finance.ts:48-58 | the result has `termMonths` rows; row i is month i+1, pays `monthlyPayment`, and splits it exactly into principal plus interest |
| Finance.AmortizedRowBalance | utils/finance.ts:49-60 | interest is charged on the unclamped running balance; the next balance is that balance less the row's principal; the row shows it clamped, so never below 0 |
| Finance.AmortizedTotals | utils/finance.ts:44-68 | principal, interest total as the interest column sum and as balance-plus-payments identity, and total cost, for any solved payment |
| Finance.LoanTotals | utils/finance.ts:12-68 | `principalAmount == carPrice - downPayment`, `totalInterest` is the interest column sum, and `totalCost == principal + interest + downPayment` |
| Finance.LoanResidualClamp | utils/finance.ts:20-42 | the shown balloon is never negative, equals a non-negative balloon as given, and the payment is solved from (and amortizes to) the unclamped balloon |
| Finance.LoanInstallmentResidual | utils/finance.ts:29-42 | installment mode pays the target, and its residual is the loop's final running balance, shown clamped |
| Finance.ZeroRateAccruesNothing | utils/finance.ts:49-53 | at rate 0 the accumulated interest is 0 |
| Finance.ZeroRateLoan | utils/finance.ts:20-53 | at APR 0 every row's interest and the total are 0; balloon mode pays `(principal - balloon)/n`; installment mode shows `max(0, principal - payment*n)` |
| Finance.BalloonInstallmentRoundTrip | utils/finance.ts:20-39 | solving in balloon mode and feeding the payment into installment mode gives back the balloon, the payment and the schedule |
| Finance.InstallmentBalloonRoundTrip | utils/finance.ts:20-39 | solving in installment mode and feeding a non-negative residual into balloon mode gives back the installment and the schedule |
| Finance.StraightLineExample | utils/finance.ts:20-62 | 1000 at 0% over 10 months with no balloon pays 100 a month and ends at balance 0 |
| Finance.NegativeAmortizationExample | utils/finance.ts:48-61 | with a payment below the interest, the principal column is negative and the shown balance rises from 1050 to 1105 |
| InputForm.HandleInputChange | components/InputSection.tsx:17-33 | the edited field takes the typed value; only its companion down-payment field changes besides; the companion is reconciled by mode (percentage mode scales the amount, amount mode recomputes the percentage, 0 for a non-positive price) |
| InputForm.EditKeepsDownPaymentConsistent | components/InputSection.tsx:20-30 | after a price or down-payment edit the amount is the percentage of the price; any other edit keeps an agreement that held |
| InputForm.ConsistentPercentage | components/InputSection.tsx:24-29 | when the fields agree and the price is positive, the percentage is `downPayment / carPrice * 100` |
| InputForm.SetPresetApr | components/InputSection.tsx:36-38 | the preset sets the APR and nothing else |
| InputForm.PresetIsTypedApr | components/InputSection.tsx:36-38 | a preset button does what typing the rate into the APR field does |
| InputForm.ToggleDownPaymentMode | components/InputSection.tsx:40-42 | the toggle sets the down-payment mode and no field |
| InputForm.ToggleCalculationMode | components/InputSection.tsx:44-46 | the toggle sets the calculation mode and no field |
| InputForm.DownPaymentModeDoesNotChangeLoan | components/InputSection.tsx:40-42 | the down-payment mode does not change the computed loan |
| InputForm.InterestRatio | components/InputSection.tsx:52-54 | 0 when the down payment covers the price; otherwise payments over the term plus the balloon (balloon mode only) less the principal, as a share of the principal |
| InputForm.BalloonRatioIsInterestShare | components/InputSection.tsx:52-54 | in balloon mode the ratio is the loan's total interest as a share of the principal |
| InputForm.InstallmentRatioCounterexample | components/InputSection.tsx:52-54 | a zero-interest installment loan with a residual shows a ratio of -0.5 |
| InputForm.InterestMarkup | components/InputSection.tsx:52-54 | the corrected ratio counts the balloon the loan ends with in both modes |
| InputForm.MarkupIsInterestShare | components/InputSection.tsx:52-54 | in both modes the corrected ratio is the total interest as a share of the principal (installment mode: while the residual is not clamped) |
| InputForm.MarkupAgreesInBalloonMode | components/InputSection.tsx:52-54 | in balloon mode the corrected ratio and the ratio as written are the same number |

## Left out

- `formatCurrency` and `downloadCSV` (utils/finance.ts:74-110): locale formatting through `Intl.NumberFormat`, and Blob, URL and DOM download plumbing. These are foreign libraries and I/O.
- App.tsx, the JSX markup of InputSection.tsx (from line 56 on), and the other components. They render `LoanResults` and compute nothing further.
- IEEE-754 doubles: rounding, NaN and Infinity. The model uses exact reals. `WellDefined` excludes a balloon-mode rate whose `(1+r)^n` equals 1, where line 27 divides by 0, and a zero-rate balloon-mode term of 0, where line 24 does. It also excludes every term that is not a whole number of months of at least 1, although both modes compute a result for a positive fractional term and installment mode also for a term of 0.
- Finance.CalculateLoan: a fractional `termMonths` makes the source's loop run `floor(termMonths)` times against a fractional `Math.pow` exponent, and a term of 0 gives an empty schedule. The model requires a whole term of at least 1 instead.
- `parseFloat`: the handler's input is given as the already parsed `Option<real>`, `None` for text that does not parse. `parseFloat(value) || 0` (components/InputSection.tsx:15) becomes `NumericValue`, which maps `None` to 0 and a parsed number to itself. How text such as "1e3" or "12abc" parses is not modelled.
- Field names outside the eight inputs wired to `handleInputChange` are not modelled. The `[name]` spread would add an unknown key to the record, which `LoanInputs` cannot hold.
- Balance monotonicity: the clamped balance is not non-increasing in the source. `NegativeAmortizationExample` shows a rising balance, so no monotonicity is claimed.
- InputForm.MarkupIsInterestShare: in installment mode it requires a residual that is not clamped. When the target payment overshoots, the clamped residual of 0 no longer equals the loop's negative final balance.

## Findings

| source | as written | input that shows it | evidently intended | confidence | as-written member | corrected member |
|---|---|---|---|---|---|---|
| components/InputSection.tsx:52-54 | in installment mode the "Markup" ratio adds nothing for the residual balloon, so the balloon the buyer still owes is left out of what is paid | price 100000, down payment 0, APR 0, term 10, installment mode, target payment 5000: zero interest and a residual of 50000, yet the ratio is -0.5 ("+-50.0% Markup") | count the solved residual (`effectiveBalloonAmount`) in installment mode as balloon mode counts `balloonAmount`, so the ratio is the interest share of the principal | medium; not executed | InputForm.InstallmentRatioCounterexample | InputForm.MarkupIsInterestShare |
