/** The form's state updates (components/InputSection.tsx): the updater that
    `handleInputChange` hands to `setInputs`, the APR preset and mode toggles,
    and the "+X% Markup" ratio shown under the APR field. */
module InputForm {
  import opened LoanTypes
  import opened Finance
  import opened RealAlgebra

  datatype Option<T> = None | Some(value: T)

  /** The `name` attributes of the inputs wired to `handleInputChange`. */
  datatype Field =
    | CarPrice
    | DownPayment
    | DownPaymentPercent
    | Apr
    | TermMonths
    | BalloonAmount
    | TargetMonthlyPayment
    | CurrencyCode

  /** What a field of the record holds: a number, or the currency code. */
  datatype FieldValue = Number(number: real) | Text(text: string)

  /** The field of the record that an input of the given name shows. */
  function Read(inputs: LoanInputs, name: Field): FieldValue
  {
    match name
    case CarPrice => Number(inputs.carPrice)
    case DownPayment => Number(inputs.downPayment)
    case DownPaymentPercent => Number(inputs.downPaymentPercent)
    case Apr => Number(inputs.apr)
    case TermMonths => Number(inputs.termMonths)
    case BalloonAmount => Number(inputs.balloonAmount)
    case TargetMonthlyPayment => Number(inputs.targetMonthlyPayment)
    case CurrencyCode => Text(inputs.currencyCode)
  }

  /** `parseFloat(value) || 0` (line 15): text that does not parse, and a
      parsed 0, both give 0. */
  function NumericValue(parsed: Option<real>): (v: real)
    ensures parsed.Some? ==> v == parsed.value
    ensures parsed.None? ==> v == 0.0
  {
    match parsed
    case None => 0.0
    case Some(x) => x
  }

  /** The spread of line 18: the named field takes the raw text (the
      currency select) or the parsed number (every other input). */
  function Assign(prev: LoanInputs, name: Field, value: string, v: real): LoanInputs
  {
    match name
    case CarPrice => prev.(carPrice := v)
    case DownPayment => prev.(downPayment := v)
    case DownPaymentPercent => prev.(downPaymentPercent := v)
    case Apr => prev.(apr := v)
    case TermMonths => prev.(termMonths := v)
    case BalloonAmount => prev.(balloonAmount := v)
    case TargetMonthlyPayment => prev.(targetMonthlyPayment := v)
    case CurrencyCode => prev.(currencyCode := value)
  }

  /** The field an edit of `name` recomputes besides itself (lines 20-30):
      a price edit recomputes whichever down-payment field is not the
      authoritative one, and each down-payment field recomputes the other. */
  function Companion(mode: DownPaymentMode, name: Field): Option<Field>
  {
    match name
    case CarPrice => if mode == Percentage then Some(DownPayment) else Some(DownPaymentPercent)
    case DownPayment => Some(DownPaymentPercent)
    case DownPaymentPercent => Some(DownPayment)
    case _ => None
  }

  /** The `setInputs` updater of `handleInputChange` (lines 13-34). */
  function HandleInputChange(prev: LoanInputs, name: Field, value: string, parsed: Option<real>): (next: LoanInputs)
    // the edited field takes what was typed
    ensures name == CurrencyCode ==> Read(next, name) == Text(value)
    ensures name != CurrencyCode ==> Read(next, name) == Number(NumericValue(parsed))
    // nothing else changes but the companion field, and never the modes
    ensures forall f: Field :: f != name && Companion(prev.downPaymentMode, name) != Some(f) ==> Read(next, f) == Read(prev, f)
    ensures next.downPaymentMode == prev.downPaymentMode && next.calculationMode == prev.calculationMode
    // a price edit in percentage mode keeps the percentage and scales the amount
    ensures name == CarPrice && prev.downPaymentMode == Percentage ==>
              next.downPaymentPercent == prev.downPaymentPercent &&
              next.downPayment * 100.0 == next.carPrice * prev.downPaymentPercent
    // a price edit in amount mode keeps the amount and recomputes the percentage
    ensures name == CarPrice && prev.downPaymentMode == Amount ==>
              next.downPayment == prev.downPayment &&
              (next.carPrice > 0.0 ==> next.downPaymentPercent * next.carPrice == prev.downPayment * 100.0) &&
              (next.carPrice <= 0.0 ==> next.downPaymentPercent == 0.0)
    // an amount edit recomputes the percentage against the current price
    ensures name == DownPayment ==>
              (prev.carPrice > 0.0 ==> next.downPaymentPercent * prev.carPrice == next.downPayment * 100.0) &&
              (prev.carPrice <= 0.0 ==> next.downPaymentPercent == 0.0)
    // a percentage edit recomputes the amount against the current price
    ensures name == DownPaymentPercent ==>
              next.downPayment * 100.0 == prev.carPrice * next.downPaymentPercent
  {
    var v := NumericValue(parsed);
    var next := Assign(prev, name, value, v);
    match name
    case CarPrice =>
      if prev.downPaymentMode == Percentage then
        next.(downPayment := (v * prev.downPaymentPercent) / 100.0)
      else
        next.(downPaymentPercent := if v > 0.0 then (prev.downPayment / v) * 100.0 else 0.0)
    case DownPayment =>
      next.(downPaymentPercent := if prev.carPrice > 0.0 then (v / prev.carPrice) * 100.0 else 0.0)
    case DownPaymentPercent =>
      next.(downPayment := (prev.carPrice * v) / 100.0)
    case _ => next
  }

  /** The two down-payment fields agree: with a positive price, the amount
      is the percentage of the price. */
  predicate Consistent(inputs: LoanInputs)
  {
    inputs.carPrice > 0.0 ==> inputs.downPayment * 100.0 == inputs.carPrice * inputs.downPaymentPercent
  }

  /** Editing the price or either down-payment field leaves the two
      down-payment fields in agreement, whatever they were before; editing
      any other field keeps an agreement that held. */
  lemma EditKeepsDownPaymentConsistent(prev: LoanInputs, name: Field, value: string, parsed: Option<real>)
    ensures name in {CarPrice, DownPayment, DownPaymentPercent} ==>
              Consistent(HandleInputChange(prev, name, value, parsed))
    ensures Consistent(prev) ==> Consistent(HandleInputChange(prev, name, value, parsed))
  {
    match name
    case CarPrice => PriceEditIsConsistent(prev, value, parsed);
    case DownPayment => AmountEditIsConsistent(prev, value, parsed);
    case DownPaymentPercent => PercentEditIsConsistent(prev, value, parsed);
    case _ =>
      if Consistent(prev) {
        OtherEditKeepsConsistent(prev, name, value, parsed);
      }
  }

  lemma PriceEditIsConsistent(prev: LoanInputs, value: string, parsed: Option<real>)
    ensures Consistent(HandleInputChange(prev, CarPrice, value, parsed))
  {
    var next := HandleInputChange(prev, CarPrice, value, parsed);
    if prev.downPaymentMode == Amount && next.carPrice > 0.0 {
      SameProductBothWays(next.downPaymentPercent, next.carPrice, prev.downPayment * 100.0);
    }
  }

  lemma AmountEditIsConsistent(prev: LoanInputs, value: string, parsed: Option<real>)
    ensures Consistent(HandleInputChange(prev, DownPayment, value, parsed))
  {
    var next := HandleInputChange(prev, DownPayment, value, parsed);
    assert next.carPrice == prev.carPrice by {
      assert Read(next, CarPrice) == Read(prev, CarPrice);
    }
  }

  lemma PercentEditIsConsistent(prev: LoanInputs, value: string, parsed: Option<real>)
    ensures Consistent(HandleInputChange(prev, DownPaymentPercent, value, parsed))
  {
    var next := HandleInputChange(prev, DownPaymentPercent, value, parsed);
    assert next.carPrice == prev.carPrice by {
      assert Read(next, CarPrice) == Read(prev, CarPrice);
    }
  }

  lemma OtherEditKeepsConsistent(prev: LoanInputs, name: Field, value: string, parsed: Option<real>)
    requires name !in {CarPrice, DownPayment, DownPaymentPercent}
    requires Consistent(prev)
    ensures Consistent(HandleInputChange(prev, name, value, parsed))
  {
    var next := HandleInputChange(prev, name, value, parsed);
    assert Read(next, CarPrice) == Read(prev, CarPrice);
    assert Read(next, DownPayment) == Read(prev, DownPayment);
    assert Read(next, DownPaymentPercent) == Read(prev, DownPaymentPercent);
  }

  /** With a positive price the percentage the form shows is the amount as a
      share of the price, in percent. */
  lemma ConsistentPercentage(inputs: LoanInputs)
    requires Consistent(inputs) && inputs.carPrice > 0.0
    ensures inputs.downPaymentPercent == inputs.downPayment / inputs.carPrice * 100.0
  {
    PercentOfProduct(inputs.downPayment, inputs.carPrice, inputs.downPaymentPercent);
  }

  /** `setPresetApr` (lines 36-38). */
  function SetPresetApr(prev: LoanInputs, rate: real): (next: LoanInputs)
    ensures Read(next, Apr) == Number(rate)
    ensures forall f: Field :: f != Apr ==> Read(next, f) == Read(prev, f)
    ensures next.downPaymentMode == prev.downPaymentMode && next.calculationMode == prev.calculationMode
  {
    prev.(apr := rate)
  }

  /** A preset button does what typing the same rate into the APR field does. */
  lemma PresetIsTypedApr(prev: LoanInputs, rate: real, value: string)
    ensures SetPresetApr(prev, rate) == HandleInputChange(prev, Apr, value, Some(rate))
  {
  }

  /** `toggleDownPaymentMode` (lines 40-42). */
  function ToggleDownPaymentMode(prev: LoanInputs, mode: DownPaymentMode): (next: LoanInputs)
    ensures next.downPaymentMode == mode && next.calculationMode == prev.calculationMode
    ensures forall f: Field :: Read(next, f) == Read(prev, f)
  {
    prev.(downPaymentMode := mode)
  }

  /** `toggleCalculationMode` (lines 44-46). */
  function ToggleCalculationMode(prev: LoanInputs, mode: CalculationMode): (next: LoanInputs)
    ensures next.calculationMode == mode && next.downPaymentMode == prev.downPaymentMode
    ensures forall f: Field :: Read(next, f) == Read(prev, f)
  {
    prev.(calculationMode := mode)
  }

  /** Which down-payment field the form treats as authoritative is a matter
      of the form alone: the loan computed is the same. */
  lemma DownPaymentModeDoesNotChangeLoan(prev: LoanInputs, mode: DownPaymentMode)
    requires WellDefined(prev)
    ensures WellDefined(ToggleDownPaymentMode(prev, mode))
    ensures Loan(ToggleDownPaymentMode(prev, mode)) == Loan(prev)
  {
    var next := ToggleDownPaymentMode(prev, mode);
    assert next.termMonths == prev.termMonths && next.apr == prev.apr;
    assert Term(next) == Term(prev);
  }

  /** The balloon the markup counts as paid at the end of the term. */
  function EndBalloon(inputs: LoanInputs, balloon: real): real
  {
    if inputs.calculationMode == Balloon then balloon else 0.0
  }

  /** An amount as a share of the principal. */
  function Share(amount: real, principal: real): (share: real)
    requires principal != 0.0
    ensures share * principal == amount
  {
    QuotientTimesDivisor(amount, principal);
    amount / principal
  }

  /** `interestRatio` as written (lines 52-54): payments over the term plus,
      in balloon mode only, the balloon, less the principal, as a share of
      the principal; 0 when the down payment covers the price. */
  function InterestRatio(inputs: LoanInputs, calculatedMonthlyPayment: real): (ratio: real)
    ensures Principal(inputs) <= 0.0 ==> ratio == 0.0
    ensures Principal(inputs) > 0.0 ==>
              ratio == Share(Paid(calculatedMonthlyPayment, inputs.termMonths) + EndBalloon(inputs, inputs.balloonAmount)
                             - Principal(inputs), Principal(inputs))
  {
    if inputs.carPrice > inputs.downPayment then
      var principal := inputs.carPrice - inputs.downPayment;
      Share(calculatedMonthlyPayment * inputs.termMonths + EndBalloon(inputs, inputs.balloonAmount) - principal, principal)
    else
      0.0
  }

  /** In balloon mode the ratio is the loan's interest as a share of its
      principal: the payments and the balloon less the principal are exactly
      the interest the schedule accrues. */
  lemma BalloonRatioIsInterestShare(inputs: LoanInputs)
    requires WellDefined(inputs) && inputs.calculationMode == Balloon && Principal(inputs) > 0.0
    ensures InterestRatio(inputs, Loan(inputs).monthlyPayment) == Share(Loan(inputs).totalInterest, Principal(inputs))
  {
    LoanTotals(inputs);
    LoanResidualClamp(inputs);
  }

  /** A zero-rate loan of 100000 repaid at 5000 a month for 10 months in
      installment mode leaves a residual of 50000 and accrues no interest,
      yet the ratio as written is -0.5 (shown as "+-50.0% Markup"): the
      residual is left out of what is paid. */
  lemma InstallmentRatioCounterexample(inputs: LoanInputs)
    requires inputs.carPrice == 100000.0 && inputs.downPayment == 0.0 && inputs.apr == 0.0
    requires inputs.termMonths == 10.0 && inputs.calculationMode == Installment
    requires inputs.targetMonthlyPayment == 5000.0
    ensures WellDefined(inputs)
    ensures Loan(inputs).totalInterest == 0.0
    ensures Loan(inputs).effectiveBalloonAmount == 50000.0
    ensures InterestRatio(inputs, Loan(inputs).monthlyPayment) == -0.5
  {
    assert Term(inputs) == 10;
    ZeroRateAccruesNothing(100000.0, 5000.0, 10);
  }

  /** The markup as evidently intended: what is paid over the term, counting
      the balloon the loan ends with in either mode (the balloon given in
      balloon mode, the residual the solver derived in installment mode),
      less the principal, as a share of the principal. */
  function InterestMarkup(inputs: LoanInputs, results: LoanResults): (markup: real)
    ensures Principal(inputs) <= 0.0 ==> markup == 0.0
    ensures Principal(inputs) > 0.0 ==>
              markup == Share(Paid(results.monthlyPayment, inputs.termMonths)
                              + (if inputs.calculationMode == Balloon then inputs.balloonAmount else results.effectiveBalloonAmount)
                              - Principal(inputs), Principal(inputs))
  {
    if inputs.carPrice > inputs.downPayment then
      var principal := inputs.carPrice - inputs.downPayment;
      var balloon := if inputs.calculationMode == Balloon then inputs.balloonAmount else results.effectiveBalloonAmount;
      Share(results.monthlyPayment * inputs.termMonths + balloon - principal, principal)
    else
      0.0
  }

  /** In both modes the corrected markup is the loan's interest as a share of
      its principal, as long as the installment-mode residual is not
      clamped. */
  lemma MarkupIsInterestShare(inputs: LoanInputs)
    requires WellDefined(inputs) && Principal(inputs) > 0.0
    requires inputs.calculationMode == Installment ==> Solve(inputs).residual >= 0.0
    ensures InterestMarkup(inputs, Loan(inputs)) == Share(Loan(inputs).totalInterest, Principal(inputs))
  {
    LoanTotals(inputs);
    if inputs.calculationMode == Balloon {
      LoanResidualClamp(inputs);
    } else {
      LoanInstallmentResidual(inputs);
    }
  }

  /** Where the ratio as written is right, the corrected markup agrees with
      it: in balloon mode the two are the same number. */
  lemma MarkupAgreesInBalloonMode(inputs: LoanInputs, results: LoanResults)
    requires inputs.calculationMode == Balloon
    ensures InterestMarkup(inputs, results) == InterestRatio(inputs, results.monthlyPayment)
  {
  }
}
