/** The records the calculator passes around (types.ts).  Every JavaScript
    `number` is an exact `real`; the month index of a row is a `nat`. */
module LoanTypes {

  /** Which of the two down-payment fields the form treats as authoritative. */
  datatype DownPaymentMode = Amount | Percentage

  /** Which side of the annuity the solver derives: the monthly payment from
      a given balloon, or the balloon from a given monthly payment. */
  datatype CalculationMode = Balloon | Installment

  /** The form state.  `termMonths` is kept as a number, as the form stores
      whatever the user typed; the solver demands a whole number of months. */
  datatype LoanInputs = LoanInputs(
    carPrice: real,
    downPayment: real,
    downPaymentPercent: real,
    downPaymentMode: DownPaymentMode,
    calculationMode: CalculationMode,
    targetMonthlyPayment: real,
    apr: real,
    termMonths: real,
    balloonAmount: real,
    currencyCode: string)

  /** One line of the amortization schedule. */
  datatype AmortizationRow = AmortizationRow(
    month: nat,
    payment: real,
    principal: real,
    interest: real,
    balance: real)

  /** What the solver returns. */
  datatype LoanResults = LoanResults(
    monthlyPayment: real,
    totalInterest: real,
    totalCost: real,
    principalAmount: real,
    effectiveBalloonAmount: real,
    schedule: seq<AmortizationRow>)
}
