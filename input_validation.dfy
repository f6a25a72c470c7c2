/**
 * The two input validators of static/script.js: `validateInput`, run when
 * the form is submitted, and `validateInputField`, run on every keystroke.
 * Their error-message and error-class side effects are left out; what is
 * modelled is the decision each one returns.
 */
module InputValidation {

  /** A JavaScript number as `parseFloat` produces it. */
  datatype JsNumber = NaN | PosInfinity | NegInfinity | Finite(value: real)

  /** `x < c` in JavaScript: false whenever x is NaN. */
  predicate LessThan(x: JsNumber, c: real)
  {
    match x
    case NaN => false
    case PosInfinity => false
    case NegInfinity => true
    case Finite(v) => v < c
  }

  /** `x > c` in JavaScript: false whenever x is NaN. */
  predicate GreaterThan(x: JsNumber, c: real)
  {
    match x
    case NaN => false
    case PosInfinity => true
    case NegInfinity => false
    case Finite(v) => v > c
  }

  /** `x <= c` in JavaScript: false whenever x is NaN. */
  predicate AtMost(x: JsNumber, c: real)
  {
    x != NaN && !GreaterThan(x, c)
  }

  /** The parsed form submitted to the server. */
  datatype FormData = FormData(principal: JsNumber, annualRate: JsNumber, tenureYears: JsNumber)

  datatype Verdict = Accepted | Rejected(message: string)

  const LoanAmountMessage := "Please enter a valid loan amount greater than 0"
  const RateMessage := "Please enter a valid interest rate between 0.1% and 100%"
  const TenureMessage := "Please enter a valid loan tenure between 1 and 50 years"

  /** The loan amounts the submit check lets through: positive, possibly infinite. */
  predicate GoodPrincipal(x: JsNumber)
  {
    x.PosInfinity? || (x.Finite? && x.value > 0.0)
  }

  /** The annual rates the submit check lets through: the interval (0, 100]. */
  predicate GoodRate(x: JsNumber)
  {
    x.Finite? && 0.0 < x.value <= 100.0
  }

  /** The tenures the submit check lets through: the interval (0, 50]. */
  predicate GoodTenure(x: JsNumber)
  {
    x.Finite? && 0.0 < x.value <= 50.0
  }

  /**
   * `validateInput`: the checks run in the order loan amount, rate, tenure,
   * and the first that fails decides the message.
   */
  function ValidateInput(d: FormData): (v: Verdict)
    ensures v == Accepted <==> GoodPrincipal(d.principal) && GoodRate(d.annualRate) && GoodTenure(d.tenureYears)
    ensures v == Rejected(LoanAmountMessage) <==> !GoodPrincipal(d.principal)
    ensures v == Rejected(RateMessage) <==> GoodPrincipal(d.principal) && !GoodRate(d.annualRate)
    ensures v == Rejected(TenureMessage) <==>
              GoodPrincipal(d.principal) && GoodRate(d.annualRate) && !GoodTenure(d.tenureYears)
  {
    if d.principal.NaN? || AtMost(d.principal, 0.0) then
      Rejected(LoanAmountMessage)
    else if d.annualRate.NaN? || AtMost(d.annualRate, 0.0) || GreaterThan(d.annualRate, 100.0) then
      Rejected(RateMessage)
    else if d.tenureYears.NaN? || AtMost(d.tenureYears, 0.0) || GreaterThan(d.tenureYears, 50.0) then
      Rejected(TenureMessage)
    else
      Accepted
  }

  /** The `id` of the input element being checked. */
  datatype FieldId = PrincipalField | RateField | TenureField | OtherField

  /** The finite values the per-field check accepts for each field. */
  predicate WithinFieldBounds(id: FieldId, v: real)
  {
    match id
    case PrincipalField => v >= 1000.0
    case RateField => 0.1 <= v <= 100.0
    case TenureField => 1.0 <= v <= 50.0
    case OtherField => true
  }

  /**
   * `validateInputField` on an element with the given id, raw text and
   * `parseFloat` value. A non-empty text that does not parse is flagged;
   * since every comparison with NaN is false, an empty field is not.
   */
  function ValidateInputField(id: FieldId, text: string, value: JsNumber): (ok: bool)
    ensures value.Finite? ==> (ok <==> WithinFieldBounds(id, value.value))
    ensures value.NaN? ==> (ok <==> text == "")
    ensures value.PosInfinity? ==> (ok <==> id == PrincipalField || id == OtherField)
    ensures value.NegInfinity? ==> (ok <==> id == OtherField)
  {
    if text != "" && value.NaN? then
      false
    else
      match id
      case PrincipalField => !LessThan(value, 1000.0)
      case RateField => !(LessThan(value, 0.1) || GreaterThan(value, 100.0))
      case TenureField => !(LessThan(value, 1.0) || GreaterThan(value, 50.0))
      case OtherField => true
  }
}
