/**
 * The `/calculate_emi` handler of app.py: it reads the three request fields,
 * validates them, derives the monthly rate and the month count, computes the
 * installment with the annuity formula and walks the loan month by month.
 * Python floats are modelled as exact reals.
 */
module Amortization {
  import opened RealPow
  import opened Schedule

  /** One field of the JSON request body. */
  datatype Field =
    | Absent             // key missing: `data.get(key, 0)` yields 0
    | Unconvertible      // null, an array or an object: `float` raises TypeError
    | Number(value: real) // a number, a boolean, or a string `float` parses
    | NonNumeric         // a string `float` rejects with ValueError

  datatype Request = Request(principal: Field, annualRate: Field, tenureYears: Field)

  /** The request body as `request.get_json()` sees it. */
  datatype Body =
    | JsonObject(request: Request)
    | NotAnObject        // no JSON body, or JSON that is not an object: reading it raises

  /** The exceptions the handler can raise. */
  datatype Fault =
    | ValueError
    | TypeError
    | OtherError         // any other exception, such as reading a body that is not an object

  datatype Converted = Value(x: real) | Raised(fault: Fault)

  /** The three converted inputs, or the exception the first failing step raised. */
  datatype Parsed =
    | Inputs(principal: real, annualRate: real, tenureYears: real)
    | ParseFault(fault: Fault)

  /** The JSON response. */
  datatype Response =
    | Success(emi: real, totalAmount: real, totalInterest: real, principal: real,
              tenureMonths: int, schedule: seq<Row>)
    | Failure(error: string)

  const NotPositiveMessage := "All values must be greater than zero"
  const NotNumericMessage := "Please enter valid numeric values"
  const CalculationMessage := "An error occurred during calculation"

  /** `float(data.get(key, 0))`. */
  function Convert(f: Field): Converted
  {
    match f
    case Absent => Value(0.0)
    case Unconvertible => Raised(TypeError)
    case Number(v) => Value(v)
    case NonNumeric => Raised(ValueError)
  }

  /** The reading of the body and the conversions of app.py, in their order: principal, annual rate, tenure. */
  function ParseRequest(body: Body): (p: Parsed)
    ensures body.NotAnObject? ==> p == ParseFault(OtherError)
    ensures body.JsonObject? ==>
      var req := body.request;
      && (p.Inputs? <==>
            Convert(req.principal).Value? && Convert(req.annualRate).Value? && Convert(req.tenureYears).Value?)
      && (p.Inputs? ==>
            p == Inputs(Convert(req.principal).x, Convert(req.annualRate).x, Convert(req.tenureYears).x))
      && (p.ParseFault? ==>
            p.fault == (if Convert(req.principal).Raised? then Convert(req.principal).fault
                        else if Convert(req.annualRate).Raised? then Convert(req.annualRate).fault
                        else Convert(req.tenureYears).fault))
  {
    match body
    case NotAnObject => ParseFault(OtherError)
    case JsonObject(req) =>
      match (Convert(req.principal), Convert(req.annualRate), Convert(req.tenureYears))
      case (Raised(e), _, _) => ParseFault(e)
      case (Value(_), Raised(e), _) => ParseFault(e)
      case (Value(_), Value(_), Raised(e)) => ParseFault(e)
      case (Value(p), Value(a), Value(t)) => Inputs(p, a, t)
  }

  /** The fields `float` accepts: a missing key (read as 0) and a number. */
  predicate Converts(f: Field)
  {
    f.Absent? || f.Number?
  }

  /**
   * The outcome of reading the body, by the kinds of its fields: the inputs
   * exist exactly when the body is an object whose three fields all convert,
   * and the exception is a ValueError exactly when the first field that does
   * not convert is a string `float` rejects.
   */
  lemma ParseOutcome(body: Body)
    ensures ParseRequest(body).Inputs? <==>
      body.JsonObject? && Converts(body.request.principal) &&
      Converts(body.request.annualRate) && Converts(body.request.tenureYears)
    ensures ParseRequest(body).ParseFault? && ParseRequest(body).fault == ValueError <==>
      body.JsonObject? &&
      var req := body.request;
      (req.principal.NonNumeric? ||
       (Converts(req.principal) &&
        (req.annualRate.NonNumeric? || (Converts(req.annualRate) && req.tenureYears.NonNumeric?))))
  {
  }

  /** The message the handler's `except` clauses give an exception. */
  function FaultMessage(fault: Fault): string
  {
    match fault
    case ValueError => NotNumericMessage
    case TypeError => CalculationMessage
    case OtherError => CalculationMessage
  }

  /** Python's `int(x)` on a float: truncation toward zero. */
  function Trunc(x: real): (n: int)
    ensures x >= 0.0 ==> 0 <= n && n as real <= x < n as real + 1.0
    ensures x < 0.0 ==> n <= 0 && n as real - 1.0 < x <= n as real
  {
    if x >= 0.0 then x.Floor else -((-x).Floor)
  }

  /** `annual_rate / 12 / 100`. */
  function MonthlyRate(annualRate: real): real
  {
    annualRate / 12.0 / 100.0
  }

  /** The validation of app.py: every value strictly positive. */
  predicate AllPositive(p: Parsed)
    requires p.Inputs?
  {
    p.principal > 0.0 && p.annualRate > 0.0 && p.tenureYears > 0.0
  }

  /** The growth factor is one exactly when the term has no months. */
  lemma {:induction false} GrowthIsOneIff(rate: real, months: nat)
    requires rate > 0.0
    ensures Pow(1.0 + rate, months) - 1.0 == 0.0 <==> months == 0
  {
    if months >= 1 {
      PowAboveOne(1.0 + rate, months);
    }
  }

  /**
   * The month-by-month loop of the handler: the schedule of `months` months
   * for a loan of `principal` at `monthlyRate` per month paid by `emi`.
   */
  method BuildSchedule(principal: real, monthlyRate: real, emi: real, tenureMonths: nat)
    returns (schedule: seq<Row>)
    ensures schedule == Rows(principal, monthlyRate, emi, tenureMonths)
    ensures |schedule| == tenureMonths
    ensures Amortizes(principal, monthlyRate, emi, schedule)
  {
    schedule := [];
    var remaining := principal;
    var interestPaid := 0.0;
    var principalPaid := 0.0;

    var month := 1;
    while month <= tenureMonths
      invariant 1 <= month <= tenureMonths + 1
      invariant schedule == Rows(principal, monthlyRate, emi, month - 1)
      invariant remaining == BalanceAfter(principal, schedule)
      invariant interestPaid == InterestPaidAfter(schedule)
      invariant principalPaid == PrincipalPaidAfter(schedule)
    {
      var interestPayment := remaining * monthlyRate;
      assert interestPayment == NextRow(principal, monthlyRate, emi, schedule).interest;
      var principalPayment := emi - interestPayment;
      remaining := remaining - principalPayment;
      if remaining < 0.0 {
        principalPayment := principalPayment + remaining;
        remaining := 0.0;
      }
      interestPaid := interestPaid + interestPayment;
      principalPaid := principalPaid + principalPayment;
      var row := Row(month, emi, principalPayment, interestPayment, remaining,
                     interestPaid, principalPaid);
      assert row == NextRow(principal, monthlyRate, emi, schedule);
      schedule := schedule + [row];
      month := month + 1;
    }

    RowsAmortize(principal, monthlyRate, emi, tenureMonths);
  }

  /**
   * What a success response for a valid loan carries: the loan, the month
   * count, the annuity installment, the totals, and the schedule of every
   * month, which repays the loan: its final balance is zero, its principal
   * components add up to the loan and its interest components to the total
   * interest.
   */
  ghost predicate Computed(loan: real, rate: real, n: int, res: Response)
  {
    && rate > 0.0 && n >= 1
    && res.Success?
    && res.principal == loan
    && res.tenureMonths == n
    && res.emi == Installment(loan, rate, n)
    && res.totalAmount == res.emi * (n as real)
    && res.totalInterest == res.totalAmount - loan
    && |res.schedule| == n
    && res.schedule == Rows(loan, rate, res.emi, n)
    && Amortizes(loan, rate, res.emi, res.schedule)
    && RepaysLoan(loan, res.emi, res.schedule)
  }

  /** The success response built from the loop's schedule satisfies Computed. */
  lemma SuccessComputed(loan: real, rate: real, n: nat, emi: real, schedule: seq<Row>)
    requires loan > 0.0 && rate > 0.0 && n >= 1
    requires emi == Installment(loan, rate, n)
    requires schedule == Rows(loan, rate, emi, n)
    requires Amortizes(loan, rate, emi, schedule)
    ensures Computed(loan, rate, n, Success(emi, emi * (n as real), emi * (n as real) - loan, loan, n, schedule))
  {
    ScheduleRepaysLoan(loan, rate, n);
    assert RepaysLoan(loan, emi, schedule);
  }

  /**
   * The annuity branch of the handler for a term of at least one month: the
   * installment, the totals and the schedule, in a success response.
   */
  method Annuity(principal: real, monthlyRate: real, tenureMonths: nat) returns (res: Response)
    requires principal > 0.0 && monthlyRate > 0.0 && tenureMonths >= 1
    ensures Computed(principal, monthlyRate, tenureMonths, res)
  {
    var emi := Installment(principal, monthlyRate, tenureMonths);

    var totalAmount := emi * tenureMonths as real;
    var totalInterest := totalAmount - principal;

    var schedule := BuildSchedule(principal, monthlyRate, emi, tenureMonths);
    SuccessComputed(principal, monthlyRate, tenureMonths, emi, schedule);
    res := Success(emi, totalAmount, totalInterest, principal, tenureMonths, schedule);
  }

  /**
   * The calculation of the handler once the inputs are positive: a term
   * shorter than one month makes the annuity denominator zero and gives the
   * generic failure; otherwise the success response of Computed.
   */
  method Compute(principal: real, annualRate: real, tenureYears: real) returns (res: Response)
    requires principal > 0.0 && annualRate > 0.0 && tenureYears > 0.0
    ensures Trunc(tenureYears * 12.0) == 0 ==> res == Failure(CalculationMessage)
    ensures Trunc(tenureYears * 12.0) >= 1 ==>
              Computed(principal, MonthlyRate(annualRate), Trunc(tenureYears * 12.0), res)
  {
    var monthlyRate := MonthlyRate(annualRate);
    var tenureMonths := Trunc(tenureYears * 12.0);

    // Over exact reals the straight-line branch for a zero monthly rate cannot be
    // taken once the annual rate is positive.
    assert monthlyRate != 0.0;
    var growth := Pow(1.0 + monthlyRate, tenureMonths);
    GrowthIsOneIff(monthlyRate, tenureMonths);
    if growth - 1.0 == 0.0 {
      // ZeroDivisionError, caught by the generic handler
      return Failure(CalculationMessage);
    }
    res := Annuity(principal, monthlyRate, tenureMonths);
  }

  /**
   * The handler. A conversion exception, a value that is not positive, and a
   * term shorter than one month (its annuity denominator is zero) give the
   * failure responses; otherwise the response carries the installment, the
   * totals and the schedule, whose final balance is zero.
   */
  method CalculateEmi(body: Body) returns (res: Response)
    ensures ParseRequest(body).ParseFault? && ParseRequest(body).fault == ValueError ==>
              res == Failure(NotNumericMessage)
    ensures ParseRequest(body).ParseFault? && ParseRequest(body).fault != ValueError ==>
              res == Failure(CalculationMessage)
    ensures ParseRequest(body).Inputs? && !AllPositive(ParseRequest(body)) ==>
              res == Failure(NotPositiveMessage)
    ensures ParseRequest(body).Inputs? && AllPositive(ParseRequest(body)) &&
            Trunc(ParseRequest(body).tenureYears * 12.0) == 0 ==>
              res == Failure(CalculationMessage)
    ensures ParseRequest(body).Inputs? && AllPositive(ParseRequest(body)) &&
            Trunc(ParseRequest(body).tenureYears * 12.0) >= 1 ==>
              Computed(ParseRequest(body).principal, MonthlyRate(ParseRequest(body).annualRate),
                       Trunc(ParseRequest(body).tenureYears * 12.0), res)
  {
    var parsed := ParseRequest(body);
    if parsed.ParseFault? {
      return Failure(FaultMessage(parsed.fault));
    }
    var principal, annualRate, tenureYears := parsed.principal, parsed.annualRate, parsed.tenureYears;

    if principal <= 0.0 || annualRate <= 0.0 || tenureYears <= 0.0 {
      return Failure(NotPositiveMessage);
    }

    res := Compute(principal, annualRate, tenureYears);
  }
}
