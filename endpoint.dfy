/**
  The `/calculate_loan/` handler of main.py as a validate-then-compute pipeline:
  the body is validated into a `LoanRequest`, and `calculate_monthly_payment` is
  called with its amount, its rate and its term.

  The calculator receives Python numbers of two kinds. The validated amount is
  always a `Decimal`; the rate is a `Decimal` when the client sends one, and the
  field's default otherwise. Python refuses to multiply a `Decimal` by a `float`
  (a `TypeError`), and that is what happens with the default `5.0`, a float
  literal that is never validated: every request without an interest rate fails.
*/
module Endpoint {
  import opened Wrappers
  import opened Numbers
  import opened Validation
  import opened Payment

  /** The exceptions `calculate_monthly_payment` can raise on validated or unvalidated input. */
  datatype PyException =
    | TypeError          // a Decimal multiplied by a float
    | ZeroDivisionError  // a division by zero, or zero raised to a negative power

  /** Why a request produced no payment: rejected by validation, or an exception in the handler. */
  datatype Failure = Invalid(errors: seq<FieldError>) | Raised(exception: PyException)

  /** A Decimal and a float meet in one arithmetic operation. */
  predicate MixesKinds(a: Number, b: Number)
  {
    a.DecimalNumber? != b.DecimalNumber?
  }

  /** `calculate_monthly_payment` on Python numbers. Only the annuity branch multiplies the
      amount by a value computed from the rate; the power is computed before that product. */
  function CalculateMonthlyPayment(loanAmount: Number, annualRate: Number, years: int): (r: Result<real, PyException>)
    ensures r.Ok? ==> MonthlyPayment(NumberValue(loanAmount), NumberValue(annualRate), years) == Ok(r.value)
    ensures r == Err(TypeError) ==> MixesKinds(loanAmount, annualRate)
    ensures MixesKinds(loanAmount, annualRate) && MonthlyRate(NumberValue(annualRate)) != 0.0 && years >= 0 ==>
      r == Err(TypeError)
    ensures !MixesKinds(loanAmount, annualRate) || MonthlyRate(NumberValue(annualRate)) == 0.0 ==>
      (r.Ok? <==> MonthlyPayment(NumberValue(loanAmount), NumberValue(annualRate), years).Ok?)
    ensures MonthlyRate(NumberValue(annualRate)) == 0.0 ==> r != Err(TypeError)
  {
    var rate := NumberValue(annualRate);
    var m := MonthlyRate(rate);
    if m != 0.0 && IntPow(1.0 + m, NumberOfPayments(years)).Ok? && MixesKinds(loanAmount, annualRate) then
      Err(TypeError)
    else
      match MonthlyPayment(NumberValue(loanAmount), rate, years)
      case Ok(p) => Ok(p)
      case Err(_) => Err(ZeroDivisionError)
  }

  /** The handler, with the interest rate an omitted field takes as a parameter. */
  function CalculateLoanWith(body: RequestBody, defaultRate: Number): Result<real, Failure>
  {
    match Validate(body, defaultRate)
    case Err(errors) => Err(Invalid(errors))
    case Ok(req) =>
      match CalculateMonthlyPayment(DecimalNumber(req.loanAmount), req.interestRate, req.yearsToRepay)
      case Ok(p) => Ok(p)
      case Err(e) => Err(Raised(e))
  }

  /** The handler as written: the omitted rate is the float `5.0`. */
  function CalculateLoanAsWritten(body: RequestBody): Result<real, Failure>
  {
    CalculateLoanWith(body, DeclaredDefaultRate)
  }

  /** The default the field evidently intends: the decimal 5.0, which passes its own constraints. */
  const IntendedDefaultRate: Number := DecimalNumber(Decimal(50, -1))

  /** The handler with a `Decimal` default. */
  function CalculateLoan(body: RequestBody): Result<real, Failure>
  {
    CalculateLoanWith(body, IntendedDefaultRate)
  }

  /** The annual rate a body is computed with: its own, or 5 when omitted. */
  function RateOf(body: RequestBody): real
  {
    match body.interestRate
    case None => 5.0
    case Some(d) => Value(d)
  }

  /** Both defaults are the number 5; the intended one also meets the field's own constraint. */
  lemma DefaultRateIsFive()
    ensures NumberValue(DeclaredDefaultRate) == 5.0 && DeclaredDefaultRate.FloatNumber?
    ensures NumberValue(IntendedDefaultRate) == 5.0 && IntendedDefaultRate.DecimalNumber?
    ensures CheckDecimal(IntendedDefaultRate.d, InterestRateBounds) == None
  {
    assert Normalize(Decimal(50, -1)) == Decimal(5, 0);
  }

  /** An accepted request has between 12 and 240 monthly payments and a monthly rate in
      [0, 1/120] that is zero exactly when the annual rate is; so the even split divides by a
      positive count. */
  lemma AcceptedRequestBounds(body: RequestBody)
    requires Valid(body)
    ensures 12 <= NumberOfPayments(body.yearsToRepay) <= 240
    ensures 0.0 <= RateOf(body) <= 10.0
    ensures 0.0 <= MonthlyRate(RateOf(body)) <= 1.0 / 120.0
    ensures MonthlyRate(RateOf(body)) == 0.0 <==> RateOf(body) == 0.0
  {
    assert FieldOk(body, YearsToRepay);
    assert FieldOk(body, InterestRate);
  }

  /** What a validated request is computed with, under any default. */
  lemma ValidatedArguments(body: RequestBody, defaultRate: Number)
    requires Valid(body)
    ensures Validate(body, defaultRate).Ok?
    ensures Validate(body, defaultRate).value
      == LoanRequest(body.age, body.loanAmount, body.yearsToRepay,
           if body.interestRate.Some? then DecimalNumber(body.interestRate.value) else defaultRate)
  {
    ValidateExact(body, defaultRate);
  }

  /** As written, every valid request that omits the interest rate raises a TypeError. */
  lemma OmittedRateRaisesTypeError(body: RequestBody)
    requires Valid(body) && body.interestRate.None?
    ensures CalculateLoanAsWritten(body) == Err(Raised(TypeError))
  {
    ValidatedArguments(body, DeclaredDefaultRate);
    var n := NumberOfPayments(body.yearsToRepay);
    AcceptedRequestBounds(body);
    assert MonthlyRate(NumberValue(DeclaredDefaultRate)) != 0.0;
    assert IntPow(1.0 + MonthlyRate(5.0), n).Ok?;
  }

  /** With the rate given, the declared default plays no part: both handlers agree. */
  lemma DefaultIrrelevantWhenRateGiven(body: RequestBody, d1: Number, d2: Number)
    requires body.interestRate.Some?
    ensures CalculateLoanWith(body, d1) == CalculateLoanWith(body, d2)
  {}

  /** A valid body whose amount and rate are both decimals is priced by the exact formula. */
  lemma DecimalArgumentsComputePayment(body: RequestBody)
    requires Valid(body)
    ensures CalculateLoan(body).Ok?
    ensures MonthlyPayment(Value(body.loanAmount), RateOf(body), body.yearsToRepay) == Ok(CalculateLoan(body).value)
  {
    ValidatedArguments(body, IntendedDefaultRate);
    DefaultRateIsFive();
    AcceptedRequestBounds(body);
    assert FieldOk(body, LoanAmount);
    MonthlyPaymentIsLevelAnnuity(Value(body.loanAmount), RateOf(body), body.yearsToRepay);
  }

  /** With the decimal default the handler never raises: it prices exactly the valid bodies,
      with a positive payment given by the exact formula at the request's own numbers, and
      rejects every other body naming exactly the fields that fail. */
  lemma CalculateLoanExact(body: RequestBody)
    ensures CalculateLoan(body).Ok? <==> Valid(body)
    ensures CalculateLoan(body).Ok? ==>
      && CalculateLoan(body).value > 0.0
      && MonthlyPayment(Value(body.loanAmount), RateOf(body), body.yearsToRepay) == Ok(CalculateLoan(body).value)
    ensures CalculateLoan(body).Err? ==>
      && CalculateLoan(body).error.Invalid?
      && forall f: Field :: f in ErrorFields(CalculateLoan(body).error.errors) <==> !FieldOk(body, f)
  {
    ValidateExact(body, IntendedDefaultRate);
    if Valid(body) {
      DecimalArgumentsComputePayment(body);
      AcceptedRequestBounds(body);
      assert FieldOk(body, LoanAmount);
      PaymentPositive(Value(body.loanAmount), RateOf(body), body.yearsToRepay);
    }
  }

  /** The payment returned for a valid body is the one level payment that leaves nothing owing
      after the last of its months. */
  lemma CalculatedPaymentRetiresLoan(body: RequestBody, q: real)
    requires Valid(body)
    ensures 1 <= body.yearsToRepay
    ensures CalculateLoan(body).Ok?
    ensures Balance(Value(body.loanAmount), MonthlyRate(RateOf(body)), q, NumberOfPayments(body.yearsToRepay)) == 0.0
      <==> q == CalculateLoan(body).value
  {
    assert FieldOk(body, YearsToRepay);
    AcceptedRequestBounds(body);
    DecimalArgumentsComputePayment(body);
    PaymentRetiresLoan(Value(body.loanAmount), RateOf(body), body.yearsToRepay, q);
  }

  /** A body that breaks exactly one field's constraint is rejected with exactly one error, for
      that field and the constraint its check reports. */
  lemma SingleViolationRejects(body: RequestBody, f: Field)
    requires !FieldOk(body, f)
    requires forall g: Field :: g != f ==> FieldOk(body, g)
    ensures CheckField(body, f).Some?
    ensures CalculateLoan(body) == Err(Invalid([FieldError(f, CheckField(body, f).value)]))
  {
    CheckFieldExact(body, Age);
    CheckFieldExact(body, LoanAmount);
    CheckFieldExact(body, YearsToRepay);
    CheckFieldExact(body, InterestRate);
    assert Errors(body) == [FieldError(f, CheckField(body, f).value)];
  }

  /** A valid body at a zero rate splits its principal evenly over the months, whichever default
      is declared. */
  lemma ZeroRateRequest(body: RequestBody)
    requires Valid(body) && body.interestRate.Some? && Value(body.interestRate.value) == 0.0
    ensures 1 <= body.yearsToRepay
    ensures CalculateLoan(body) == Ok(Value(body.loanAmount) / (body.yearsToRepay * 12) as real)
    ensures CalculateLoanAsWritten(body) == CalculateLoan(body)
  {
    assert FieldOk(body, YearsToRepay);
    DecimalArgumentsComputePayment(body);
    ZeroRatePayment(Value(body.loanAmount), body.yearsToRepay);
    DefaultIrrelevantWhenRateGiven(body, DeclaredDefaultRate, IntendedDefaultRate);
  }

  /** 10000 over 5 years with the rate omitted: the corrected handler charges the default 5%,
      188.71 and a fraction of a cent a month, where the handler as written raises. */
  lemma TypicalRequestWithoutRate(body: RequestBody)
    requires Valid(body) && Value(body.loanAmount) == 10000.0 && body.yearsToRepay == 5 && body.interestRate.None?
    ensures CalculateLoan(body).Ok? && 188.71 < CalculateLoan(body).value < 188.72
    ensures CalculateLoanAsWritten(body) == Err(Raised(TypeError))
  {
    DecimalArgumentsComputePayment(body);
    TypicalLoan();
    OmittedRateRaisesTypeError(body);
  }

  /** The checks at the edges of each range, stepping one unit of the last allowed place out. */
  lemma BoundaryChecks()
    ensures CheckInt(17, AgeBounds) == Some(GreaterThanEqual) && CheckInt(18, AgeBounds) == None
    ensures CheckInt(31, AgeBounds) == Some(LessThanEqual) && CheckInt(30, AgeBounds) == None
    ensures CheckInt(0, YearsToRepayBounds) == Some(GreaterThanEqual) && CheckInt(1, YearsToRepayBounds) == None
    ensures CheckInt(21, YearsToRepayBounds) == Some(LessThanEqual) && CheckInt(20, YearsToRepayBounds) == None
    ensures CheckDecimal(Decimal(99999, -2), LoanAmountBounds) == Some(GreaterThanEqual)
    ensures CheckDecimal(Decimal(5000001, -2), LoanAmountBounds) == Some(LessThanEqual)
    ensures CheckDecimal(Decimal(1001, -2), InterestRateBounds) == Some(LessThanEqual)
  {
    assert Normalize(Decimal(99999, -2)) == Decimal(99999, -2);
    assert Normalize(Decimal(5000001, -2)) == Decimal(5000001, -2);
    assert Normalize(Decimal(1001, -2)) == Decimal(1001, -2);
  }

  /** The digit limits are checked before the range: a thousandth is one place too many even
      inside the range. */
  lemma TooManyPlaces()
    ensures CheckDecimal(Decimal(1000001, -3), LoanAmountBounds) == Some(DecimalMaxPlaces)
  {
    assert Normalize(Decimal(1000001, -3)) == Decimal(1000001, -3);
  }

  /** 100000 has six whole digits where five are allowed, and this is reported instead of the
      upper bound. */
  lemma TooManyWholeDigits()
    ensures CheckDecimal(Decimal(100000, 0), LoanAmountBounds) == Some(DecimalWholeDigits)
  {
    WholeDigitsOfHundredThousand();
  }

  lemma WholeDigitsOfHundredThousand()
    ensures PrecisionOf(Decimal(100000, 0)) == Precision(6, 0)
  {
    assert Normalize(Decimal(10, 4)) == Decimal(1, 5);
    assert Normalize(Decimal(1000, 2)) == Decimal(1, 5);
    assert Normalize(Decimal(100000, 0)) == Decimal(1, 5);
  }

  /** 12345678 has eight digits where seven are allowed. */
  lemma TooManyDigits()
    ensures CheckDecimal(Decimal(12345678, 0), LoanAmountBounds) == Some(DecimalMaxDigits)
  {
    assert Normalize(Decimal(12345678, 0)) == Decimal(12345678, 0);
  }

  /** Trailing zeros do not count: 50000.0 is accepted as 5E+4. */
  lemma TrailingZerosIgnored()
    ensures CheckDecimal(Decimal(500000, -1), LoanAmountBounds) == None
  {
    DigitLimitsNeverBind(Decimal(500000, -1));
    assert Value(Decimal(500000, -1)) == 50000.0;
  }
}
