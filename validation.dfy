/**
  The `LoanRequest` model of main.py: four bounded fields, declared as a table of
  `conint`/`condecimal` constraints, and the check that a request body meets them.

  The check reports every field that fails, each with the one constraint it broke,
  and only a body that passes every field becomes a `LoanRequest`. An omitted
  interest rate takes the field's declared default, which is not itself checked.
*/
module Validation {
  import opened Wrappers
  import opened Numbers

  datatype Field = Age | LoanAmount | YearsToRepay | InterestRate

  /** The constraint a field value can break, one per kind of validation error. */
  datatype Constraint =
    | GreaterThanEqual     // below the `ge` bound
    | LessThanEqual        // above the `le` bound
    | DecimalMaxDigits     // more than `max_digits` digits in all
    | DecimalMaxPlaces     // more than `decimal_places` digits after the point
    | DecimalWholeDigits   // more than `max_digits - decimal_places` digits before the point

  datatype FieldError = FieldError(field: Field, broken: Constraint)

  /** `conint(ge=.., le=..)` */
  datatype IntBounds = IntBounds(ge: int, le: int)

  /** `condecimal(ge=.., le=.., max_digits=.., decimal_places=..)` */
  datatype DecimalBounds = DecimalBounds(ge: int, le: int, maxDigits: nat, decimalPlaces: nat)

  const AgeBounds := IntBounds(18, 30)
  const LoanAmountBounds := DecimalBounds(1000, 50000, 7, 2)
  const YearsToRepayBounds := IntBounds(1, 20)
  const InterestRateBounds := DecimalBounds(0, 10, 4, 2)

  /** The default written for `interest_rate`: the float literal `5.0`. */
  const DeclaredDefaultRate: Number := FloatNumber(5.0)

  /** The body of a request with its values already typed; `None` when interest_rate is omitted. */
  datatype RequestBody = RequestBody(age: int, loanAmount: Decimal, yearsToRepay: int, interestRate: Option<Decimal>)

  /** A validated `LoanRequest` instance. */
  datatype LoanRequest = LoanRequest(age: int, loanAmount: Decimal, yearsToRepay: int, interestRate: Number)

  /** The check of a `conint` field: the bound it breaks, if any. */
  function CheckInt(v: int, b: IntBounds): (r: Option<Constraint>)
    ensures r == None <==> b.ge <= v <= b.le
    ensures r == Some(LessThanEqual) ==> v > b.le
    ensures r == Some(GreaterThanEqual) ==> v < b.ge
    ensures r == None || r == Some(LessThanEqual) || r == Some(GreaterThanEqual)
  {
    if v > b.le then Some(LessThanEqual)
    else if v < b.ge then Some(GreaterThanEqual)
    else None
  }

  /** The check of a `condecimal` field: digit count, decimal places and whole digits of the
      normalized value first, then the bounds; the first constraint broken, if any. */
  function CheckDecimal(d: Decimal, b: DecimalBounds): (r: Option<Constraint>)
    ensures r == None ==> b.ge as real <= Value(d) <= b.le as real && HasAtMostPlaces(d, b.decimalPlaces)
    ensures r == Some(DecimalMaxPlaces) ==> !HasAtMostPlaces(d, b.decimalPlaces)
    ensures r == Some(LessThanEqual) ==> Value(d) > b.le as real
    ensures r == Some(GreaterThanEqual) ==> Value(d) < b.ge as real
  {
    var p := PrecisionOf(d);
    var maxWholeDigits := if b.decimalPlaces <= b.maxDigits then b.maxDigits - b.decimalPlaces else 0;
    PlacesExact(d, b.decimalPlaces);
    if p.digits > b.maxDigits then Some(DecimalMaxDigits)
    else if p.places > b.decimalPlaces then Some(DecimalMaxPlaces)
    else if p.digits - p.places > maxWholeDigits then Some(DecimalWholeDigits)
    else if Value(d) > b.le as real then Some(LessThanEqual)
    else if Value(d) < b.ge as real then Some(GreaterThanEqual)
    else None
  }

  /** Within bounds whose upper end has fewer whole digits than the field allows, the digit
      limits never reject a value that has few enough decimal places: the bounds and the
      place limit decide alone. */
  lemma CheckDecimalExact(d: Decimal, b: DecimalBounds)
    requires 0 <= b.ge && b.decimalPlaces < b.maxDigits && b.le < Pow10(b.maxDigits - b.decimalPlaces)
    ensures CheckDecimal(d, b) == None <==>
      b.ge as real <= Value(d) <= b.le as real && HasAtMostPlaces(d, b.decimalPlaces)
  {
    if b.ge as real <= Value(d) <= b.le as real && HasAtMostPlaces(d, b.decimalPlaces) {
      DigitLimitsImplied(d, b.maxDigits, b.decimalPlaces, b.le);
      PlacesExact(d, b.decimalPlaces);
    }
  }

  /** A digit-count report is sound: too many digits means the places alone exceed the limit or
      the magnitude needs more digits than are left; too many whole digits means the magnitude
      reaches 10^(max_digits - decimal_places). */
  lemma DigitErrorsSound(d: Decimal, b: DecimalBounds)
    requires b.decimalPlaces < b.maxDigits
    ensures CheckDecimal(d, b) == Some(DecimalMaxDigits) ==>
      PrecisionOf(d).places > b.maxDigits || Magnitude(d) >= Pow10(b.maxDigits - PrecisionOf(d).places) as real
    ensures CheckDecimal(d, b) == Some(DecimalWholeDigits) ==>
      Magnitude(d) >= Pow10(b.maxDigits - b.decimalPlaces) as real
  {
    var p := PrecisionOf(d);
    DigitsExact(d, b.maxDigits);
    if p.places <= b.decimalPlaces {
      DigitsExact(d, b.maxDigits - b.decimalPlaces + p.places);
    }
  }

  /** Both decimal fields of the table are of that kind: 50000.00 and 10.00 fit their digit limits. */
  lemma DigitLimitsNeverBind(d: Decimal)
    ensures CheckDecimal(d, LoanAmountBounds) == None <==>
      1000.0 <= Value(d) <= 50000.0 && HasAtMostPlaces(d, 2)
    ensures CheckDecimal(d, InterestRateBounds) == None <==>
      0.0 <= Value(d) <= 10.0 && HasAtMostPlaces(d, 2)
  {
    assert Pow10(5) == 100000;
    assert Pow10(2) == 100;
    CheckDecimalExact(d, LoanAmountBounds);
    CheckDecimalExact(d, InterestRateBounds);
  }

  /** The check that applies to one field of a body; an omitted interest rate is not checked. */
  function CheckField(body: RequestBody, f: Field): Option<Constraint>
  {
    match f
    case Age => CheckInt(body.age, AgeBounds)
    case LoanAmount => CheckDecimal(body.loanAmount, LoanAmountBounds)
    case YearsToRepay => CheckInt(body.yearsToRepay, YearsToRepayBounds)
    case InterestRate =>
      match body.interestRate
      case None => None
      case Some(d) => CheckDecimal(d, InterestRateBounds)
  }

  function Report(body: RequestBody, f: Field): (e: seq<FieldError>)
    ensures |e| <= 1
    ensures forall x | x in e :: x.field == f && CheckField(body, f) == Some(x.broken)
  {
    match CheckField(body, f)
    case None => []
    case Some(c) => [FieldError(f, c)]
  }

  /** The errors of a body, one per failing field, in the order the fields are declared. */
  function Errors(body: RequestBody): seq<FieldError>
  {
    Report(body, Age) + Report(body, LoanAmount) + Report(body, YearsToRepay) + Report(body, InterestRate)
  }

  /** Validate a body into a `LoanRequest`, filling an omitted interest rate with `defaultRate`. */
  function Validate(body: RequestBody, defaultRate: Number): Result<LoanRequest, seq<FieldError>>
  {
    var errors := Errors(body);
    if errors != [] then Err(errors)
    else
      var rate := match body.interestRate
        case None => defaultRate
        case Some(d) => DecimalNumber(d);
      Ok(LoanRequest(body.age, body.loanAmount, body.yearsToRepay, rate))
  }

  /** The field's stated constraint, in the units a reader would use. */
  predicate FieldOk(body: RequestBody, f: Field)
  {
    match f
    case Age => 18 <= body.age <= 30
    case LoanAmount => 1000.0 <= Value(body.loanAmount) <= 50000.0 && HasAtMostPlaces(body.loanAmount, 2)
    case YearsToRepay => 1 <= body.yearsToRepay <= 20
    case InterestRate =>
      match body.interestRate
      case None => true
      case Some(d) => 0.0 <= Value(d) <= 10.0 && HasAtMostPlaces(d, 2)
  }

  predicate Valid(body: RequestBody)
  {
    forall f: Field :: FieldOk(body, f)
  }

  function ErrorFields(errors: seq<FieldError>): set<Field>
  {
    set i | 0 <= i < |errors| :: errors[i].field
  }

  /** A field's check passes exactly when the field meets its stated constraint. */
  lemma CheckFieldExact(body: RequestBody, f: Field)
    ensures CheckField(body, f) == None <==> FieldOk(body, f)
  {
    match f
    case LoanAmount => DigitLimitsNeverBind(body.loanAmount);
    case InterestRate =>
      if body.interestRate.Some? {
        DigitLimitsNeverBind(body.interestRate.value);
      }
    case _ =>
  }

  /** The reported fields are exactly the fields that break their constraint. */
  lemma ErrorsNameFailingFields(body: RequestBody, f: Field)
    ensures f in ErrorFields(Errors(body)) <==> !FieldOk(body, f)
  {
    CheckFieldExact(body, f);
    var a, l, y, r := Report(body, Age), Report(body, LoanAmount), Report(body, YearsToRepay), Report(body, InterestRate);
    ErrorFieldsAppend(a, l);
    ErrorFieldsAppend(a + l, y);
    ErrorFieldsAppend(a + l + y, r);
    assert ErrorFields(Errors(body)) == ErrorFields(a) + ErrorFields(l) + ErrorFields(y) + ErrorFields(r);
    ReportFields(body, Age);
    ReportFields(body, LoanAmount);
    ReportFields(body, YearsToRepay);
    ReportFields(body, InterestRate);
  }

  /** Each reported error names the constraint its field's check reports. */
  lemma ErrorsCarryBrokenConstraint(body: RequestBody)
    ensures forall e | e in Errors(body) :: CheckField(body, e.field) == Some(e.broken)
  {
    forall e | e in Errors(body) ensures CheckField(body, e.field) == Some(e.broken) {
      var f :| e in Report(body, f);
    }
  }

  /** No field is reported twice. */
  lemma OneErrorPerField(body: RequestBody)
    ensures |Errors(body)| == |ErrorFields(Errors(body))|
  {
    var a, l, y, r := Report(body, Age), Report(body, LoanAmount), Report(body, YearsToRepay), Report(body, InterestRate);
    FieldsOfReports(a, l, y, r);
  }

  /** At most one error for each field in turn: as many fields as errors. */
  lemma FieldsOfReports(a: seq<FieldError>, l: seq<FieldError>, y: seq<FieldError>, r: seq<FieldError>)
    requires |a| <= 1 && forall e | e in a :: e.field == Age
    requires |l| <= 1 && forall e | e in l :: e.field == LoanAmount
    requires |y| <= 1 && forall e | e in y :: e.field == YearsToRepay
    requires |r| <= 1 && forall e | e in r :: e.field == InterestRate
    ensures |a + l + y + r| == |ErrorFields(a + l + y + r)|
  {
    SingleFields(a, Age);
    SingleFields(l, LoanAmount);
    SingleFields(y, YearsToRepay);
    SingleFields(r, InterestRate);
    ErrorFieldsAppend(a, l);
    ErrorFieldsAppend(a + l, y);
    ErrorFieldsAppend(a + l + y, r);
    var A, L, Y, R := ErrorFields(a), ErrorFields(l), ErrorFields(y), ErrorFields(r);
    DisjointUnion(A, L);
    DisjointUnion(A + L, Y);
    DisjointUnion(A + L + Y, R);
  }

  lemma SingleFields(s: seq<FieldError>, f: Field)
    requires |s| <= 1 && forall e | e in s :: e.field == f
    ensures ErrorFields(s) <= {f} && |ErrorFields(s)| == |s|
  {
    if |s| == 1 {
      assert s[0] in s;
      assert ErrorFields(s) == {f};
    } else {
      assert ErrorFields(s) == {};
    }
  }

  lemma DisjointUnion(A: set<Field>, B: set<Field>)
    requires A * B == {}
    ensures |A + B| == |A| + |B|
  {}

  lemma ReportFields(body: RequestBody, f: Field)
    ensures ErrorFields(Report(body, f)) == if CheckField(body, f).Some? then {f} else {}
  {
    if CheckField(body, f).Some? {
      assert Report(body, f)[0].field == f;
    }
  }

  lemma ErrorFieldsAppend(s: seq<FieldError>, t: seq<FieldError>)
    ensures ErrorFields(s + t) == ErrorFields(s) + ErrorFields(t)
  {
    var u := s + t;
    forall f | f in ErrorFields(u) ensures f in ErrorFields(s) + ErrorFields(t) {
      var i :| 0 <= i < |u| && u[i].field == f;
      if i >= |s| {
        assert t[i - |s|].field == f;
      }
    }
    forall f | f in ErrorFields(s) + ErrorFields(t) ensures f in ErrorFields(u) {
      if f in ErrorFields(s) {
        var i :| 0 <= i < |s| && s[i].field == f;
        assert u[i].field == f;
      } else {
        var i :| 0 <= i < |t| && t[i].field == f;
        assert u[|s| + i].field == f;
      }
    }
  }

  /** A body is accepted exactly when every field meets its constraint; an accepted body keeps
      its values, and an omitted rate becomes the default. A rejected body names each failing
      field. */
  lemma ValidateExact(body: RequestBody, defaultRate: Number)
    ensures Validate(body, defaultRate).Ok? <==> Valid(body)
    ensures Validate(body, defaultRate).Ok? ==>
      var req := Validate(body, defaultRate).value;
      && req.age == body.age && req.loanAmount == body.loanAmount && req.yearsToRepay == body.yearsToRepay
      && req.interestRate == (if body.interestRate.Some? then DecimalNumber(body.interestRate.value) else defaultRate)
    ensures Validate(body, defaultRate).Err? ==>
      forall f: Field :: f in ErrorFields(Validate(body, defaultRate).error) <==> !FieldOk(body, f)
    ensures Validate(body, defaultRate).Err? ==>
      forall e | e in Validate(body, defaultRate).error :: CheckField(body, e.field) == Some(e.broken)
    ensures Validate(body, defaultRate).Err? ==>
      |Validate(body, defaultRate).error| == |ErrorFields(Validate(body, defaultRate).error)|
  {
    forall f: Field ensures f in ErrorFields(Errors(body)) <==> !FieldOk(body, f) {
      ErrorsNameFailingFields(body, f);
    }
    ErrorsCarryBrokenConstraint(body);
    OneErrorPerField(body);
    if Errors(body) == [] {
      assert ErrorFields(Errors(body)) == {};
    } else {
      assert Errors(body)[0].field in ErrorFields(Errors(body));
    }
  }
}
