/**
  `calculate_monthly_payment` of main.py over exact real numbers, and what its
  result means: the level monthly payment that pays a loan off in full.

  The function converts the annual percentage rate to a monthly fraction, counts
  the monthly payments, divides the principal evenly when the rate is zero, and
  otherwise applies the annuity formula `A * r * (1 + r)^n / ((1 + r)^n - 1)`.
  Its divisions by zero, which a caller outside the validated ranges could reach,
  are kept as an error result.
*/
module Payment {
  import opened Wrappers

  /** Python raises on a division by zero, and on a negative power of a float zero. */
  datatype ArithError = DivisionByZero

  function Pow(x: real, n: nat): real
  {
    if n == 0 then 1.0 else x * Pow(x, n - 1)
  }

  lemma {:induction false} PowPositive(x: real, n: nat)
    requires x > 0.0
    ensures Pow(x, n) > 0.0
  {
    if n > 0 {
      PowPositive(x, n - 1);
      MulPositive(x, Pow(x, n - 1));
    }
  }

  lemma {:induction false} PowNonZero(x: real, n: nat)
    requires x != 0.0
    ensures Pow(x, n) != 0.0
  {
    if n > 0 {
      PowNonZero(x, n - 1);
      MulNonZero(x, Pow(x, n - 1));
    }
  }

  lemma {:induction false} PowOfOne(n: nat)
    ensures Pow(1.0, n) == 1.0
  {
    if n > 0 {
      PowOfOne(n - 1);
    }
  }

  lemma {:induction false} PowAdd(x: real, m: nat, n: nat)
    ensures Pow(x, m + n) == Pow(x, m) * Pow(x, n)
  {
    if m > 0 {
      PowAdd(x, m - 1, n);
      assert Pow(x, m + n) == x * Pow(x, m - 1 + n);
    }
  }

  /** Raising to a power n >= 1 is strictly increasing on the positive reals. */
  lemma {:induction false} PowStrictlyIncreasing(x: real, y: real, n: nat)
    requires 0.0 < x < y && n >= 1
    ensures Pow(x, n) < Pow(y, n)
  {
    if n > 1 {
      PowStrictlyIncreasing(x, y, n - 1);
      PowPositive(x, n - 1);
      MulStrict(x, Pow(x, n - 1), y, Pow(y, n - 1));
    }
  }

  lemma MulPositive(a: real, b: real)
    requires a > 0.0 && b > 0.0
    ensures a * b > 0.0
  {}

  lemma MulNonZero(a: real, b: real)
    requires a != 0.0 && b != 0.0
    ensures a * b != 0.0
  {}

  lemma MulStrict(a: real, b: real, c: real, d: real)
    requires 0.0 < a < c && 0.0 < b < d
    ensures a * b < c * d
  {}

  /** `x ** k` for a float base and an integer exponent: a natural power is the repeated product,
      a negative power is the reciprocal, and a negative power of zero fails. */
  function IntPow(x: real, k: int): (r: Result<real, ArithError>)
    ensures r.Err? <==> k < 0 && x == 0.0
    ensures k >= 0 ==> r == Ok(Pow(x, k))
    ensures r.Ok? && k < 0 ==> r.value * Pow(x, -k) == 1.0
  {
    if k >= 0 then Ok(Pow(x, k))
    else if x == 0.0 then Err(DivisionByZero)
    else
      PowNonZero(x, -k);
      Ok(1.0 / Pow(x, -k))
  }

  /** The annual percentage rate as a monthly fraction. */
  function MonthlyRate(annualRate: real): (r: real)
    ensures 0.0 <= annualRate <= 10.0 ==> 0.0 <= r <= 1.0 / 120.0
    ensures r == 0.0 <==> annualRate == 0.0
    ensures r > 0.0 <==> annualRate > 0.0
  {
    annualRate / 100.0 / 12.0
  }

  function NumberOfPayments(years: int): (n: int)
    ensures 1 <= years <= 20 ==> 12 <= n <= 240
    ensures n == 0 <==> years == 0
  {
    years * 12
  }

  /** `calculate_monthly_payment(loan_amount, annual_interest_rate, years)` over exact reals. */
  function MonthlyPayment(loanAmount: real, annualRate: real, years: int): Result<real, ArithError>
  {
    var r := MonthlyRate(annualRate);
    var n := NumberOfPayments(years);
    if r == 0.0 then
      if n == 0 then Err(DivisionByZero) else Ok(loanAmount / n as real)
    else
      match IntPow(1.0 + r, n)
      case Err(e) => Err(e)
      case Ok(g) =>
        if g - 1.0 == 0.0 then Err(DivisionByZero)
        else Ok(Annuity(loanAmount, r, g))
  }

  /** The annuity formula `A * r * g / (g - 1)`, where g is the growth factor over the whole term. */
  function Annuity(loanAmount: real, r: real, g: real): real
    requires g - 1.0 != 0.0
  {
    loanAmount * (r * g) / (g - 1.0)
  }

  /** The sum of x^-k for k = 1..n: what n payments of 1 are worth today when money grows by the
      factor x every month. */
  function AnnuityFactor(x: real, n: nat): (f: real)
    requires x > 0.0
    ensures n >= 1 ==> f > 0.0
    ensures f >= 0.0
  {
    if n == 0 then 0.0
    else
      PowPositive(x, n);
      AnnuityFactor(x, n - 1) + 1.0 / Pow(x, n)
  }

  lemma {:induction false} AnnuityFactorAtOne(n: nat)
    ensures AnnuityFactor(1.0, n) == n as real
  {
    if n > 0 {
      AnnuityFactorAtOne(n - 1);
      PowOfOne(n);
    }
  }

  /** The geometric sum in closed form: f * (x - 1) * x^n == x^n - 1. */
  lemma {:induction false} AnnuityFactorClosedForm(x: real, n: nat)
    requires x > 0.0
    ensures AnnuityFactor(x, n) * (x - 1.0) * Pow(x, n) == Pow(x, n) - 1.0
  {
    if n > 0 {
      AnnuityFactorClosedForm(x, n - 1);
      ClosedFormMonth(x, n);
    }
  }

  lemma ClosedFormMonth(x: real, n: nat)
    requires x > 0.0 && n > 0
    requires AnnuityFactor(x, n - 1) * (x - 1.0) * Pow(x, n - 1) == Pow(x, n - 1) - 1.0
    ensures AnnuityFactor(x, n) * (x - 1.0) * Pow(x, n) == Pow(x, n) - 1.0
  {
    PowPositive(x, n);
    ClosedFormStep(x, AnnuityFactor(x, n - 1), Pow(x, n - 1), Pow(x, n));
  }

  lemma ClosedFormStep(x: real, f: real, g: real, g1: real)
    requires g1 == x * g && g1 > 0.0
    requires f * (x - 1.0) * g == g - 1.0
    ensures (f + 1.0 / g1) * (x - 1.0) * g1 == g1 - 1.0
  {
    calc {
      (f + 1.0 / g1) * (x - 1.0) * g1;
      f * (x - 1.0) * g1 + (1.0 / g1) * g1 * (x - 1.0);
      x * (f * (x - 1.0) * g) + (x - 1.0);
      x * (g - 1.0) + (x - 1.0);
    }
  }

  /** One more month adds a strictly positive term. */
  lemma {:induction false} AnnuityFactorIncreasing(x: real, m: nat, n: nat)
    requires x > 0.0 && m < n
    ensures AnnuityFactor(x, m) < AnnuityFactor(x, n)
  {
    PowPositive(x, n);
    if m < n - 1 {
      AnnuityFactorIncreasing(x, m, n - 1);
    }
  }

  /** A larger growth factor discounts every payment more. */
  lemma {:induction false} AnnuityFactorDecreasing(x: real, y: real, n: nat)
    requires 0.0 < x < y && n >= 1
    ensures AnnuityFactor(y, n) < AnnuityFactor(x, n)
  {
    PowStrictlyIncreasing(x, y, n);
    PowPositive(x, n);
    ReciprocalDecreasing(Pow(x, n), Pow(y, n));
    if n > 1 {
      AnnuityFactorDecreasing(x, y, n - 1);
    }
  }

  lemma ReciprocalDecreasing(a: real, b: real)
    requires 0.0 < a < b
    ensures 1.0 / b < 1.0 / a
  {}

  lemma FormulaIsQuotient(a: real, r: real, g: real, f: real)
    requires f > 0.0 && g > 0.0 && r != 0.0 && g - 1.0 == f * r * g
    ensures g - 1.0 != 0.0
    ensures Annuity(a, r, g) == a / f
  {
    MulNonZero(r, g);
    MulNonZero(f, r * g);
    CancelCommon(a, r * g, f, g - 1.0);
  }

  lemma CancelCommon(a: real, s: real, f: real, d: real)
    requires s != 0.0 && f != 0.0 && d == f * s
    ensures (a * s) / d == a / f
  {}

  /** For at least one year and a rate above -1200% a year, both branches of the source compute
      the same thing: the principal divided by the annuity factor of the monthly rate. */
  lemma MonthlyPaymentIsLevelAnnuity(loanAmount: real, annualRate: real, years: int)
    requires years >= 1 && annualRate > -1200.0
    ensures 1.0 + MonthlyRate(annualRate) > 0.0
    ensures MonthlyPayment(loanAmount, annualRate, years)
      == Ok(loanAmount / AnnuityFactor(1.0 + MonthlyRate(annualRate), NumberOfPayments(years)))
  {
    var r := MonthlyRate(annualRate);
    var n := NumberOfPayments(years);
    var x := 1.0 + r;
    if r == 0.0 {
      AnnuityFactorAtOne(n);
    } else {
      PowPositive(x, n);
      AnnuityFactorClosedForm(x, n);
      var f, g := AnnuityFactor(x, n), Pow(x, n);
      assert g - 1.0 == f * r * g;
      FormulaIsQuotient(loanAmount, r, g, f);
      FormulaBranch(loanAmount, annualRate, years);
    }
  }

  /** At a zero rate the principal is split evenly over the payments; with no payment at all
      the division fails. */
  lemma ZeroRatePayment(loanAmount: real, years: int)
    ensures MonthlyPayment(loanAmount, 0.0, years) ==
      if years == 0 then Err(DivisionByZero) else Ok(loanAmount / (years * 12) as real)
  {}

  /** At a positive rate the annuity formula's denominator is positive and the formula is used. */
  lemma AnnuityDenominatorPositive(loanAmount: real, annualRate: real, years: int)
    requires annualRate > 0.0 && years >= 1
    ensures Pow(1.0 + MonthlyRate(annualRate), NumberOfPayments(years)) - 1.0 > 0.0
    ensures
      var r := MonthlyRate(annualRate);
      var g := Pow(1.0 + r, NumberOfPayments(years));
      MonthlyPayment(loanAmount, annualRate, years) == Ok(Annuity(loanAmount, r, g))
  {
    var r := MonthlyRate(annualRate);
    var n := NumberOfPayments(years);
    var g := Pow(1.0 + r, n);
    PowStrictlyIncreasing(1.0, 1.0 + r, n);
    PowOfOne(n);
    assert g - 1.0 > 0.0;
    FormulaBranch(loanAmount, annualRate, years);
  }

  /** At a nonzero monthly rate and a term of whole months the power is defined, and the
      annuity formula is returned unless its denominator vanishes. */
  lemma FormulaBranch(loanAmount: real, annualRate: real, years: int)
    requires years >= 0 && MonthlyRate(annualRate) != 0.0
    ensures
      var r := MonthlyRate(annualRate);
      var g := Pow(1.0 + r, NumberOfPayments(years));
      MonthlyPayment(loanAmount, annualRate, years)
        == if g - 1.0 == 0.0 then Err(DivisionByZero) else Ok(Annuity(loanAmount, r, g))
  {
  }

  /** A positive principal gives a positive payment. */
  lemma PaymentPositive(loanAmount: real, annualRate: real, years: int)
    requires loanAmount > 0.0 && years >= 1 && annualRate > -1200.0
    ensures MonthlyPayment(loanAmount, annualRate, years).Ok?
    ensures MonthlyPayment(loanAmount, annualRate, years).value > 0.0
  {
    MonthlyPaymentIsLevelAnnuity(loanAmount, annualRate, years);
  }

  /** The payment is proportional to the principal. */
  lemma PaymentLinearInPrincipal(k: real, loanAmount: real, annualRate: real, years: int)
    requires years >= 1 && annualRate > -1200.0
    ensures MonthlyPayment(loanAmount, annualRate, years).Ok?
    ensures MonthlyPayment(k * loanAmount, annualRate, years).Ok?
    ensures MonthlyPayment(k * loanAmount, annualRate, years).value
      == k * MonthlyPayment(loanAmount, annualRate, years).value
  {
    var f := AnnuityFactor(1.0 + MonthlyRate(annualRate), NumberOfPayments(years));
    MonthlyPaymentIsLevelAnnuity(loanAmount, annualRate, years);
    MonthlyPaymentIsLevelAnnuity(k * loanAmount, annualRate, years);
    ScaleQuotient(k, loanAmount, f, MonthlyPayment(loanAmount, annualRate, years),
      MonthlyPayment(k * loanAmount, annualRate, years));
  }

  lemma ScaleQuotient(k: real, a: real, f: real, p: Result<real, ArithError>, kp: Result<real, ArithError>)
    requires f != 0.0 && p == Ok(a / f) && kp == Ok((k * a) / f)
    ensures kp == Ok(k * p.value)
  {
    assert kp.value == (k * a) / f;
    ScaleDiv(k, a, f);
    MulEqual(k, p.value, a / f);
    assert kp.value == k * p.value;
  }

  lemma MulEqual(k: real, x: real, y: real)
    requires x == y
    ensures k * x == k * y
  {}

  lemma ScaleDiv(k: real, a: real, f: real)
    requires f != 0.0
    ensures (k * a) / f == k * (a / f)
  {}

  /** A larger principal gives a strictly larger payment. */
  lemma PaymentIncreasesWithPrincipal(a1: real, a2: real, annualRate: real, years: int)
    requires a1 < a2 && years >= 1 && annualRate > -1200.0
    ensures MonthlyPayment(a1, annualRate, years).Ok? && MonthlyPayment(a2, annualRate, years).Ok?
    ensures MonthlyPayment(a1, annualRate, years).value < MonthlyPayment(a2, annualRate, years).value
  {
    var f := AnnuityFactor(1.0 + MonthlyRate(annualRate), NumberOfPayments(years));
    var p1 := MonthlyPayment(a1, annualRate, years);
    var p2 := MonthlyPayment(a2, annualRate, years);
    MonthlyPaymentIsLevelAnnuity(a1, annualRate, years);
    MonthlyPaymentIsLevelAnnuity(a2, annualRate, years);
    DivideSmaller(a1, a2, f);
    assert p1.value == a1 / f && p2.value == a2 / f;
  }

  lemma DivideSmaller(a1: real, a2: real, f: real)
    requires a1 < a2 && f > 0.0
    ensures a1 / f < a2 / f
  {}

  /** A longer term gives a strictly smaller payment on a positive principal. */
  lemma PaymentDecreasesWithYears(loanAmount: real, annualRate: real, y1: int, y2: int)
    requires loanAmount > 0.0 && 1 <= y1 < y2 && annualRate > -1200.0
    ensures MonthlyPayment(loanAmount, annualRate, y1).Ok? && MonthlyPayment(loanAmount, annualRate, y2).Ok?
    ensures MonthlyPayment(loanAmount, annualRate, y2).value < MonthlyPayment(loanAmount, annualRate, y1).value
  {
    MonthlyPaymentIsLevelAnnuity(loanAmount, annualRate, y1);
    MonthlyPaymentIsLevelAnnuity(loanAmount, annualRate, y2);
    var x := 1.0 + MonthlyRate(annualRate);
    AnnuityFactorIncreasing(x, NumberOfPayments(y1), NumberOfPayments(y2));
    DivideByLarger(loanAmount, AnnuityFactor(x, NumberOfPayments(y1)), AnnuityFactor(x, NumberOfPayments(y2)));
  }

  /** A higher rate gives a strictly larger payment on a positive principal. */
  lemma PaymentIncreasesWithRate(loanAmount: real, rate1: real, rate2: real, years: int)
    requires loanAmount > 0.0 && -1200.0 < rate1 < rate2 && years >= 1
    ensures MonthlyPayment(loanAmount, rate1, years).Ok? && MonthlyPayment(loanAmount, rate2, years).Ok?
    ensures MonthlyPayment(loanAmount, rate1, years).value < MonthlyPayment(loanAmount, rate2, years).value
  {
    MonthlyPaymentIsLevelAnnuity(loanAmount, rate1, years);
    MonthlyPaymentIsLevelAnnuity(loanAmount, rate2, years);
    var n := NumberOfPayments(years);
    var x1, x2 := 1.0 + MonthlyRate(rate1), 1.0 + MonthlyRate(rate2);
    AnnuityFactorDecreasing(x1, x2, n);
    DivideByLarger(loanAmount, AnnuityFactor(x2, n), AnnuityFactor(x1, n));
  }

  lemma DivideByLarger(a: real, f1: real, f2: real)
    requires a > 0.0 && 0.0 < f1 < f2
    ensures a / f2 < a / f1
  {}

  /** What is still owed after k monthly payments: every month the balance grows by the monthly
      rate r, then the payment is deducted. */
  function Balance(principal: real, r: real, payment: real, k: nat): real
  {
    if k == 0 then principal else Balance(principal, r, payment, k - 1) * (1.0 + r) - payment
  }

  /** What k monthly payments of 1 have grown to when money grows by the factor x every month. */
  function Accumulation(x: real, k: nat): real
  {
    if k == 0 then 0.0 else Accumulation(x, k - 1) * x + 1.0
  }

  /** After k months the principal has grown by (1 + r)^k and the payments by their accumulation. */
  lemma {:induction false} BalanceClosedForm(principal: real, r: real, payment: real, k: nat)
    ensures Balance(principal, r, payment, k)
      == principal * Pow(1.0 + r, k) - payment * Accumulation(1.0 + r, k)
  {
    if k > 0 {
      BalanceClosedForm(principal, r, payment, k - 1);
      BalanceMonth(principal, r, payment, k);
    }
  }

  /** One month of the closed form: if it holds after k - 1 months it holds after k. */
  lemma BalanceMonth(principal: real, r: real, payment: real, k: nat)
    requires k > 0
    requires Balance(principal, r, payment, k - 1)
      == principal * Pow(1.0 + r, k - 1) - payment * Accumulation(1.0 + r, k - 1)
    ensures Balance(principal, r, payment, k)
      == principal * Pow(1.0 + r, k) - payment * Accumulation(1.0 + r, k)
  {
    var x := 1.0 + r;
    BalanceStep(x, Pow(x, k - 1), Pow(x, k), Accumulation(x, k - 1), Accumulation(x, k), principal, payment,
      Balance(principal, r, payment, k - 1), Balance(principal, r, payment, k));
  }

  lemma BalanceStep(x: real, g: real, g1: real, s: real, s1: real, a: real, p: real, b: real, b1: real)
    requires g1 == x * g && s1 == s * x + 1.0
    requires b == a * g - p * s && b1 == b * x - p
    ensures b1 == a * g1 - p * s1
  {}

  lemma {:induction false} AccumulationPositive(x: real, n: nat)
    requires x > 0.0 && n >= 1
    ensures Accumulation(x, n) > 0.0
  {
    if n > 1 {
      AccumulationPositive(x, n - 1);
      MulPositive(Accumulation(x, n - 1), x);
    }
  }

  lemma {:induction false} AccumulationAtOne(n: nat)
    ensures Accumulation(1.0, n) == n as real
  {
    if n > 0 {
      AccumulationAtOne(n - 1);
    }
  }

  /** The geometric sum in closed form: s * (x - 1) == x^n - 1. */
  lemma {:induction false} AccumulationClosedForm(x: real, n: nat)
    ensures Accumulation(x, n) * (x - 1.0) == Pow(x, n) - 1.0
  {
    if n > 0 {
      AccumulationClosedForm(x, n - 1);
      AccumulationStep(x, Pow(x, n - 1), Pow(x, n), Accumulation(x, n - 1), Accumulation(x, n));
    }
  }

  lemma AccumulationStep(x: real, g: real, g1: real, s: real, s1: real)
    requires g1 == x * g && s1 == s * x + 1.0 && s * (x - 1.0) == g - 1.0
    ensures s1 * (x - 1.0) == g1 - 1.0
  {
    calc {
      s1 * (x - 1.0);
      x * (s * (x - 1.0)) + (x - 1.0);
      x * (g - 1.0) + (x - 1.0);
    }
  }

  /** The computed payment is the one and only level payment that leaves nothing owing after
      the last month: the loan is fully amortized. */
  lemma PaymentRetiresLoan(loanAmount: real, annualRate: real, years: int, q: real)
    requires years >= 1 && annualRate > -1200.0
    ensures MonthlyPayment(loanAmount, annualRate, years).Ok?
    ensures Balance(loanAmount, MonthlyRate(annualRate), q, NumberOfPayments(years)) == 0.0
      <==> q == MonthlyPayment(loanAmount, annualRate, years).value
  {
    if MonthlyRate(annualRate) == 0.0 {
      RetiresAtZeroRate(loanAmount, annualRate, years, q);
    } else {
      RetiresAtNonzeroRate(loanAmount, annualRate, years, q);
    }
  }

  lemma RetiresAtZeroRate(loanAmount: real, annualRate: real, years: int, q: real)
    requires years >= 1 && MonthlyRate(annualRate) == 0.0
    ensures MonthlyPayment(loanAmount, annualRate, years).Ok?
    ensures Balance(loanAmount, MonthlyRate(annualRate), q, NumberOfPayments(years)) == 0.0
      <==> q == MonthlyPayment(loanAmount, annualRate, years).value
  {
    var r, n := MonthlyRate(annualRate), NumberOfPayments(years);
    BalanceClosedForm(loanAmount, r, q, n);
    PowOfOne(n);
    AccumulationAtOne(n);
    EvenSplitRetires(loanAmount, q, n as real, Balance(loanAmount, r, q, n), Pow(1.0 + r, n), Accumulation(1.0 + r, n));
    assert MonthlyPayment(loanAmount, annualRate, years) == Ok(loanAmount / n as real);
  }

  lemma EvenSplitRetires(a: real, q: real, n: real, b: real, g: real, s: real)
    requires n > 0.0 && g == 1.0 && s == n && b == a * g - q * s
    ensures b == 0.0 <==> q == a / n
  {}

  lemma RetiresAtNonzeroRate(loanAmount: real, annualRate: real, years: int, q: real)
    requires years >= 1 && annualRate > -1200.0 && MonthlyRate(annualRate) != 0.0
    ensures MonthlyPayment(loanAmount, annualRate, years).Ok?
    ensures Balance(loanAmount, MonthlyRate(annualRate), q, NumberOfPayments(years)) == 0.0
      <==> q == MonthlyPayment(loanAmount, annualRate, years).value
  {
    var r, n := MonthlyRate(annualRate), NumberOfPayments(years);
    var x := 1.0 + r;
    var g, s := Pow(x, n), Accumulation(x, n);
    BalanceClosedForm(loanAmount, r, q, n);
    AccumulationClosedForm(x, n);
    AccumulationPositive(x, n);
    FormulaRetires(loanAmount, r, g, s, q, Balance(loanAmount, r, q, n));
    FormulaBranch(loanAmount, annualRate, years);
  }

  lemma FormulaRetires(a: real, r: real, g: real, s: real, q: real, b: real)
    requires s > 0.0 && r != 0.0 && s * r == g - 1.0 && b == a * g - q * s
    ensures g - 1.0 != 0.0
    ensures b == 0.0 <==> q == Annuity(a, r, g)
  {
    MulNonZero(s, r);
    CancelCommon(a * g, r, s, g - 1.0);
    assert Annuity(a, r, g) == (a * g) / s;
    if b == 0.0 {
      assert q * s == a * g;
    }
  }

  /** 10000 at 5% a year over 5 years: 60 payments of 188.71 and a fraction of a cent. */
  lemma TypicalLoan()
    ensures MonthlyPayment(10000.0, 5.0, 5).Ok?
    ensures 188.71 < MonthlyPayment(10000.0, 5.0, 5).value < 188.72
  {
    var r := MonthlyRate(5.0);
    assert r == 1.0 / 240.0;
    GrowthOverFiveYears();
    var g := Pow(1.0 + r, 60);
    FormulaBranch(10000.0, 5.0, 5);
    QuotientBounds(10000.0 * (r * g), g - 1.0, 188.71, 188.72);
  }

  /** (241/240)^60 by repeated squaring. */
  lemma GrowthOverFiveYears()
    ensures 1.28335 < Pow(241.0 / 240.0, 60) < 1.28336
  {
    var x := 241.0 / 240.0;
    assert Pow(x, 1) == x;
    PowAdd(x, 1, 1);
    PowAdd(x, 2, 2);
    PowAdd(x, 4, 4);
    PowAdd(x, 8, 8);
    PowAdd(x, 16, 16);
    PowAdd(x, 32, 16);
    PowAdd(x, 48, 8);
    PowAdd(x, 56, 4);
  }

  lemma QuotientBounds(a: real, d: real, lo: real, hi: real)
    requires d > 0.0 && lo * d < a < hi * d
    ensures lo < a / d < hi
  {}
}
