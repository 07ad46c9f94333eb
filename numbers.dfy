/**
  The numbers that reach the loan validator and calculator: Python's
  `decimal.Decimal` (finite values only) and Python's `float`.

  A `Decimal` is kept the way `Decimal.as_tuple()` presents it, a coefficient
  and a power of ten, so that `1000`, `1000.0` and `1000.00` are three distinct
  representations of one value. The precision that a `condecimal` field
  measures (its number of digits and of decimal places) is computed on the
  normalized representation, with trailing zeros stripped.
*/
module Numbers {

  /** The finite decimal `coefficient * 10^exponent` (the sign is carried by the coefficient). */
  datatype Decimal = Decimal(coefficient: int, exponent: int)

  /** A non-integer Python number: a `Decimal`, or a `float` whose value is taken exactly. */
  datatype Number = DecimalNumber(d: Decimal) | FloatNumber(x: real)

  function Abs(c: int): (a: nat)
    ensures a == c || a == -c
  {
    if c < 0 then -c else c
  }

  function Max(a: nat, b: nat): (m: nat)
    ensures m >= a && m >= b && (m == a || m == b)
  {
    if a < b then b else a
  }

  function Pow10(k: nat): (p: nat)
    ensures p >= 1
  {
    if k == 0 then 1 else 10 * Pow10(k - 1)
  }

  lemma {:induction false} Pow10Add(a: nat, b: nat)
    ensures Pow10(a + b) == Pow10(a) * Pow10(b)
  {
    if a > 0 {
      Pow10Add(a - 1, b);
      calc {
        Pow10(a + b);
        10 * Pow10(a - 1 + b);
        10 * (Pow10(a - 1) * Pow10(b));
        (10 * Pow10(a - 1)) * Pow10(b);
      }
    }
  }

  lemma Pow10Monotone(a: nat, b: nat)
    requires a <= b
    ensures Pow10(a) <= Pow10(b)
  {
    Pow10Add(a, b - a);
  }

  /** The exact value a decimal denotes. */
  function Value(d: Decimal): real
  {
    if d.exponent >= 0 then (d.coefficient * Pow10(d.exponent)) as real
    else d.coefficient as real / Pow10(-d.exponent) as real
  }

  function NumberValue(n: Number): real
  {
    match n
    case DecimalNumber(d) => Value(d)
    case FloatNumber(x) => x
  }

  lemma CastMul(x: int, y: int)
    ensures (x * y) as real == x as real * y as real
  {}

  lemma DivLe(x: real, p: real, y: real)
    requires p > 0.0
    ensures x / p <= y <==> x <= y * p
  {}

  lemma DivTen(x: real, p: real)
    requires p > 0.0
    ensures (10.0 * x) / (10.0 * p) == x / p
  {}

  /** Dropping one trailing zero of the coefficient and raising the exponent keeps the value. */
  lemma ValueShift(d: Decimal)
    requires d.coefficient % 10 == 0
    ensures Value(Decimal(d.coefficient / 10, d.exponent + 1)) == Value(d)
  {
    var c, e := d.coefficient / 10, d.exponent;
    assert d.coefficient == 10 * c;
    if e >= 0 {
      calc {
        c * Pow10(e + 1);
        c * (10 * Pow10(e));
        (10 * c) * Pow10(e);
      }
    } else if e < -1 {
      var p := Pow10(-e - 1);
      assert Pow10(-e) == 10 * p;
      DivTen(c as real, p as real);
    }
  }

  /** A Decimal with no trailing zero in its coefficient; zero is `0E0`. */
  predicate IsNormalized(d: Decimal)
  {
    if d.coefficient == 0 then d.exponent == 0 else d.coefficient % 10 != 0
  }

  /** `Decimal.normalize()`: strip trailing zeros of the coefficient. Python first rounds to the
      context's 28 significant digits; this model keeps every digit, so the two agree on
      decimals of at most 28 significant digits. */
  function Normalize(d: Decimal): (n: Decimal)
    ensures IsNormalized(n)
    ensures Value(n) == Value(d)
    ensures d.coefficient != 0 ==>
      n.exponent >= d.exponent && d.coefficient == n.coefficient * Pow10(n.exponent - d.exponent)
    decreases Abs(d.coefficient)
  {
    if d.coefficient == 0 then Decimal(0, 0)
    else if d.coefficient % 10 == 0 then
      var m := Decimal(d.coefficient / 10, d.exponent + 1);
      ValueShift(d);
      var n := Normalize(m);
      ShiftedCoefficient(d.coefficient, m.coefficient, n.coefficient, n.exponent - m.exponent);
      n
    else d
  }

  lemma ShiftedCoefficient(c: int, c1: int, c2: int, k: nat)
    requires c == 10 * c1 && c1 == c2 * Pow10(k)
    ensures c == c2 * Pow10(k + 1)
  {
    calc {
      c;
      10 * (c2 * Pow10(k));
      c2 * (10 * Pow10(k));
    }
  }

  /** Number of decimal digits of a natural number; zero has the one digit `0`. */
  function NumDigits(c: nat): (k: nat)
    ensures k >= 1
  {
    if c < 10 then 1 else 1 + NumDigits(c / 10)
  }

  lemma {:induction false} NumDigitsBelow(c: nat, k: nat)
    requires k >= 1
    ensures NumDigits(c) <= k <==> c < Pow10(k)
  {
    Pow10Monotone(1, k);
    if c >= 10 && k >= 2 {
      NumDigitsBelow(c / 10, k - 1);
    }
  }

  /** How many digits a decimal has in all, and how many of them follow the point. */
  datatype Precision = Precision(digits: nat, places: nat)

  /** The digit count and decimal places that a `condecimal` field checks: those of the
      normalized value, where a numeral with more places than coefficient digits
      counts its leading zeros after the point as digits. */
  function PrecisionOf(d: Decimal): (p: Precision)
    ensures p.places <= p.digits
    ensures p.digits >= 1
  {
    var n := Normalize(d);
    var len := NumDigits(Abs(n.coefficient));
    if n.exponent >= 0 then Precision(len + n.exponent, 0)
    else Precision(Max(len, -n.exponent), -n.exponent)
  }

  /** The magnitude of a decimal's value. */
  function Magnitude(d: Decimal): (v: real)
    ensures v >= 0.0 && (v == Value(d) || v == -Value(d))
  {
    if Value(d) < 0.0 then -Value(d) else Value(d)
  }

  /** The digits a `condecimal` field counts, for every decimal: at most m digits exactly when
      the decimal places fit in m and the magnitude stays below 10^(m - places). */
  lemma DigitsExact(d: Decimal, m: nat)
    requires m >= 1
    ensures PrecisionOf(d).digits <= m <==>
      PrecisionOf(d).places <= m && Magnitude(d) < Pow10(m - PrecisionOf(d).places) as real
  {
    var n := Normalize(d);
    DigitsCriterion(n.coefficient, n.exponent, Value(d), PrecisionOf(d), Magnitude(d), m);
  }

  /** The case analysis behind DigitsExact, on the parts of the normalized decimal. */
  lemma DigitsCriterion(c: int, e: int, v: real, p: Precision, mag: real, m: nat)
    requires m >= 1
    requires c == 0 ==> e == 0
    requires v == Value(Decimal(c, e))
    requires mag == (if v < 0.0 then -v else v)
    requires p == if e >= 0 then Precision(NumDigits(Abs(c)) + e, 0)
                  else Precision(Max(NumDigits(Abs(c)), -e), -e)
    ensures p.digits <= m <==> p.places <= m && mag < Pow10(m - p.places) as real
  {
    if c != 0 {
      if e >= 0 {
        WholeMagnitude(c, e, v);
        WholeDigits(Abs(c), e, m);
      } else {
        var j: nat := -e;
        FractionMagnitude(c, j, v);
        FractionDigits(Abs(c), j, m);
      }
    }
  }

  lemma WholeMagnitude(c: int, e: nat, v: real)
    requires v == (c * Pow10(e)) as real
    ensures (if v < 0.0 then -v else v) == (Abs(c) * Pow10(e)) as real
  {
    var p := Pow10(e);
    if c < 0 {
      assert Abs(c) * p == -(c * p);
    }
  }

  lemma FractionMagnitude(c: int, j: nat, v: real)
    requires v == c as real / Pow10(j) as real
    ensures (if v < 0.0 then -v else v) == Abs(c) as real / Pow10(j) as real
  {}

  /** A whole number c * 10^e (c >= 1) has at most m digits exactly when it is below 10^m. */
  lemma WholeDigits(c: nat, e: nat, m: nat)
    requires c >= 1 && m >= 1
    ensures NumDigits(c) + e <= m <==> (c * Pow10(e)) as real < Pow10(m) as real
  {
    var p := Pow10(e);
    if e < m {
      var q := Pow10(m - e);
      Pow10Add(e, m - e);
      NumDigitsBelow(c, m - e);
      ScaleLess(c, q, p, Pow10(m));
    } else {
      Pow10Monotone(m, e);
      MulAtLeast(c, p);
    }
  }

  /** c / 10^j with j places has at most max(digits of c, j) <= m digits exactly when j <= m
      and it stays below 10^(m - j). */
  lemma FractionDigits(c: nat, j: nat, m: nat)
    requires m >= 1
    ensures Max(NumDigits(c), j) <= m <==>
      j <= m && c as real / Pow10(j) as real < Pow10(m - j) as real
  {
    NumDigitsBelow(c, m);
    if j <= m {
      var p, q := Pow10(j), Pow10(m - j);
      Pow10Add(m - j, j);
      QuotientBelow(c, p, q, Pow10(m));
    }
  }

  lemma QuotientBelow(c: nat, p: nat, q: nat, pq: nat)
    requires p >= 1 && pq == q * p
    ensures c as real / p as real < q as real <==> c < pq
  {
    CastMul(q, p);
    DivLess(c as real, p as real, q as real);
  }

  lemma ScaleLess(c: nat, q: nat, p: nat, pq: nat)
    requires p >= 1 && pq == p * q
    ensures c < q <==> c * p < pq
  {
    if c < q {
      MulLess(c, q, p);
    } else {
      MulAtLeastBy(c, q, p);
    }
  }

  lemma MulAtLeastBy(x: nat, y: nat, p: nat)
    requires x >= y
    ensures x * p >= y * p
  {}

  lemma DivLess(x: real, p: real, y: real)
    requires p > 0.0
    ensures x / p < y <==> x < y * p
  {}

  /** 10^m divides c. */
  predicate DivisibleByPow10(c: int, m: nat)
    decreases m
  {
    m == 0 || (c % 10 == 0 && DivisibleByPow10(c / 10, m - 1))
  }

  /** coefficient * 10^(exponent + k) is a whole number: k digits after the point are enough. */
  predicate HasAtMostPlaces(d: Decimal, k: nat)
  {
    d.exponent + k >= 0 || DivisibleByPow10(d.coefficient, -(d.exponent + k))
  }

  lemma {:induction false} ZeroDivisible(m: nat)
    ensures DivisibleByPow10(0, m)
  {
    if m > 0 {
      ZeroDivisible(m - 1);
    }
  }

  lemma {:induction false} PlacesOfNormalize(d: Decimal, k: nat)
    ensures HasAtMostPlaces(d, k) <==> HasAtMostPlaces(Normalize(d), k)
    decreases Abs(d.coefficient)
  {
    if d.coefficient == 0 {
      if d.exponent + k < 0 {
        ZeroDivisible(-(d.exponent + k));
      }
    } else if d.coefficient % 10 == 0 {
      var m := Decimal(d.coefficient / 10, d.exponent + 1);
      PlacesOfNormalize(m, k);
      if d.exponent + k < 0 {
        var j: nat := -(d.exponent + k);
        assert DivisibleByPow10(d.coefficient, j) == DivisibleByPow10(m.coefficient, j - 1);
        if j > 1 {
          assert -(m.exponent + k) == j - 1;
        }
      }
    }
  }

  /** Counted decimal places stay within k exactly when k places suffice for the value. */
  lemma PlacesExact(d: Decimal, k: nat)
    ensures PrecisionOf(d).places <= k <==> HasAtMostPlaces(d, k)
  {
    PlacesOfNormalize(d, k);
  }

  lemma MulAtLeast(c: int, p: nat)
    requires c >= 1
    ensures c * p >= p
  {}

  lemma MulBelow(c: int, a: nat, b: nat, ab: nat)
    requires a > 0 && c * a < ab && ab == a * b
    ensures c < b
  {}

  lemma MulLess(x: nat, y: nat, p: nat)
    requires x < y && p > 0
    ensures x * p < y * p
  {}

  /** A positive coefficient times 10^e that stays below 10^w has at most w - e digits. */
  lemma DigitsOfWhole(c: nat, e: nat, w: nat, bound: nat)
    requires c >= 1 && w >= 1
    requires c * Pow10(e) <= bound < Pow10(w)
    ensures NumDigits(c) + e <= w
  {
    if e >= w {
      Pow10Monotone(w, e);
      MulAtLeast(c, Pow10(e));
      assert false;
    }
    Pow10Add(e, w - e);
    MulBelow(c, Pow10(e), Pow10(w - e), Pow10(w));
    NumDigitsBelow(c, w - e);
  }

  /** A coefficient over 10^j that stays within bound < 10^w has at most w + j digits. */
  lemma DigitsOfFraction(c: nat, j: nat, w: nat, bound: nat)
    requires w >= 1
    requires c as real / Pow10(j) as real <= bound as real
    requires bound < Pow10(w)
    ensures NumDigits(c) <= w + j
  {
    var pj := Pow10(j);
    DivLe(c as real, pj as real, bound as real);
    CastMul(bound, pj);
    Pow10Add(w, j);
    MulLess(bound, Pow10(w), pj);
    NumDigitsBelow(c, w + j);
  }

  lemma NonNegativeFraction(c: int, j: nat)
    requires c as real / Pow10(j) as real >= 0.0
    ensures c >= 0
  {
  }

  /** Once the value lies in [0, bound] with at most `places` decimals and bound has fewer
      than maxDigits - places whole digits, neither the total digit limit nor the whole digit
      limit can fail. */
  lemma DigitLimitsImplied(d: Decimal, maxDigits: nat, places: nat, bound: nat)
    requires places < maxDigits
    requires bound < Pow10(maxDigits - places)
    requires 0.0 <= Value(d) <= bound as real
    requires HasAtMostPlaces(d, places)
    ensures PrecisionOf(d).digits <= maxDigits
    ensures PrecisionOf(d).digits - PrecisionOf(d).places <= maxDigits - places
  {
    PlacesExact(d, places);
    var n := Normalize(d);
    var c, e := n.coefficient, n.exponent;
    if c != 0 {
      if e >= 0 {
        DigitsOfWhole(c, e, maxDigits - places, bound);
      } else {
        NonNegativeFraction(c, -e);
        DigitsOfFraction(c, -e, maxDigits - places, bound);
      }
    }
  }
}
