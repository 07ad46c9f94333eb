# Student loan payments: a verified model

The service takes a loan request (the borrower's age, the amount, the term in
years and an optional annual interest rate), checks it against the constraints
of its `LoanRequest` model, and returns the level monthly payment that
`calculate_monthly_payment` computes with the annuity formula.

The model has four modules over a small `Wrappers` module (`Option`, `Result`):

- `Numbers` (numbers.dfy). Python's `Decimal` is modelled as a coefficient and a
  power of ten, so `1000`, `1000.0` and `1000.00` are different representations
  of one value. Python's `float` is modelled by its exact value. The module also
  holds `Numbers.PrecisionOf`, the digit and decimal-place measure that a
  `condecimal` field checks on the normalized value. `Numbers.DigitsExact` and
  `Numbers.PlacesExact` describe what it counts.
- `Validation` (validation.dfy). The constraint table of `LoanRequest`: two
  `conint` fields, two `condecimal` fields and the default of `interest_rate`.
  It has the per-field check and `Validation.Validate`, the model of the
  table check, which either builds a `LoanRequest` or lists one error per
  failing field. `Valid` is the same
  table stated in plain ranges. The lemmas prove that `Validate` succeeds
  exactly on valid bodies. They also prove that the digit limits
  (`max_digits=7` and `max_digits=4`) never reject a value that the range and
  the two-place limit admit.
- `Payment` (payment.dfy). `Payment.MonthlyPayment` is `calculate_monthly_payment`
  over exact reals, with its division-by-zero paths kept as an error result.
  Its two independent partners are the annuity factor, a sum of discount
  factors (`Payment.MonthlyPaymentIsLevelAnnuity`), and the month-by-month
  loan balance (`Payment.PaymentRetiresLoan`). The lemmas prove the
  following about it:
  - the zero-rate branch is the even split;
  - at a positive rate the denominator is positive;
  - both branches equal the principal divided by the annuity factor (the sum
    of the discount factors of the n months);
  - the payment is positive and linear in the principal;
  - the payment falls with the term and rises with the rate;
  - it is the one level payment that brings the loan balance to zero after the
    last month.
- `Endpoint` (endpoint.dfy). The handler as a pipeline: validate, then pass the
  amount, the rate and the term to the calculator. Here the calculator works on
  Python numbers, so multiplying a `Decimal` by a `float` raises `TypeError`.

The declared default of `interest_rate` is the float `5.0`. pydantic does not
validate defaults, so a request that omits the rate sends a float into a
product with the `Decimal` amount, and the handler raises `TypeError` (see
Findings). The field's own annotation is a `condecimal` with two decimal
places, so a `Decimal` default is what the declaration evidently means. The
model follows the code for the handler as written (`CalculateLoanAsWritten`).
`CalculateLoan`, with a `Decimal` default of 5.0, is the corrected handler that
the remaining lemmas are about.

## Model

| member | source | states |
|---|---|---|
| `Numbers.Normalize` | main.py:25-27 | Normalizing a decimal keeps its value, strips every trailing zero, and only raises the exponent by the zeros it removes |
| `Numbers.DigitsExact` | main.py:25-27 | For every decimal and every m ≥ 1, the counted digits are at most m exactly when the counted places are at most m and the magnitude is below 10^(m − places) |
| `Numbers.PlacesExact` | main.py:25-27 | A decimal counts at most k decimal places exactly when k places represent its value, i.e. value·10^k is a whole number |
| `Numbers.DigitLimitsImplied` | main.py:25-27 | A value in [0, bound] with at most p places, where bound has fewer than m−p whole digits, meets both the m-digit limit and the (m−p)-whole-digit limit |
| `Validation.CheckInt` | main.py:24 | A `conint(ge, le)` check passes exactly when ge ≤ v ≤ le; above le it reports `le`, below ge it reports `ge` |
| `Validation.CheckDecimal` | main.py:25 | A passing `condecimal` value lies within [ge, le] and has at most `decimal_places` places; a reported place, `le` or `ge` error means that limit is broken |
| `Validation.DigitErrorsSound` | main.py:25-27 | A `max_digits` report means the places alone exceed the limit or the magnitude reaches 10^(max_digits − places); a whole-digit report means the magnitude reaches 10^(max_digits − decimal_places) |
| `Validation.CheckDecimalExact` | main.py:25-27 | With ge ≥ 0 and le below 10^(max_digits − decimal_places), the check passes exactly when the range and the place limit hold |
| `Validation.DigitLimitsNeverBind` | main.py:25-27 | The loan amount passes exactly when 1000 ≤ value ≤ 50000 with at most 2 places; the rate passes exactly when 0 ≤ value ≤ 10 with at most 2 places |
| `Validation.CheckFieldExact` | main.py:23-27 | Each field's check passes exactly when it meets its stated range (an omitted rate always passes) |
| `Validation.ErrorsNameFailingFields` | main.py:23-27 | A field appears among the reported errors exactly when it breaks its constraint |
| `Validation.ValidateExact` | main.py:23-27 | A body is accepted iff every field holds; an accepted one keeps age, amount and term and takes its own rate or the default; a rejected one names exactly the failing fields, once each, each error with the constraint its field's check broke |
| `Payment.IntPow` | main.py:35 | `x ** k` for a float base: a natural power is the repeated product, it fails exactly for zero to a negative power, and a negative power is the reciprocal of the positive one |
| `Payment.MonthlyRate` | main.py:31 | The monthly rate is zero exactly when the annual rate is, positive exactly when it is, and lies in [0, 1/120] for an annual rate in [0, 10] |
| `Payment.NumberOfPayments` | main.py:32 | 1 to 20 years give 12 to 240 payments, and the count is zero only for a zero term |
| `Payment.ZeroRatePayment` | main.py:33-34 | At a zero rate the payment is the amount divided by years·12, and a zero term divides by zero |
| `Payment.AnnuityDenominatorPositive` | main.py:35 | At a positive rate and at least one year, (1+r)^n − 1 > 0 and the formula's value is returned |
| `Payment.AnnuityFactorClosedForm` | main.py:35 | The annuity factor f (the sum of (1+r)^−k for k = 1..n) satisfies f·r·(1+r)^n = (1+r)^n − 1, the identity behind the formula |
| `Payment.MonthlyPaymentIsLevelAnnuity` | main.py:30-35 | For a term of at least one year and a rate above −1200%, both branches return the principal divided by the annuity factor |
| `Payment.PaymentPositive` | main.py:30-35 | For a term of at least one year and a rate above −1200%, a positive principal gives a defined, strictly positive payment |
| `Payment.PaymentLinearInPrincipal` | main.py:34-35 | For a term of at least one year and a rate above −1200%, scaling the principal by k scales the payment by k |
| `Payment.PaymentIncreasesWithPrincipal` | main.py:34-35 | For a term of at least one year and a rate above −1200%, a larger principal gives a strictly larger payment |
| `Payment.PaymentDecreasesWithYears` | main.py:32-35 | For terms of at least one year and a rate above −1200%, a longer term gives a strictly smaller payment on a positive principal |
| `Payment.PaymentIncreasesWithRate` | main.py:31-35 | For a term of at least one year and rates above −1200%, a higher rate gives a strictly larger payment on a positive principal |
| `Payment.BalanceClosedForm` | main.py:31-32 | After k months of growth by (1+r) and a payment p, the balance is A·(1+r)^k − p·(what k payments of 1 grow to) |
| `Payment.PaymentRetiresLoan` | main.py:30-35 | For a term of at least one year and a rate above −1200%, a level payment q leaves a zero balance after the last month exactly when q is the computed payment |
| `Payment.TypicalLoan` | main.py:30-35 | 10000 at 5% over 5 years costs between 188.71 and 188.72 a month |
| `Endpoint.CalculateMonthlyPayment` | main.py:30-35 | On Python numbers, any payment returned is the exact formula's; a `Decimal` and a `float` at a nonzero rate and a term of zero or more years always raise `TypeError`, and `TypeError` arises only when the two kinds meet; with one kind of number, or at a zero rate, a payment is returned exactly when the exact formula gives one, and a zero rate never raises `TypeError` |
| `Endpoint.DefaultRateIsFive` | main.py:27 | The declared default is the float 5.0; the decimal 5.0 has the same value and passes the rate's own constraint |
| `Endpoint.AcceptedRequestBounds` | main.py:26-32 | An accepted request has 12 to 240 payments and a monthly rate in [0, 1/120], zero exactly when its annual rate is zero |
| `Endpoint.ValidatedArguments` | main.py:38-46 | A valid body reaches the calculator with its own amount and term, and with its own rate or the default |
| `Endpoint.OmittedRateRaisesTypeError` | main.py:27-46 | As written, every valid request that omits the interest rate raises `TypeError` |
| `Endpoint.DefaultIrrelevantWhenRateGiven` | main.py:27 | When the rate is sent, the declared default has no effect on the outcome |
| `Endpoint.DecimalArgumentsComputePayment` | main.py:38-47 | With the decimal default, a valid body is priced at exactly the formula's value for its amount, rate (5 when omitted) and term |
| `Endpoint.CalculateLoanExact` | main.py:37-47 | The corrected handler succeeds iff the body is valid and then returns a positive payment given by the formula; otherwise it fails only by validation, naming exactly the failing fields |
| `Endpoint.CalculatedPaymentRetiresLoan` | main.py:42-47 | The payment returned for a valid body is the only level payment that pays the loan off in its term |
| `Endpoint.SingleViolationRejects` | main.py:23-27 | A body that breaks one field alone is rejected with exactly one error, for that field |
| `Endpoint.ZeroRateRequest` | main.py:33-34 | A valid body at a zero rate is charged amount/(years·12), by both handlers |
| `Endpoint.TypicalRequestWithoutRate` | main.py:27-35 | 10000 over 5 years with the rate omitted: between 188.71 and 188.72 with the decimal default, `TypeError` as written |
| `Endpoint.BoundaryChecks` | main.py:24-27 | 17 and 31 years of age, terms of 0 and 21 years, amounts of 999.99 and 50000.01 and a rate of 10.01 are refused by the bound they cross, and 18, 30, 1 and 20 pass |
| `Endpoint.TooManyPlaces` | main.py:25 | 1000.001 is refused for its decimal places although it is in range |
| `Endpoint.TooManyWholeDigits` | main.py:25 | 100000 is refused for its six whole digits before its upper bound is looked at |
| `Endpoint.TooManyDigits` | main.py:25 | 12345678 is refused for its eight digits |
| `Endpoint.TrailingZerosIgnored` | main.py:25 | 50000.0 passes: trailing zeros are not counted as places |

## Left out

- The FastAPI application and its CORS middleware (main.py:7-19). They are framework configuration with no logic.
- The mapping from exceptions to HTTP statuses (main.py:49-54), and the status that the framework gives a validation failure. The model stops at the outcome: a payment, the validation errors, or the exception raised (`Endpoint.Failure`).
- Floating-point and `Decimal` rounding. Every quantity is an exact real, so no 28-digit context, IEEE double or rounding of the result is modelled. A float's value is taken exactly. For validation this matters in one way: `Decimal.normalize()` first rounds to the context's 28 significant digits and then strips zeros. So pydantic counts a value such as 1000.0000000000000000000000001 as `1E+3` and accepts it, while `Numbers.Normalize` keeps every digit and the model reports `DecimalMaxDigits`. The model matches pydantic only for decimals of at most 28 significant digits.
- `Endpoint.CalculateMonthlyPayment`: the division by zero and the `Decimal` errors (`DivisionByZero`, `InvalidOperation`) are all reported as one `ZeroDivisionError`. Only bodies that skip validation can reach them.
- `Payment.IntPow`: the power follows a float base. For a `Decimal` base, `0 ** -n` gives `Infinity` and `0 ** 0` raises `InvalidOperation`. A zero base needs an annual rate of −1200%, which validation refuses, and the model still reports an error there.
- Parsing the JSON body into Python values: the strings, the numbers, `null`, and the coercion of `20.0` into an int. The model starts from typed values (`Validation.RequestBody`).
- Infinite and NaN decimals. `Numbers.Decimal` is finite only.
- Two parts of the decimal check belong to pydantic, which is not part of this model. The first is the order in which a `condecimal` field reports its constraints: total digits, then decimal places, then whole digits, then `le`, then `ge`. The second is that digits are counted on the normalized value. `Validation.CheckDecimal` follows pydantic 2's behaviour.
- The comment on main.py:25 gives the upper bound as 500000. The model enforces the declared `le=50000`.
- Concurrency and the server loop. There are none in the core.

## Findings

| source | as written | input that shows it | evidently intended | confidence | as-written member | corrected member |
|---|---|---|---|---|---|---|
| main.py:27 | The default of `interest_rate` is the float `5.0`, which pydantic never validates or converts. When the rate is omitted, main.py:35 multiplies the `Decimal` amount by a float, Python raises `TypeError`, and main.py:51-52 turns it into an error response. | `{"age": 25, "loan_amount": 10000, "years_to_repay": 5}` | A `Decimal` default of 5.0, giving a payment between 188.71 and 188.72 | not executed | `Endpoint.OmittedRateRaisesTypeError` | `Endpoint.CalculateLoanExact` |
