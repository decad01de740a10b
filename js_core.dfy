/** Values and outcomes of the JavaScript runtime that the modelled code relies on. */
module JsCore {

  datatype Option<T> = None | Some(value: T)

  /** The exceptions the modelled code can throw. */
  datatype JsError = RangeError | TypeError

  /** A call that either returns a value or throws. */
  datatype Result<T> = Ok(value: T) | Err(error: JsError)

  /** A JavaScript value, as far as the `typeof` tests of the modelled code tell them apart. */
  datatype JsValue = JsNumber(x: real) | JsString(s: string) | JsOther

  /** A Number that the modelled arithmetic leaves either integral or NaN. */
  datatype IntOrNaN = Int(value: int) | NaN

  function Abs(x: real): real { if x < 0.0 then -x else x }

  /** Truncation toward zero, what `parseInt` does to a Number written in plain decimal notation. */
  function Trunc(x: real): (r: int)
    ensures 0.0 <= x ==> 0 <= r && r as real <= x < r as real + 1.0
    ensures x < 0.0 ==> r <= 0 && r as real - 1.0 < x <= r as real
  {
    if x >= 0.0 then x.Floor else -((-x).Floor)
  }

  /** m * 10^k for any integer k, one factor of ten at a time. */
  function Scale10(m: real, k: int): real
    decreases if k < 0 then -k else k
  {
    if k == 0 then m
    else if k > 0 then 10.0 * Scale10(m, k - 1)
    else Scale10(m, k + 1) / 10.0
  }

  /** Raising the exponent by one multiplies by ten. */
  lemma Scale10Step(m: real, k: int)
    ensures Scale10(m, k + 1) == 10.0 * Scale10(m, k)
  {
  }

  /** The first significant decimal digit of a positive number. */
  function LeadingDigit(y: real): (d: int)
    requires 0.0 < y
    ensures 1 <= d <= 9
    decreases if y < 1.0 then (1.0 / y).Floor else 0, if y < 10.0 then 0 else y.Floor
  {
    if y < 1.0 then
      assert (1.0 / (10.0 * y)) == (1.0 / y) / 10.0;
      LeadingDigit(10.0 * y)
    else if y < 10.0 then y.Floor
    else LeadingDigit(y / 10.0)
  }

  /** The decimal exponent of a positive number: the k with 10^k <= y < 10^(k+1). */
  function Exponent10(y: real): int
    requires 0.0 < y
    decreases if y < 1.0 then (1.0 / y).Floor else 0, if y < 10.0 then 0 else y.Floor
  {
    if y < 1.0 then
      assert (1.0 / (10.0 * y)) == (1.0 / y) / 10.0;
      Exponent10(10.0 * y) - 1
    else if y < 10.0 then 0
    else Exponent10(y / 10.0) + 1
  }

  /** `y` lies between d and d + 1 times 10^k, d its leading digit and k its exponent. */
  lemma {:induction false} LeadingDigitSpec(y: real)
    requires 0.0 < y
    ensures Scale10(LeadingDigit(y) as real, Exponent10(y)) <= y < Scale10((LeadingDigit(y) + 1) as real, Exponent10(y))
    decreases if y < 1.0 then (1.0 / y).Floor else 0, if y < 10.0 then 0 else y.Floor
  {
    var d, k := LeadingDigit(y), Exponent10(y);
    if y < 1.0 {
      assert (1.0 / (10.0 * y)) == (1.0 / y) / 10.0;
      LeadingDigitSpec(10.0 * y);
      Scale10Step(d as real, k);
      Scale10Step((d + 1) as real, k);
    } else if y >= 10.0 {
      LeadingDigitSpec(y / 10.0);
      Scale10Step(d as real, k - 1);
      Scale10Step((d + 1) as real, k - 1);
    }
  }

  /**
   * `parseInt(x)` for a finite Number x. parseInt reads the leading integer of `String(x)`:
   * the integer part while x is written in decimal notation (zero, or 1e-6 <= |x| < 1e21),
   * but only the first significant digit once it is written in exponent notation
   * (`String(1/3e6)` is "3.3333333333333335e-7").
   */
  function ParseIntOfNumber(x: real): (r: int)
    ensures x == 0.0 || 0.000001 <= Abs(x) < 1000000000000000000000.0 ==> r == Trunc(x)
    ensures 0.0 < Abs(x) < 0.000001 ==> 1.0 <= Abs(r as real) <= 9.0
    ensures x != 0.0 && !(0.000001 <= Abs(x) < 1000000000000000000000.0) ==>
              (0 < r <==> 0.0 < x) && Abs(r as real) == LeadingDigit(Abs(x)) as real
  {
    if x == 0.0 || 0.000001 <= Abs(x) < 1000000000000000000000.0 then Trunc(x)
    else if x > 0.0 then LeadingDigit(x)
    else -LeadingDigit(-x)
  }
}
