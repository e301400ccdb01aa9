/** Python 2 numbers and errors, as far as the converter uses them.
    A Python value of numeric type is either an `int` or a `float`; the
    operators behave differently on the two, so the model keeps the tag.
    Floats are exact rationals here (binary rounding is not modelled). */
module PyNum {

  /** The exceptions the modelled code can raise. */
  datatype PyError = ValueError | IndexError | TypeError | ZeroDivisionError

  /** A computation that either returns a value or raises. */
  datatype Result<T> = Ok(value: T) | Err(error: PyError)

  /** Python's `None` or a value. */
  datatype Option<T> = None | Some(value: T)

  /** A Python 2 number. */
  datatype Num = Int(i: int) | Float(r: real)
  {
    /** The number as an exact rational. */
    function Value(): real {
      match this
      case Int(i) => i as real
      case Float(r) => r
    }
  }

  /** `x + y`: int + int stays int, anything with a float is a float. */
  function Add(x: Num, y: Num): (r: Num)
    ensures r.Value() == x.Value() + y.Value()
    ensures r.Int? <==> x.Int? && y.Int?
  {
    if x.Int? && y.Int? then Int(x.i + y.i) else Float(x.Value() + y.Value())
  }

  /** `x * y`, with the same typing rule as `Add`. */
  function Mul(x: Num, y: Num): (r: Num)
    ensures r.Value() == x.Value() * y.Value()
    ensures r.Int? <==> x.Int? && y.Int?
  {
    if x.Int? && y.Int? then Int(x.i * y.i) else Float(x.Value() * y.Value())
  }

  /** Python 2 `a / b` on two ints: division rounded toward minus infinity.
      Dafny's `/` agrees for a positive divisor only. */
  function FloorDiv(a: int, b: int): (q: int)
    requires b != 0
    ensures b > 0 ==> q * b <= a < q * b + b
    ensures b < 0 ==> q * b >= a > q * b + b
  {
    if b > 0 then a / b else (-a) / (-b)
  }

  /** Python `int(x)` on a float: truncation toward zero. */
  function Trunc(x: real): int {
    if x >= 0.0 then x.Floor else -((-x).Floor)
  }

  /** `int()` drops the fraction and keeps the sign. */
  lemma TruncBounds(x: real)
    ensures x >= 0.0 ==> Trunc(x) >= 0 && (Trunc(x) as real) <= x < (Trunc(x) + 1) as real
    ensures x <= 0.0 ==> Trunc(x) <= 0 && (Trunc(x) - 1) as real < x <= (Trunc(x) as real)
  {
  }

  /** Python `int()` on floats never reverses an order. */
  lemma TruncMonotone(x: real, y: real)
    requires x <= y
    ensures Trunc(x) <= Trunc(y)
  {
  }

  /** Python `int(x)` on a number: identity on ints, truncation on floats. */
  function ToInt(x: Num): (r: int)
    ensures x.Int? ==> r as real == x.Value()
    ensures r == Trunc(x.Value())
  {
    match x
    case Int(i) => i
    case Float(f) => Trunc(f)
  }

  /** Python `x % d` on floats for a positive divisor: what is left after
      taking away a whole (floored) number of `d`s. */
  function FloatMod(x: real, d: real): (r: real)
    requires d > 0.0
    ensures 0.0 <= r < d
    ensures ((x - r) / d).Floor as real == (x - r) / d
  {
    var k := (x / d).Floor as real;
    QuotientBounds(x, d, k);
    assert (d * k) / d == k;
    x - d * k
  }

  lemma QuotientBounds(x: real, d: real, k: real)
    requires d > 0.0 && k <= x / d < k + 1.0
    ensures k * d <= x < k * d + d
  {
    DivMul(x, d);
    ScaledBounds(x, d, k, x / d);
  }

  lemma DivMul(x: real, d: real)
    requires d != 0.0
    ensures (x / d) * d == x
  {
  }

  lemma ScaledBounds(x: real, d: real, k: real, y: real)
    requires d > 0.0 && k <= y < k + 1.0 && y * d == x
    ensures k * d <= x
    ensures x < k * d + d
  {
    ScaledLower(x, d, k, y);
    ScaledUpper(x, d, k, y);
  }

  lemma ScaledLower(x: real, d: real, k: real, y: real)
    requires d > 0.0 && k <= y && y * d == x
    ensures k * d <= x
  {
    MulLeReal(k, y, d);
  }

  lemma ScaledUpper(x: real, d: real, k: real, y: real)
    requires d > 0.0 && y < k + 1.0 && y * d == x
    ensures x < k * d + d
  {
    MulLtReal(y, k + 1.0, d);
    Distrib(k, d);
    assert y * d < (k + 1.0) * d;
  }

  lemma Distrib(k: real, d: real)
    ensures (k + 1.0) * d == k * d + d
  {
  }

  lemma MulLeReal(a: real, b: real, c: real)
    requires a <= b && c > 0.0
    ensures a * c <= b * c
  {
  }

  lemma MulLtReal(a: real, b: real, c: real)
    requires a < b && c > 0.0
    ensures a * c < b * c
  {
  }

  /** `y` lies between `k` and `k + 1` when `y * m` lies between `k * m`
      and `(k + 1) * m`. */
  lemma UnscaledBounds(x: real, m: real, k: real, y: real)
    requires m > 0.0 && y * m == x && k * m <= x < (k + 1.0) * m
    ensures k <= y < k + 1.0
  {
    if y < k {
      MulLtReal(y, k, m);
    }
    if y >= k + 1.0 {
      MulLeReal(k + 1.0, y, m);
    }
  }

  lemma RealMulCast(a: int, b: int)
    ensures ((a * b) as real) == (a as real) * (b as real)
  {
  }

  /** Whenever `k <= y < k + 1`, `k` is the floor of `y`. */
  lemma FloorUnique(y: real, k: int)
    requires (k as real) <= y < (k + 1) as real
    ensures y.Floor == k
  {
  }

  /** For a non-negative rational, flooring before or after an integer
      division by a positive `n` gives the same result. */
  lemma FloorDivCommute(x: real, n: int)
    requires x >= 0.0 && n > 0
    ensures (x / (n as real)).Floor == x.Floor / n
  {
    var f := x.Floor;
    var q := f / n;
    assert q * n <= f < q * n + n;
    RealMulCast(q, n);
    RealMulCast(q + 1, n);
    assert (q as real) * (n as real) <= x;
    assert x < ((q + 1) as real) * (n as real);
    DivMul(x, n as real);
    UnscaledBounds(x, n as real, q as real, x / (n as real));
    FloorUnique(x / (n as real), q);
  }
}
