/**
 * Go's fixed-width integer and floating-point conversions, as the recorder
 * relies on them: two's-complement int64 arithmetic that wraps around,
 * integer division that truncates toward zero, the uint64(...) bit
 * reinterpretation and the float-to-int conversion that drops the fraction.
 * Dafny's integers are unbounded and its `/` is Euclidean, so each of these
 * is written out here.
 */
module GoNumeric {

  const TwoTo63: int := 0x8000_0000_0000_0000
  const TwoTo64: int := 0x1_0000_0000_0000_0000
  const MinInt64: int := -TwoTo63
  const MaxInt64: int := TwoTo63 - 1
  const MaxUint32: int := 0xFFFF_FFFF

  /** time.Second: one second in nanoseconds, the unit of time.Duration. */
  const Second: int := 1_000_000_000

  predicate IsInt64(x: int) { MinInt64 <= x <= MaxInt64 }

  predicate IsUint32(x: int) { 0 <= x <= MaxUint32 }

  function Abs(x: int): nat { if x < 0 then -x else x }

  /**
   * The quotient law of Go's `/` on integers: q is the quotient of n by d
   * when the remainder n - q*d is smaller than d in magnitude and carries
   * the sign of n (the quotient is truncated toward zero).
   */
  predicate IsTruncQuotient(q: int, n: int, d: int) {
    var r := n - q * d;
    Abs(r) < Abs(d) && (n >= 0 ==> r >= 0) && (n <= 0 ==> r <= 0)
  }

  lemma MulNonNeg(a: int, b: int)
    requires a >= 0 && b >= 0
    ensures a * b >= 0
  {}

  lemma MulMonoLeft(a: int, b: int, c: int)
    requires a <= b && c >= 0
    ensures a * c <= b * c
  {
    MulNonNeg(b - a, c);
    assert b * c - a * c == (b - a) * c;
  }

  /** Euclidean division of non-negatives is truncation and shrinks the dividend. */
  lemma NonNegDivBound(n: int, d: int)
    requires n >= 0 && d > 0
    ensures 0 <= n / d <= n
    ensures 0 <= n - (n / d) * d < d
  {
    var q, r := n / d, n % d;
    assert n == q * d + r && 0 <= r < d;
    if q < 0 {
      MulMonoLeft(q, -1, d);
      assert false;
    }
    MulMonoLeft(1, d, q);
    assert q <= q * d;
  }

  /** Go's quotient law, when dividend and divisor have the same sign. */
  lemma TruncDivLawSameSign(n: int, d: int)
    requires d != 0 && (n >= 0) == (d > 0)
    ensures IsTruncQuotient(Abs(n) / Abs(d), n, d) && Abs(Abs(n) / Abs(d)) <= Abs(n)
  {
    var a, b := Abs(n), Abs(d);
    NonNegDivBound(a, b);
    var q0 := a / b;
    if n < 0 {
      assert q0 * d == -(q0 * b);
    }
  }

  /** Go's quotient law, when dividend and divisor have opposite signs. */
  lemma TruncDivLawOppositeSign(n: int, d: int)
    requires d != 0 && (n >= 0) != (d > 0)
    ensures IsTruncQuotient(-(Abs(n) / Abs(d)), n, d) && Abs(-(Abs(n) / Abs(d))) <= Abs(n)
  {
    var a, b := Abs(n), Abs(d);
    NonNegDivBound(a, b);
    var q0 := a / b;
    if n >= 0 {
      assert (-q0) * d == q0 * b;
    } else {
      assert (-q0) * d == -(q0 * b);
    }
  }

  /** Integer division truncated toward zero, as Go's `/` on mathematical integers. */
  function TruncDiv(n: int, d: int): (q: int)
    requires d != 0
    ensures IsTruncQuotient(q, n, d)
    ensures Abs(q) <= Abs(n)
    ensures n >= 0 && d > 0 ==> 0 <= q <= n
  {
    NonNegDivBound(Abs(n), Abs(d));
    if (n >= 0) == (d > 0) then
      TruncDivLawSameSign(n, d);
      Abs(n) / Abs(d)
    else
      TruncDivLawOppositeSign(n, d);
      -(Abs(n) / Abs(d))
  }

  lemma AbsMul(x: int, y: int)
    ensures Abs(x * y) == Abs(x) * Abs(y)
  {
    if x < 0 && y < 0 {
      assert x * y == (-x) * (-y);
    } else if x < 0 {
      assert x * y == -((-x) * y);
      MulNonNeg(-x, y);
    } else if y < 0 {
      assert x * y == -(x * (-y));
      MulNonNeg(x, -y);
    } else {
      MulNonNeg(x, y);
    }
  }

  /** At most one integer satisfies the quotient law, so TruncDiv is Go's quotient. */
  lemma TruncQuotientUnique(q1: int, q2: int, n: int, d: int)
    requires d != 0
    requires IsTruncQuotient(q1, n, d) && IsTruncQuotient(q2, n, d)
    ensures q1 == q2
  {
    var r1, r2 := n - q1 * d, n - q2 * d;
    assert Abs(r1 - r2) < Abs(d);
    if q1 != q2 {
      assert r1 - r2 == (q2 - q1) * d;
      AbsMul(q2 - q1, d);
      MulMonoLeft(1, Abs(q2 - q1), Abs(d));
      assert false;
    }
  }

  /** With a positive divisor, a larger non-negative dividend never has a smaller quotient. */
  lemma TruncQuotientMonotone(q1: int, q2: int, n1: int, n2: int, d: int)
    requires d > 0 && 0 <= n1 <= n2
    requires IsTruncQuotient(q1, n1, d) && IsTruncQuotient(q2, n2, d)
    ensures q1 <= q2
  {
    if q1 > q2 {
      MulMonoLeft(q2 + 1, q1, d);
    }
  }

  /** Dividing an exact multiple gives back the factor. */
  lemma TruncDivOfMultiple(b: int, d: int)
    requires d != 0
    ensures TruncDiv(d * b, d) == b
  {
    assert IsTruncQuotient(b, d * b, d);
    TruncQuotientUnique(TruncDiv(d * b, d), b, d * b, d);
  }

  /** Reduction of a mathematical integer into the int64 range, as Go's arithmetic wraps. */
  function Wrap64(x: int): (r: int)
    ensures IsInt64(r)
    ensures IsInt64(x) ==> r == x
    ensures (x - r) % TwoTo64 == 0
  {
    (x - MinInt64) % TwoTo64 + MinInt64
  }

  /** Go's int64 `+`. */
  function Add64(a: int, b: int): (r: int)
    ensures IsInt64(r)
    ensures IsInt64(a + b) ==> r == a + b
    ensures (a + b - r) % TwoTo64 == 0
  {
    Wrap64(a + b)
  }

  /** Go's int64 `-`. */
  function Sub64(a: int, b: int): (r: int)
    ensures IsInt64(r)
    ensures IsInt64(a - b) ==> r == a - b
    ensures (a - b - r) % TwoTo64 == 0
  {
    Wrap64(a - b)
  }

  /** Go's int64 `*`. */
  function Mul64(a: int, b: int): (r: int)
    ensures IsInt64(r)
    ensures IsInt64(a * b) ==> r == a * b
    ensures (a * b - r) % TwoTo64 == 0
  {
    Wrap64(a * b)
  }

  /**
   * Go's int64 `/`: truncated, and wrapping in the one case that overflows
   * (the most negative value divided by -1 gives itself back).
   */
  function Div64(n: int, d: int): (q: int)
    requires d != 0
    ensures IsInt64(q)
    ensures IsInt64(n) && !(n == MinInt64 && d == -1) ==> IsTruncQuotient(q, n, d)
    ensures n == MinInt64 && d == -1 ==> q == MinInt64
  {
    Wrap64(TruncDiv(n, d))
  }

  /** Go's uint64(x) of an int64: the same 64 bits read as unsigned. */
  function ToUint64(x: int): (r: int)
    ensures 0 <= r < TwoTo64
    ensures 0 <= x < TwoTo64 ==> r == x
    ensures MinInt64 <= x < 0 ==> r == x + TwoTo64
  {
    x % TwoTo64
  }

  /** Go's int(x) of a float: the fraction is dropped, rounding toward zero. */
  function TruncReal(x: real): (r: int)
    ensures x >= 0.0 ==> r >= 0 && r as real <= x < r as real + 1.0
    ensures x < 0.0 ==> r <= 0 && r as real - 1.0 < x <= r as real
  {
    if x >= 0.0 then x.Floor else -((-x).Floor)
  }

  /** time.Duration.Seconds(): a duration in nanoseconds as seconds. */
  function Seconds(d: int): (s: real)
    ensures s * 1_000_000_000.0 == d as real
  {
    d as real / Second as real
  }
}
