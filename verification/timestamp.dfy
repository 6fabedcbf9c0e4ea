/**
 * The two time-conversion helpers of the recorder: timestampToDuration turns
 * a tick count at a track's time scale into a time.Duration (nanoseconds),
 * and multiplyAndDivide re-bases a value between two rates. Both are single
 * int64 expressions in the source, so both wrap on overflow and truncate
 * toward zero.
 */
module Timestamp {
  import opened GoNumeric

  /**
   * timestampToDuration(ts, timeScale): time.Duration(ts) * time.Second /
   * time.Duration(timeScale). When the product fits in an int64 the result is
   * the exact duration of ts ticks, truncated toward zero to a whole
   * nanosecond.
   */
  function TimestampToDuration(ts: int, timeScale: int): (d: int)
    requires timeScale != 0
    ensures IsInt64(d)
    ensures IsInt64(ts * Second) ==> IsTruncQuotient(d, ts * Second, timeScale)
  {
    Div64(Mul64(ts, Second), timeScale)
  }

  /**
   * multiplyAndDivide(a, b, c): a * b / c in int64 arithmetic. When a * b fits
   * in an int64 the result is the truncated quotient, except that the most
   * negative int64 divided by -1 wraps back to itself.
   */
  function MultiplyAndDivide(a: int, b: int, c: int): (r: int)
    requires c != 0
    ensures IsInt64(r)
    ensures IsInt64(a * b) && !(a * b == MinInt64 && c == -1) ==> IsTruncQuotient(r, a * b, c)
    ensures a * b == MinInt64 && c == -1 ==> r == MinInt64
  {
    Div64(Mul64(a, b), c)
  }

  /** Zero ticks last zero nanoseconds, whatever the time scale. */
  lemma TimestampToDurationOfZero(timeScale: int)
    requires timeScale != 0
    ensures TimestampToDuration(0, timeScale) == 0
  {
  }

  /** As many ticks as the time scale is exactly one second. */
  lemma TimestampToDurationOfOneSecond(timeScale: int)
    requires timeScale != 0 && IsInt64(timeScale * Second)
    ensures TimestampToDuration(timeScale, timeScale) == Second
  {
    TruncDivOfMultiple(Second, timeScale);
  }

  /** The four cases the helper's own tests pin down. */
  lemma TimestampToDurationExamples()
    ensures TimestampToDuration(90000, 90000) == Second
    ensures TimestampToDuration(45000, 90000) == 500 * 1_000_000
    ensures TimestampToDuration(48000, 48000) == Second
    ensures TimestampToDuration(0, 90000) == 0
  {
    TimestampToDurationOfOneSecond(90000);
    TimestampToDurationOfOneSecond(48000);
    TruncDivOfMultiple(500 * 1_000_000, 90000);
  }

  /** On non-negative tick counts without overflow, more ticks never give a shorter duration. */
  lemma TimestampToDurationMonotone(ts1: int, ts2: int, timeScale: int)
    requires timeScale > 0
    requires 0 <= ts1 <= ts2 && IsInt64(ts2 * Second)
    ensures TimestampToDuration(ts1, timeScale) <= TimestampToDuration(ts2, timeScale)
  {
    var n1, n2 := ts1 * Second, ts2 * Second;
    MulMonoLeft(ts1, ts2, Second);
    MulNonNeg(ts1, Second);
    TruncQuotientMonotone(TimestampToDuration(ts1, timeScale), TimestampToDuration(ts2, timeScale), n1, n2, timeScale);
  }

  /** A non-negative tick count lasts a non-negative time, no more than that many seconds. */
  lemma TimestampToDurationBounds(ts: int, timeScale: int)
    requires timeScale > 0 && 0 <= ts && IsInt64(ts * Second)
    ensures 0 <= TimestampToDuration(ts, timeScale) <= ts * Second
  {
    MulNonNeg(ts, Second);
  }

  /** Re-basing a multiple of the source rate by that same rate gives the factor back. */
  lemma MultiplyAndDivideCancels(b: int, c: int)
    requires c != 0 && IsInt64(b) && IsInt64(c) && IsInt64(c * b)
    ensures MultiplyAndDivide(c, b, c) == b
  {
    TruncDivOfMultiple(b, c);
  }

  /** The case the helper's own test pins down. */
  lemma MultiplyAndDivideExample()
    ensures MultiplyAndDivide(90000, 48000, 90000) == 48000
  {
    MultiplyAndDivideCancels(48000, 90000);
  }
}
