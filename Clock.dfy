/**
  Time as the backend sees it. Python's `datetime` has microsecond resolution,
  so an instant is a whole number of microseconds on one consistent clock and
  a duration is the difference of two instants.
 */
module Clock {

  /** An instant, in microseconds. */
  type Instant = int

  const MicrosPerSecond: int := 1_000_000
  const MicrosPerMinute: int := 60 * MicrosPerSecond

  /** Python's `int(d / unit)` for a duration `d` measured in microseconds:
      the quotient, truncated toward zero (not floored, as Dafny's `/` is). */
  function Truncated(d: int, unit: int): (r: int)
    requires unit > 0
    ensures d >= 0 ==> 0 <= r && r * unit <= d < r * unit + unit
    ensures d < 0 ==> r <= 0 && r * unit - unit < d <= r * unit
  {
    if d >= 0 then
      DivBounds(d, unit);
      d / unit
    else
      DivBounds(-d, unit);
      assert (-((-d) / unit)) * unit == -(((-d) / unit) * unit);
      -((-d) / unit)
  }

  /** Dafny's `/` on a non-negative dividend: the largest multiple not above it. */
  lemma {:induction false} DivBounds(n: nat, unit: int)
    requires unit > 0
    ensures 0 <= n / unit && (n / unit) * unit <= n < (n / unit) * unit + unit
  {
    assert n == (n / unit) * unit + n % unit;
  }

  /** A whole number of units smaller than one unit is not positive. */
  lemma {:induction false} MultipleBelowUnit(k: int, unit: int)
    requires unit > 0 && k * unit < unit
    ensures k <= 0
  {
    assert (k - 1) * unit == k * unit - unit < 0;
  }

  /** A non-negative duration of at most `n` units truncates to at most `n`. */
  lemma {:induction false} TruncatedAtMost(d: int, unit: int, n: int)
    requires unit > 0 && 0 <= d <= n * unit
    ensures 0 <= Truncated(d, unit) <= n
  {
    var r := Truncated(d, unit);
    assert (r - n) * unit <= 0;
  }

  /** Truncation of non-negative durations is monotonic. */
  lemma {:induction false} TruncatedMonotonic(d1: int, d2: int, unit: int)
    requires unit > 0 && 0 <= d1 <= d2
    ensures Truncated(d1, unit) <= Truncated(d2, unit)
  {
    var r1, r2 := Truncated(d1, unit), Truncated(d2, unit);
    var k := r1 - r2;
    assert k * unit == r1 * unit - r2 * unit < unit;
    MultipleBelowUnit(k, unit);
  }
}
