/**
 * Hour bucketing: `round_down_to_hour` divides the timestamp by 3600 with
 * Rust's `i64` division, which truncates toward zero, and multiplies back.
 * For a negative timestamp that is not a whole hour the result is the hour
 * boundary ABOVE it (closer to zero), not a mathematical floor; the lemmas
 * below state both halves exactly.
 */
module Hour {
  import opened Trades

  /** Seconds per hour. */
  const HourSeconds: int := 3600

  /**
   * Division truncating toward zero, as Rust's `/` on signed integers.
   * The remainder `a - q * b` has the sign of `a` and is smaller than `b`.
   */
  function TruncDiv(a: int, b: int): (q: int)
    requires b > 0
    ensures 0 <= a ==> 0 <= a - q * b < b
    ensures a < 0 ==> -b < a - q * b <= 0
  {
    if a >= 0 then a / b else -((-a) / b)
  }

  /** `round_down_to_hour`: `(ts / 3600) * 3600` on `i64`; never overflows. */
  function RoundDownToHour(ts: i64): (r: i64)
    ensures (r as int) % HourSeconds == 0
    ensures 0 <= ts ==> r <= ts && (ts as int) < (r as int) + HourSeconds
    ensures ts < 0 ==> (r as int) - HourSeconds < (ts as int) && ts <= r
  {
    var q := TruncDiv(ts as int, HourSeconds);
    assert q * HourSeconds == (ts as int) - ((ts as int) - q * HourSeconds);
    (q * HourSeconds) as i64
  }

  /** Truncating division gives back the factor of an exact multiple. */
  lemma TruncDivOfMultiple(k: int, b: int)
    requires b > 0
    ensures TruncDiv(k * b, b) == k
  {
    var q := TruncDiv(k * b, b);
    assert k * b - q * b == (k - q) * b;
    MultipleIsZeroOrFar(k - q, b);
  }

  /** A non-zero multiple of `b` is at least `b` away from zero. */
  lemma {:induction false} MultipleIsZeroOrFar(d: int, b: int)
    requires b > 0
    ensures d == 0 || d * b >= b || d * b <= -b
    decreases if d < 0 then -d else d
  {
    if d > 1 {
      MultipleIsZeroOrFar(d - 1, b);
      assert d * b == (d - 1) * b + b;
    } else if d < -1 {
      MultipleIsZeroOrFar(d + 1, b);
      assert d * b == (d + 1) * b - b;
    }
  }

  /** Rounding an hour boundary changes nothing: the function is idempotent. */
  lemma RoundDownToHourIdempotent(ts: i64)
    ensures RoundDownToHour(RoundDownToHour(ts)) == RoundDownToHour(ts)
  {
    var r := RoundDownToHour(ts);
    var k := (r as int) / HourSeconds;
    assert r as int == k * HourSeconds;
    TruncDivOfMultiple(k, HourSeconds);
  }

  /**
   * Exactly which timestamps land on a given hour boundary `h`.  A positive
   * boundary collects `[h, h + 3600)`, a negative one `(h - 3600, h]`, and the
   * boundary 0 collects `(-3600, 3600)`: 7199 seconds instead of 3600.
   */
  lemma RoundDownToHourBucket(ts: i64, h: int)
    requires h % HourSeconds == 0
    ensures h > 0 ==> (RoundDownToHour(ts) as int == h <==> h <= ts as int < h + HourSeconds)
    ensures h < 0 ==> (RoundDownToHour(ts) as int == h <==> h - HourSeconds < ts as int <= h)
    ensures h == 0 ==> (RoundDownToHour(ts) == 0 <==> -HourSeconds < ts as int < HourSeconds)
  {
    var r := RoundDownToHour(ts) as int;
    var t := ts as int;
    if t >= 0 {
      // r <= t < r + 3600 and both r, h are multiples of 3600
      if h > 0 && h <= t < h + HourSeconds {
        MultiplesInWindow(r, h);
      }
    } else {
      if h < 0 && h - HourSeconds < t <= h {
        MultiplesInWindow(h, r);
      }
    }
  }

  /** Two multiples of 3600 less than 3600 apart are equal. */
  lemma MultiplesInWindow(a: int, b: int)
    requires a % HourSeconds == 0 && b % HourSeconds == 0
    requires a - HourSeconds < b < a + HourSeconds
    ensures a == b
  {
    var i := a / HourSeconds;
    var j := b / HourSeconds;
    assert a == i * HourSeconds && b == j * HourSeconds;
    assert (i - j) * HourSeconds == a - b;
    MultipleIsZeroOrFar(i - j, HourSeconds);
  }

  /**
   * Mathematical floor to the hour, the policy a bucketing function would
   * follow if negative timestamps were to bucket downward.  It is not what
   * `round_down_to_hour` computes; it is here to compare against.
   */
  function FloorToHour(ts: int): (r: int)
    ensures r % HourSeconds == 0
    ensures r <= ts < r + HourSeconds
  {
    ts - ts % HourSeconds
  }

  /**
   * Truncation and floor agree on non-negative timestamps and on exact hour
   * boundaries, and disagree on every other negative timestamp, where the
   * truncated hour is one hour above the floor.
   */
  lemma RoundDownToHourVersusFloor(ts: i64)
    ensures (0 <= ts || (ts as int) % HourSeconds == 0) ==> RoundDownToHour(ts) as int == FloorToHour(ts as int)
    ensures (ts < 0 && (ts as int) % HourSeconds != 0) ==> RoundDownToHour(ts) as int == FloorToHour(ts as int) + HourSeconds
  {
    var r := RoundDownToHour(ts) as int;
    var f := FloorToHour(ts as int);
    var t := ts as int;
    if 0 <= ts {
      MultiplesInWindow(r, f);
    } else if t % HourSeconds == 0 {
      MultiplesInWindow(r, f);
    } else {
      assert f < t < r;
      MultiplesInWindow(r, f + HourSeconds);
    }
  }
}
