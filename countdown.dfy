/** The remaining-time arithmetic of the countdown timer: a target instant and
    the current instant, both in whole milliseconds since the epoch, become a
    record of whole days, hours, minutes and seconds. The clock is never read
    here; the current instant is a parameter. */
module Countdown {

  const MsPerSecond: int := 1000
  const MsPerMinute: int := 60_000
  const MsPerHour: int := 3_600_000
  const MsPerDay: int := 86_400_000

  /** The record shown by the timer. The fields are JavaScript numbers, so they
      are plain integers here; that they are never negative is proved, not typed. */
  datatype TimeLeft = TimeLeft(days: int, hours: int, minutes: int, seconds: int)

  const Zero: TimeLeft := TimeLeft(0, 0, 0, 0)

  /** Every field is a proper digit of its unit: days unbounded, the rest below
      the size of the next larger unit. */
  predicate InRange(t: TimeLeft) {
    && 0 <= t.days
    && 0 <= t.hours < 24
    && 0 <= t.minutes < 60
    && 0 <= t.seconds < 60
  }

  /** The duration a record stands for when its fields are read back. */
  function TotalMs(t: TimeLeft): int {
    t.days * MsPerDay + t.hours * MsPerHour + t.minutes * MsPerMinute + t.seconds * MsPerSecond
  }

  /** A signed difference cut down to whole seconds, with nothing left when it
      is not positive. */
  function WholeSecondsMs(difference: int): int {
    if difference <= 0 then 0 else difference - difference % MsPerSecond
  }

  /** The remaining time from `now` until `target`. Non-positive differences
      saturate to all zeros; otherwise the difference is broken into whole
      days, hours of the day, minutes of the hour and seconds of the minute,
      and only the sub-second part is lost. */
  function CalculateTimeLeft(target: int, now: int): (r: TimeLeft)
    ensures InRange(r)
    ensures target - now <= 0 ==> r == Zero
    ensures TotalMs(r) == WholeSecondsMs(target - now)
  {
    var difference := target - now;
    if difference <= 0 then Zero
    else
      DecompositionRebuilds(difference);
      TimeLeft(difference / MsPerDay,
               (difference / MsPerHour) % 24,
               (difference / MsPerMinute) % 60,
               (difference / MsPerSecond) % 60)
  }

  /** The four fields computed from a positive difference add back up to the
      difference less its sub-second part. */
  lemma DecompositionRebuilds(d: int)
    requires 0 < d
    ensures TotalMs(TimeLeft(d / MsPerDay, (d / MsPerHour) % 24,
                             (d / MsPerMinute) % 60, (d / MsPerSecond) % 60))
            == d - d % MsPerSecond
  {
    var days, hours, minutes, seconds :=
      d / MsPerDay, (d / MsPerHour) % 24, (d / MsPerMinute) % 60, (d / MsPerSecond) % 60;
    var s := d / MsPerSecond;
    MixedRadix(d);
    assert days * 86400 + hours * 3600 + minutes * 60 + seconds == s;
    assert d == s * MsPerSecond + d % MsPerSecond;
    calc {
      TotalMs(TimeLeft(days, hours, minutes, seconds));
      days * MsPerDay + hours * MsPerHour + minutes * MsPerMinute + seconds * MsPerSecond;
      (days * 86400 + hours * 3600 + minutes * 60 + seconds) * MsPerSecond;
      s * MsPerSecond;
    }
  }

  // ---------------------------------------------------------------------------
  // What the result means

  /** A record in range is determined by the duration it stands for. */
  lemma InRangeDeterminedByTotal(t: TimeLeft, u: TimeLeft)
    requires InRange(t) && InRange(u) && TotalMs(t) == TotalMs(u)
    ensures t == u
  {
    ReadBackFields(t);
    ReadBackFields(u);
  }

  /** The fields of a record in range are recovered from its duration by
      division and remainder. */
  lemma ReadBackFields(t: TimeLeft)
    requires InRange(t)
    ensures var s := TotalMs(t) / MsPerSecond;
      && t.seconds == s % 60
      && t.minutes == (s / 60) % 60
      && t.hours == (s / 3600) % 24
      && t.days == s / 86400
  {
    var h := t.days * 24 + t.hours;
    var m := h * 60 + t.minutes;
    var s := m * 60 + t.seconds;
    DivModUnique(TotalMs(t), MsPerSecond, s, 0);
    DivModUnique(s, 60, m, t.seconds);
    DivModUnique(m, 60, h, t.minutes);
    DivModUnique(h, 24, t.days, t.hours);
    DivDiv(s, 60, 60);
    DivDiv(s, 3600, 24);
  }

  /** Independent characterisation: CalculateTimeLeft gives the one record in
      range whose duration is the difference cut to whole seconds (zero when
      the target is not ahead). */
  lemma CalculateTimeLeftIsUnique(target: int, now: int, t: TimeLeft)
    requires InRange(t) && TotalMs(t) == WholeSecondsMs(target - now)
    ensures t == CalculateTimeLeft(target, now)
  {
    InRangeDeterminedByTotal(t, CalculateTimeLeft(target, now));
  }

  /** The display reads all zeros exactly when less than one second remains:
      a target already passed, or one less than a second ahead. */
  lemma ZeroExactlyUnderOneSecond(target: int, now: int)
    ensures CalculateTimeLeft(target, now) == Zero <==> target - now < MsPerSecond
  {
    var d := target - now;
    if d < MsPerSecond {
      if 0 < d {
        DivModUnique(d, MsPerSecond, 0, d);
      }
      CalculateTimeLeftIsUnique(target, now, Zero);
    } else {
      assert TotalMs(Zero) == 0;
    }
  }

  /** For a target ahead, `days` is the number of whole days in the difference:
      it does not exceed it and one more day would. */
  lemma DaysAreWholeDays(target: int, now: int)
    requires 0 < target - now
    ensures var r := CalculateTimeLeft(target, now);
      && r.days == (target - now) / MsPerDay
      && r.days * MsPerDay <= target - now < (r.days + 1) * MsPerDay
  {
    var r := CalculateTimeLeft(target, now);
    var d := target - now;
    assert TotalMs(r) <= d < TotalMs(r) + MsPerSecond;
    assert r.hours * MsPerHour <= 23 * MsPerHour;
    assert r.minutes * MsPerMinute <= 59 * MsPerMinute;
    assert r.seconds * MsPerSecond <= 59 * MsPerSecond;
    DivModUnique(d, MsPerDay, r.days, d - r.days * MsPerDay);
  }

  /** As the current instant advances the remaining duration never grows. */
  lemma CountsDown(target: int, earlier: int, later: int)
    requires earlier <= later
    ensures TotalMs(CalculateTimeLeft(target, later)) <= TotalMs(CalculateTimeLeft(target, earlier))
  {
    var d1, d2 := target - earlier, target - later;
    if 0 < d2 {
      var q1, q2 := d1 / MsPerSecond, d2 / MsPerSecond;
      assert d1 - d1 % MsPerSecond == q1 * MsPerSecond;
      assert d2 - d2 % MsPerSecond == q2 * MsPerSecond;
      assert q2 <= q1;
    }
  }

  /** Only the distance between the two instants matters, not where they lie. */
  lemma DependsOnlyOnDifference(target: int, now: int, shift: int)
    ensures CalculateTimeLeft(target + shift, now + shift) == CalculateTimeLeft(target, now)
  {
  }

  lemma OneOfEachExample()
    ensures CalculateTimeLeft(90_061_000, 0) == TimeLeft(1, 1, 1, 1)
  {
  }

  lemma PastTargetExample()
    ensures CalculateTimeLeft(0, 5_000) == Zero
  {
  }

  // ---------------------------------------------------------------------------
  // The formula as the source writes it, on exact reals

  /** JavaScript's `%` on numbers: the remainder keeps the sign of the
      dividend and is smaller in magnitude than the divisor. */
  function JsRemainder(x: real, m: real): (r: real)
    requires m != 0.0
    ensures 0.0 <= x ==> 0.0 <= r < AbsReal(m)
    ensures x < 0.0 ==> -AbsReal(m) < r <= 0.0
    ensures ((x - r) / m).Floor as real == (x - r) / m
  {
    TruncatedRemainderBounds(x, m);
    TruncatedRemainderIsMultiple(x, m, x - m * TruncateToInt(x / m) as real);
    x - m * TruncateToInt(x / m) as real
  }

  function AbsReal(x: real): real {
    if x < 0.0 then -x else x
  }

  /** Rounding toward zero, as JavaScript's `%` divides. */
  function TruncateToInt(x: real): (t: int)
    ensures 0.0 <= x ==> t as real <= x < t as real + 1.0
    ensures x < 0.0 ==> t as real - 1.0 < x <= t as real
  {
    if 0.0 <= x then x.Floor else -((-x).Floor)
  }

  lemma TruncatedRemainderBounds(x: real, m: real)
    requires m != 0.0
    ensures var r := x - m * TruncateToInt(x / m) as real;
      && (0.0 <= x ==> 0.0 <= r < AbsReal(m))
      && (x < 0.0 ==> -AbsReal(m) < r <= 0.0)
  {
    var q := x / m;
    QuotientSign(x, m);
    RemainderIsScaledFraction(x, m);
    ScaledFraction(m, q - TruncateToInt(q) as real);
  }

  /** What the truncated remainder removes from `x` is a whole multiple of `m`. */
  lemma TruncatedRemainderIsMultiple(x: real, m: real, r: real)
    requires m != 0.0 && r == x - m * TruncateToInt(x / m) as real
    ensures ((x - r) / m).Floor as real == (x - r) / m
  {
    var k := TruncateToInt(x / m);
    assert x - r == m * k as real;
    assert (x - r) / m == k as real;
    FloorIs(k as real, k);
  }

  lemma QuotientSign(x: real, m: real)
    requires m != 0.0
    ensures 0.0 < m ==> (0.0 <= x <==> 0.0 <= x / m)
    ensures m < 0.0 ==> (0.0 <= x <==> x / m <= 0.0) && (x == 0.0 <==> x / m == 0.0)
  {
    assert x == m * (x / m);
  }

  lemma RemainderIsScaledFraction(x: real, m: real)
    requires m != 0.0
    ensures var q := x / m;
      x - m * TruncateToInt(q) as real == m * (q - TruncateToInt(q) as real)
  {
    var q := x / m;
    var t := TruncateToInt(q) as real;
    assert x == m * q;
    assert m * (q - t) == m * q - m * t;
  }

  lemma ScaledFraction(m: real, f: real)
    requires m != 0.0 && -1.0 < f < 1.0
    ensures -AbsReal(m) < m * f < AbsReal(m)
    ensures (0.0 < m) == (0.0 <= f) ==> 0.0 <= m * f
    ensures (0.0 < m) != (0.0 <= f) ==> m * f <= 0.0
  {
    var a, p := AbsReal(m), m * f;
    if 0.0 < m {
      assert a == m;
      assert a - p == m * (1.0 - f);
      assert a + p == m * (1.0 + f);
      PositiveProduct(m, 1.0 - f);
      PositiveProduct(m, 1.0 + f);
      assert -a < p < a;
    } else {
      assert a == -m;
      assert a + p == -m * (1.0 - f);
      assert a - p == -m * (1.0 + f);
      PositiveProduct(-m, 1.0 - f);
      PositiveProduct(-m, 1.0 + f);
      assert -a < p < a;
    }
    ProductSign(m, f);
  }

  lemma ProductSign(m: real, f: real)
    ensures (0.0 < m) == (0.0 <= f) ==> 0.0 <= m * f
    ensures (0.0 < m) != (0.0 <= f) ==> m * f <= 0.0
  {
  }

  lemma PositiveProduct(a: real, b: real)
    requires 0.0 < a && 0.0 < b
    ensures 0.0 < a * b
  {
  }

  /** The four field formulas as written: real division, JavaScript remainder,
      then `Math.floor`. Arithmetic is exact here; IEEE rounding is not modelled.
      The result meets the same description as CalculateTimeLeft's. */
  function CalculateTimeLeftAsWritten(target: int, now: int): (r: TimeLeft)
    ensures InRange(r)
    ensures target - now <= 0 ==> r == Zero
    ensures TotalMs(r) == WholeSecondsMs(target - now)
  {
    var difference := target - now;
    if difference <= 0 then Zero
    else
      WrittenFieldsAreIntegerFields(difference);
      DecompositionRebuilds(difference);
      WrittenFields(difference)
  }

  /** The body of CalculateTimeLeftAsWritten for a positive difference: lines
      19-22 of the component, on exact reals. */
  function WrittenFields(difference: int): TimeLeft {
    var d := difference as real;
    TimeLeft((d / 86_400_000.0).Floor,
             JsRemainder(d / 3_600_000.0, 24.0).Floor,
             JsRemainder(d / 60_000.0, 60.0).Floor,
             JsRemainder(d / 1000.0, 60.0).Floor)
  }

  lemma WrittenFieldsAreIntegerFields(d: int)
    requires 0 < d
    ensures WrittenFields(d) == TimeLeft(d / MsPerDay, (d / MsPerHour) % 24,
                                         (d / MsPerMinute) % 60, (d / MsPerSecond) % 60)
  {
    var x := d as real;
    assert (x / 86_400_000.0).Floor == d / MsPerDay by {
      FloorOfQuotient(d, MsPerDay);
    }
    assert JsRemainder(x / 3_600_000.0, 24.0).Floor == (d / MsPerHour) % 24 by {
      FloorOfRemainder(d, MsPerHour, 24);
    }
    assert JsRemainder(x / 60_000.0, 60.0).Floor == (d / MsPerMinute) % 60 by {
      FloorOfRemainder(d, MsPerMinute, 60);
    }
    assert JsRemainder(x / 1000.0, 60.0).Floor == (d / MsPerSecond) % 60 by {
      FloorOfRemainder(d, MsPerSecond, 60);
    }
  }

  /** On exact reals the written formulas compute the same record as integer
      division and remainder. */
  lemma AsWrittenAgrees(target: int, now: int)
    ensures CalculateTimeLeftAsWritten(target, now) == CalculateTimeLeft(target, now)
  {
    CalculateTimeLeftIsUnique(target, now, CalculateTimeLeftAsWritten(target, now));
  }

  lemma FloorIs(x: real, n: int)
    requires n as real <= x < n as real + 1.0
    ensures x.Floor == n
  {
  }

  lemma FloorOfQuotient(d: int, u: int)
    requires 0 <= d && 0 < u
    ensures (d as real / u as real).Floor == d / u
  {
    var q, r := d / u, d % u;
    assert d as real == q as real * u as real + r as real;
    var x := d as real / u as real;
    assert x == q as real + r as real / u as real;
    assert 0.0 <= r as real / u as real < 1.0;
    FloorIs(x, q);
  }

  lemma FloorOfRemainder(d: int, u: int, m: int)
    requires 0 <= d && 0 < u && 0 < m
    ensures JsRemainder(d as real / u as real, m as real).Floor == (d / u) % m
  {
    var x := d as real / u as real;
    var q := d / u;
    var k := q / m;
    assert x / m as real == d as real / (u * m) as real;
    FloorOfQuotient(d, u * m);
    DivDiv(d, u, m);
    assert 0.0 <= x / m as real;
    assert TruncateToInt(x / m as real) == (x / m as real).Floor;
    assert TruncateToInt(x / m as real) == k;
    FloorOfQuotient(d, u);
    assert q as real <= x < q as real + 1.0;
    assert q - m * k == q % m;
    var rem := JsRemainder(x, m as real);
    assert rem == x - m as real * k as real;
    assert (q % m) as real <= rem < (q % m) as real + 1.0;
    FloorIs(rem, q % m);
  }

  // ---------------------------------------------------------------------------
  // Integer division facts

  lemma DivModUnique(x: int, m: int, q: int, r: int)
    requires 0 < m && 0 <= r < m && x == q * m + r
    ensures x / m == q && x % m == r
  {
    var q', r' := x / m, x % m;
    assert q' * m + r' == q * m + r;
    if q' < q {
      var k := q - q';
      assert k * m == r' - r by { assert k * m == q * m - q' * m; }
      AtLeastOneMultiple(k, m);
    } else if q' > q {
      var k := q' - q;
      assert k * m == r - r' by { assert k * m == q' * m - q * m; }
      AtLeastOneMultiple(k, m);
    }
  }

  lemma AtLeastOneMultiple(k: int, m: int)
    requires 1 <= k && 0 < m
    ensures m <= k * m
  {
    assert k * m == (k - 1) * m + m;
    assert 0 <= (k - 1) * m;
  }

  lemma DivDiv(x: int, a: int, b: int)
    requires 0 <= x && 0 < a && 0 < b
    ensures x / a / b == x / (a * b)
  {
    var q, r := x / a, x % a;
    var q2, r2 := q / b, q % b;
    assert x == q * a + r;
    assert q == q2 * b + r2;
    assert q * a == q2 * (a * b) + r2 * a by {
      assert (q2 * b + r2) * a == q2 * b * a + r2 * a;
      assert q2 * b * a == q2 * (a * b);
    }
    assert r2 * a <= (b - 1) * a by {
      MulMonotone(r2, b - 1, a);
    }
    assert (b - 1) * a == a * b - a;
    DivModUnique(x, a * b, q2, r2 * a + r);
  }

  lemma MulMonotone(x: int, y: int, a: int)
    requires x <= y && 0 <= a
    ensures x * a <= y * a
  {
    assert y * a - x * a == (y - x) * a;
  }

  /** Whole seconds split into days, hours, minutes and seconds, as the timer
      does it, rebuild the whole seconds. */
  lemma MixedRadix(d: int)
    requires 0 <= d
    ensures var s := d / MsPerSecond;
      (d / MsPerDay) * 86400 + ((d / MsPerHour) % 24) * 3600
        + ((d / MsPerMinute) % 60) * 60 + (d / MsPerSecond) % 60 == s
  {
    var s := d / MsPerSecond;
    var m := s / 60;
    var h := m / 60;
    DivDiv(d, MsPerSecond, 60);
    DivDiv(d, MsPerMinute, 60);
    DivDiv(d, MsPerHour, 24);
    assert d / MsPerMinute == m;
    assert d / MsPerHour == h;
    assert d / MsPerDay == h / 24;
    assert s == m * 60 + s % 60;
    assert m == h * 60 + m % 60;
    assert h == (h / 24) * 24 + h % 24;
  }
}
