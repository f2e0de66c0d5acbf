/** Time of day in a fixed UTC offset (`getZoneLocalParts`): the instant is
    shifted by whole hours and read back with Date's UTC getters. */
module ZoneParts {
  import opened Options

  const MsPerSecond := 1000
  const MsPerMinute := 60000
  const MsPerHour := 3600000
  const MsPerDay := 86400000

  /** Largest magnitude of a Date's time value (TimeClip in ECMAScript). */
  const MaxTimeValue := 8_640_000_000_000_000

  predicate IsTimeValue(t: int) {
    -MaxTimeValue <= t <= MaxTimeValue
  }

  /** What `getUTCHours`, `getUTCMinutes`, `getUTCSeconds` and
      `getUTCMilliseconds` report. */
  datatype Parts = Parts(hour: nat, minute: nat, second: nat, ms: nat) {
    predicate Valid() {
      hour < 24 && minute < 60 && second < 60 && ms < 1000
    }
  }

  /** Milliseconds since the start of the day the parts describe, that is
      1000 times `totalSeconds`. */
  function MsOfDay(p: Parts): nat {
    p.hour * MsPerHour + p.minute * MsPerMinute + p.second * MsPerSecond + p.ms
  }

  /** The UTC getters of a valid Date with time value `t`, as ECMAScript
      defines them: floor division, then a non-negative remainder (Dafny's
      `/` and `%` with a positive divisor are exactly these). */
  function UtcParts(t: int): (p: Parts)
    ensures p.Valid()
  {
    Parts((t / MsPerHour) % 24, (t / MsPerMinute) % 60, (t / MsPerSecond) % 60, t % MsPerSecond)
  }

  /** `getZoneLocalParts(offset, now)`: None stands for the Invalid Date that
      `new Date(targetMs)` gives once the shifted instant leaves the range. */
  function ZoneLocalParts(utcMs: int, offset: int): (r: Option<Parts>)
    requires IsTimeValue(utcMs)
    ensures r.Some? <==> IsTimeValue(utcMs + offset * MsPerHour)
    ensures r.Some? ==> r.value.Valid()
    ensures r.Some? ==> MsOfDay(r.value) == (utcMs + offset * MsPerHour) % MsPerDay
  {
    var targetMs := utcMs + offset * MsPerHour;
    if IsTimeValue(targetMs) then
      UtcPartsPeriodic(targetMs);
      SplitRecompose(targetMs % MsPerDay);
      Some(UtcParts(targetMs))
    else None
  }

  // Arithmetic helpers.

  lemma MulSign(k: int, d: int)
    requires d > 0
    ensures k >= 1 ==> k * d >= d
    ensures k <= -1 ==> k * d <= -d
  {
  }

  lemma DivModUnique(x: int, d: int, q: int, r: int)
    requires d > 0 && 0 <= r < d && x == q * d + r
    ensures x / d == q && x % d == r
  {
    var q0, r0 := x / d, x % d;
    var k := q - q0;
    assert k * d == q * d - q0 * d;
    assert k * d == r0 - r;
    MulSign(k, d);
  }

  lemma DivOfShift(x: int, q: int, d: int)
    requires d > 0
    ensures (q * d + x) / d == q + x / d
    ensures (q * d + x) % d == x % d
  {
    DivModUnique(q * d + x, d, q + x / d, x % d);
  }

  /** Reading `(t / a) % b` only depends on `t` modulo any multiple `a * b * c`. */
  lemma DigitPeriodic(t: int, a: int, b: int, c: int)
    requires a > 0 && b > 0 && c > 0
    ensures (t / a) % b == ((t % (a * b * c)) / a) % b
  {
    var n := a * b * c;
    assert n > 0 by {
      assert a * b > 0;
    }
    var q := t / n;
    var d := t % n;
    assert t == q * n + d;
    assert q * n == (q * b * c) * a;
    DivOfShift(d, q * b * c, a);
    assert t / a == q * b * c + d / a;
    assert q * b * c == (q * c) * b;
    DivOfShift(d / a, q * c, b);
  }

  /** Every UTC getter repeats with a period of one day. */
  lemma UtcPartsPeriodic(t: int)
    ensures UtcParts(t) == UtcParts(t % MsPerDay)
  {
    var d := t % MsPerDay;
    DigitPeriodic(t, MsPerHour, 24, 1);
    DigitPeriodic(t, MsPerMinute, 60, 24);
    DigitPeriodic(t, MsPerSecond, 60, 1440);
    DigitPeriodic(t, 1, MsPerSecond, 86400);
    assert (d / 1) % MsPerSecond == d % MsPerSecond;
  }

  /** Mixed-radix split of a millisecond of the day and its recomposition. */
  lemma SplitRecompose(d: int)
    requires 0 <= d < MsPerDay
    ensures UtcParts(d).Valid()
    ensures MsOfDay(UtcParts(d)) == d
  {
    var h := d / MsPerHour;
    var rh := d % MsPerHour;
    var m := rh / MsPerMinute;
    var rm := rh % MsPerMinute;
    var s := rm / MsPerSecond;
    var ms := rm % MsPerSecond;
    assert d == h * MsPerHour + m * MsPerMinute + s * MsPerSecond + ms;
    DivModUnique(d / MsPerMinute, 60, h, m);
    DivModUnique(d, MsPerMinute, h * 60 + m, rm);
    DivModUnique(d / MsPerSecond, 60, h * 60 + m, s);
    DivModUnique(d, MsPerSecond, (h * 60 + m) * 60 + s, ms);
  }

  /** Valid parts are recovered from the millisecond of the day they denote. */
  lemma {:induction false} RecomposeSplit(p: Parts)
    requires p.Valid()
    ensures MsOfDay(p) < MsPerDay
    ensures UtcParts(MsOfDay(p)) == p
  {
    var d := MsOfDay(p);
    DivModUnique(d, MsPerSecond, (p.hour * 60 + p.minute) * 60 + p.second, p.ms);
    DivModUnique(d / MsPerSecond, 60, p.hour * 60 + p.minute, p.second);
    DivModUnique(d, MsPerMinute, p.hour * 60 + p.minute, p.second * MsPerSecond + p.ms);
    DivModUnique(d / MsPerMinute, 60, p.hour, p.minute);
    DivModUnique(d, MsPerHour, p.hour, p.minute * MsPerMinute + p.second * MsPerSecond + p.ms);
    DivModUnique(d / MsPerHour, 24, 0, p.hour);
  }

  /** Two valid sets of parts that denote the same millisecond are equal. */
  lemma PartsDeterminedByMsOfDay(p: Parts, q: Parts)
    requires p.Valid() && q.Valid() && MsOfDay(p) == MsOfDay(q)
    ensures p == q
  {
    RecomposeSplit(p);
    RecomposeSplit(q);
  }

  /** Offsets 24 hours apart read the same time of day from the same instant. */
  lemma OffsetAliasing(utcMs: int, offset: int)
    requires IsTimeValue(utcMs)
    requires IsTimeValue(utcMs + offset * MsPerHour)
    requires IsTimeValue(utcMs + (offset + 24) * MsPerHour)
    ensures ZoneLocalParts(utcMs, offset) == ZoneLocalParts(utcMs, offset + 24)
  {
    var t := utcMs + offset * MsPerHour;
    DivOfShift(t, 1, MsPerDay);
    assert utcMs + (offset + 24) * MsPerHour == 1 * MsPerDay + t;
    PartsDeterminedByMsOfDay(ZoneLocalParts(utcMs, offset).value, ZoneLocalParts(utcMs, offset + 24).value);
  }
}
