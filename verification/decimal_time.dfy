/** Conversion of a time of day into a decimal clock reading
    (`computeDecimalFromZoneParts`) and its `HHh MMm SSs` readout. */
module DecimalTime {
  import opened Options
  import opened Numerals
  import opened ZoneParts

  /** A subdivision of the day: `hours` per day, `hourDiv` units per hour,
      `minDiv` subunits per unit. */
  datatype TimeSystem = TimeSystem(name: string, hours: nat, hourDiv: nat, minDiv: nat, color: string) {
    predicate Valid() {
      hours > 0 && hourDiv > 0 && minDiv > 0
    }

    /** Subunits in one decimal hour. */
    function SubunitsPerHour(): nat {
      hourDiv * minDiv
    }

    /** Subunits in one day. */
    function FullCycle(): nat {
      hours * hourDiv * minDiv
    }
  }

  /** The one system the clock defines: 10 hours of 100 minutes of 100 seconds. */
  const Decimal := TimeSystem("Decimal (10/100/100)", 10, 100, 100, "#FF6B6B")

  /** One decimal reading. The day progress is the fraction
      `progressMs / MsPerDay`; `total` is the whole number of subunits elapsed. */
  datatype Reading = Reading(progressMs: nat, total: nat, decH: nat, decM: nat, decS: nat)

  // Arithmetic helpers.

  lemma MulMonotone(a: int, b: int, c: nat)
    ensures a <= b ==> a * c <= b * c
    ensures a < b && c > 0 ==> a * c < b * c
  {
  }

  lemma QuotientBelow(x: nat, u: nat, h: nat)
    requires u > 0 && x < h * u
    ensures x / u < h
  {
    var q := x / u;
    assert q * u <= x;
    MulMonotone(h, q, u);
  }

  lemma FloorDivBounds(x: nat, y: nat)
    requires y > 0
    ensures (x / y) * y <= x < (x / y + 1) * y
  {
  }

  lemma ScaledBelowCycle(m: nat, f: nat)
    requires f > 0 && m < MsPerDay
    ensures m * f / MsPerDay < f
  {
    MulMonotone(m, MsPerDay, f);
    assert m * f < f * MsPerDay;
    QuotientBelow(m * f, MsPerDay, f);
  }

  lemma ValidPartsWithinDay(p: Parts)
    ensures p.Valid() ==> MsOfDay(p) < MsPerDay
  {
    if p.Valid() {
      RecomposeSplit(p);
    }
  }

  /** Floor of `m * cycle / MsPerDay`, and for `m` within one day a value
      already below the cycle. */
  lemma ScaleFacts(m: nat, cycle: nat)
    requires cycle > 0
    ensures (m * cycle / MsPerDay) * MsPerDay <= m * cycle < (m * cycle / MsPerDay + 1) * MsPerDay
    ensures m < MsPerDay ==> (m * cycle / MsPerDay) % cycle == m * cycle / MsPerDay
  {
    var x := m * cycle;
    FloorDivBounds(x, MsPerDay);
    if m < MsPerDay {
      ScaledBelowCycle(m, cycle);
    }
  }

  /** Splitting a total below `hours * hourDiv * minDiv` by mixed radix gives
      in-range fields that recompose to it. */
  lemma SplitTotal(total: nat, hours: nat, hourDiv: nat, minDiv: nat)
    requires hours > 0 && hourDiv > 0 && minDiv > 0
    requires total < hours * hourDiv * minDiv
    ensures total / (hourDiv * minDiv) < hours
    ensures (total % (hourDiv * minDiv)) / minDiv < hourDiv
    ensures (total / (hourDiv * minDiv)) * hourDiv * minDiv + ((total % (hourDiv * minDiv)) / minDiv) * minDiv
      + (total % (hourDiv * minDiv)) % minDiv == total
  {
    var perHour := hourDiv * minDiv;
    assert perHour > 0;
    assert hours * hourDiv * minDiv == hours * perHour;
    var decH := total / perHour;
    var decR := total % perHour;
    QuotientBelow(total, perHour, hours);
    QuotientBelow(decR, minDiv, hourDiv);
    assert decH * hourDiv * minDiv == decH * perHour;
    assert total == decH * perHour + decR;
    assert decR == (decR / minDiv) * minDiv + decR % minDiv;
  }

  /** The reading for the millisecond `m` of the day: the day fraction
      `m / MsPerDay` scaled to subunits is floored, reduced modulo the full
      cycle and split into hour, unit and subunit. */
  function FromDayMs(sys: TimeSystem, m: nat): (r: Reading)
    requires sys.Valid()
    ensures r.progressMs == m
    ensures r.total < sys.FullCycle()
    ensures r.decH < sys.hours && r.decM < sys.hourDiv && r.decS < sys.minDiv
    ensures r.decH * sys.hourDiv * sys.minDiv + r.decM * sys.minDiv + r.decS == r.total
    ensures m < MsPerDay ==> r.total * MsPerDay <= m * sys.FullCycle() < (r.total + 1) * MsPerDay
  {
    var cycle := sys.FullCycle();
    assert cycle > 0 by {
      assert sys.hours * sys.hourDiv > 0;
    }
    var perHour := sys.SubunitsPerHour();
    var total := (m * cycle / MsPerDay) % cycle;
    ScaleFacts(m, cycle);
    SplitTotal(total, sys.hours, sys.hourDiv, sys.minDiv);
    Reading(m, total, total / perHour, (total % perHour) / sys.minDiv, (total % perHour) % sys.minDiv)
  }

  /** `computeDecimalFromZoneParts(parts, system)` with the float arithmetic
      replaced by exact integers: `totalSeconds / 86400` is the fraction
      `MsOfDay(p) / MsPerDay`. */
  function FromParts(sys: TimeSystem, p: Parts): (r: Reading)
    requires sys.Valid()
    ensures r.progressMs == MsOfDay(p)
    ensures r.total < sys.FullCycle()
    ensures r.decH < sys.hours && r.decM < sys.hourDiv && r.decS < sys.minDiv
    ensures r.decH * sys.hourDiv * sys.minDiv + r.decM * sys.minDiv + r.decS == r.total
    ensures p.Valid() ==> r.progressMs < MsPerDay
    ensures p.Valid() ==> r.total * MsPerDay <= MsOfDay(p) * sys.FullCycle() < (r.total + 1) * MsPerDay
  {
    ValidPartsWithinDay(p);
    FromDayMs(sys, MsOfDay(p))
  }

  /** The reading drawn for an instant in a UTC offset (the first two steps of
      `drawClock`); None when the shifted instant is not a valid Date. */
  function Convert(sys: TimeSystem, utcMs: int, offset: int): (r: Option<Reading>)
    requires sys.Valid()
    requires IsTimeValue(utcMs)
    ensures r.Some? <==> IsTimeValue(utcMs + offset * MsPerHour)
    ensures r.Some? ==> r.value.progressMs == (utcMs + offset * MsPerHour) % MsPerDay
    ensures r.Some? ==> r.value.total < sys.FullCycle()
    ensures r.Some? ==> r.value == FromDayMs(sys, (utcMs + offset * MsPerHour) % MsPerDay)
  {
    match ZoneLocalParts(utcMs, offset)
    case None => None
    case Some(p) => Some(FromParts(sys, p))
  }

  /** The reading depends on the offset only modulo 24 hours. */
  lemma ReadingOffsetAliasing(sys: TimeSystem, utcMs: int, offset: int)
    requires sys.Valid()
    requires IsTimeValue(utcMs)
    requires IsTimeValue(utcMs + offset * MsPerHour)
    requires IsTimeValue(utcMs + (offset + 24) * MsPerHour)
    ensures Convert(sys, utcMs, offset) == Convert(sys, utcMs, offset + 24)
  {
    OffsetAliasing(utcMs, offset);
  }

  /** Local midnight of the shifted clock reads 0h 0m 0s with no progress. */
  lemma MidnightReadsZero(utcMs: int, offset: int)
    requires IsTimeValue(utcMs)
    requires IsTimeValue(utcMs + offset * MsPerHour)
    requires (utcMs + offset * MsPerHour) % MsPerDay == 0
    ensures Convert(Decimal, utcMs, offset) == Some(Reading(0, 0, 0, 0, 0))
  {
    var p := ZoneLocalParts(utcMs, offset).value;
    PartsDeterminedByMsOfDay(p, Parts(0, 0, 0, 0));
  }

  /** Local noon of the shifted clock is half the day: decimal 5h 0m 0s. */
  lemma NoonReadsFive(utcMs: int, offset: int)
    requires IsTimeValue(utcMs)
    requires IsTimeValue(utcMs + offset * MsPerHour)
    requires (utcMs + offset * MsPerHour) % MsPerDay == 12 * MsPerHour
    ensures Convert(Decimal, utcMs, offset).Some?
    ensures Convert(Decimal, utcMs, offset).value.progressMs * 2 == MsPerDay
    ensures Convert(Decimal, utcMs, offset) == Some(Reading(MsPerDay / 2, 50000, 5, 0, 0))
  {
    var p := ZoneLocalParts(utcMs, offset).value;
    PartsDeterminedByMsOfDay(p, Parts(12, 0, 0, 0));
  }

  /** Within one day, a later time of day never reads an earlier decimal time. */
  lemma ReadingMonotone(sys: TimeSystem, p: Parts, q: Parts)
    requires sys.Valid() && p.Valid() && q.Valid()
    requires MsOfDay(p) <= MsOfDay(q)
    ensures FromParts(sys, p).total <= FromParts(sys, q).total
  {
    var tp, tq := FromParts(sys, p).total, FromParts(sys, q).total;
    MulMonotone(MsOfDay(p), MsOfDay(q), sys.FullCycle());
    MulMonotone(tq + 1, tp, MsPerDay);
  }

  /** A decimal second of the 10/100/100 system lasts exactly 864 ms: the
      millisecond `d` of the day falls in decimal second `d / 864`. */
  lemma DecimalSecondSpan(d: int)
    requires 0 <= d < MsPerDay
    ensures FromParts(Decimal, UtcParts(d)).total == d / 864
  {
    SplitRecompose(d);
    var total := FromParts(Decimal, UtcParts(d)).total;
    var x := d * 100000;
    assert Decimal.FullCycle() == 100000;
    assert total * MsPerDay <= x < (total + 1) * MsPerDay;
    DivModUnique(x, MsPerDay, total, x - total * MsPerDay);
    assert x == (d / 864) * MsPerDay + (d % 864) * 100000;
    DivModUnique(x, MsPerDay, d / 864, (d % 864) * 100000);
  }

  /** The `decimalTime` readout: each field padded to two digits. When every
      field is below 100 the text parses back to the three fields. */
  function Readout(r: Reading): (s: string)
    ensures r.decH < 100 && r.decM < 100 && r.decS < 100 ==> ParseReadout(s) == Some((r.decH, r.decM, r.decS))
  {
    FieldsReadBack(r.decH, r.decM, r.decS);
    PadStart2(NatToString(r.decH)) + "h " + PadStart2(NatToString(r.decM)) + "m "
      + PadStart2(NatToString(r.decS)) + "s"
  }

  /** Reads a readout of the form `HHh MMm SSs` back into its three fields. */
  function ParseReadout(s: string): (r: Option<(nat, nat, nat)>)
    ensures r.Some? ==> |s| == 11
  {
    if |s| == 11 && AllDigits(s[0..2]) && s[2..4] == "h " && AllDigits(s[4..6])
      && s[6..8] == "m " && AllDigits(s[8..10]) && s[10] == 's'
    then Some((DigitsValue(s[0..2]), DigitsValue(s[4..6]), DigitsValue(s[8..10])))
    else None
  }

  /** Where the three two-character fields sit in a readout. */
  lemma ReadoutShape(h: string, m: string, sec: string)
    requires |h| == 2 && |m| == 2 && |sec| == 2
    ensures var s := h + "h " + m + "m " + sec + "s";
      |s| == 11 && s[0..2] == h && s[2..4] == "h " && s[4..6] == m && s[6..8] == "m " && s[8..10] == sec && s[10] == 's'
  {
  }

  /** Three fields below 100, padded and joined as the readout joins them,
      parse back to themselves. */
  lemma FieldsReadBack(h: nat, m: nat, sec: nat)
    ensures h < 100 && m < 100 && sec < 100 ==>
      ParseReadout(PadStart2(NatToString(h)) + "h " + PadStart2(NatToString(m)) + "m "
        + PadStart2(NatToString(sec)) + "s") == Some((h, m, sec))
  {
    if h < 100 && m < 100 && sec < 100 {
      PadStart2RoundTrip(h);
      PadStart2RoundTrip(m);
      PadStart2RoundTrip(sec);
      ReadoutShape(PadStart2(NatToString(h)), PadStart2(NatToString(m)), PadStart2(NatToString(sec)));
    }
  }

  /** A reading whose fields are below 100 is shown as eleven characters that
      give back the three fields. */
  lemma ReadoutRoundTrip(r: Reading)
    requires r.decH < 100 && r.decM < 100 && r.decS < 100
    ensures |Readout(r)| == 11
    ensures ParseReadout(Readout(r)) == Some((r.decH, r.decM, r.decS))
  {
  }

  /** Every reading of the 10/100/100 clock has a readout that parses back. */
  lemma DecimalReadoutRoundTrip(p: Parts)
    ensures ParseReadout(Readout(FromParts(Decimal, p))) == Some((FromParts(Decimal, p).decH, FromParts(Decimal, p).decM, FromParts(Decimal, p).decS))
  {
    ReadoutRoundTrip(FromParts(Decimal, p));
  }
}
