/** The selected UTC offset: its default, the slider, the manual entry, the
    saved preference and the label that shows it (`initSlider`,
    `updateTzLabel`). */
module Offset {
  import opened Options
  import opened Numerals

  const MinOffset := -12
  const MaxOffset := 14

  /** The offsets the clock accepts. */
  predicate InRange(n: int) {
    MinOffset <= n <= MaxOffset
  }

  /** `UTC+N` for non-negative and `UTC-N` for negative offsets; the offset
      can be read back from the text after `UTC`. */
  function TzLabel(n: int): (text: string)
    ensures |text| > 4 && text[..3] == "UTC"
    ensures text[3] == (if n >= 0 then '+' else '-')
    ensures ParseInt(text[3..]) == Some(n)
    ensures AllDigits(text[4..]) && (text[4] == '0' ==> n == 0 && |text| == 5)
  {
    var digits := IntToString(n);
    var text := "UTC" + (if n >= 0 then "+" else "") + digits;
    if n >= 0 then
      assert text[3..] == "+" + digits;
      assert ("+" + digits)[1..] == digits;
      assert ParseInt(digits) == Some(n);
      text
    else
      assert text[3..] == digits;
      text
  }

  /** Two offsets never share a label. */
  lemma TzLabelInjective(m: int, n: int)
    requires TzLabel(m) == TzLabel(n)
    ensures m == n
  {
    assert ParseInt(TzLabel(m)[3..]) == Some(m);
  }

  /** The selector's state: `selectedZone` as the offset it parses to, the
      caption shown by the label, and the stored preference. */
  datatype Selector = Selector(zone: int, caption: string, stored: Option<string>)

  /** The caption shows the zone and the stored preference is the zone's text. */
  predicate Consistent(s: Selector) {
    s.caption == TzLabel(s.zone) && s.stored == Some(IntToString(s.zone))
  }

  /** Reading the stored preference back as `parseInt` would. */
  function ReadStored(stored: Option<string>): Option<int> {
    match stored
    case None => None
    case Some(text) => ParseInt(text)
  }

  /** Selecting offset `n`: `selectedZone` and `updateTzLabel(n)`, which
      rewrites the label and persists the offset. */
  function Select(n: int): (s: Selector)
    ensures s.zone == n
    ensures Consistent(s)
    ensures ReadStored(s.stored) == Some(n)
  {
    Selector(n, TzLabel(n), Some(IntToString(n)))
  }

  /** The slider's input handler. The range control itself keeps its value in
      [-12, 14]. */
  function SliderInput(v: int): (s: Selector)
    requires InRange(v)
    ensures s.zone == v && InRange(s.zone) && Consistent(s)
  {
    Select(v)
  }

  /** What the prompt returned: Cancel, or the entered text as `parseInt`
      reads it (None for NaN). */
  datatype Prompt = Cancelled | Entered(parsed: Option<int>)

  datatype Notice = NoNotice | RangeAlert

  datatype EntryOutcome = EntryOutcome(state: Selector, notice: Notice)

  predicate Accepts(p: Prompt) {
    p.Entered? && p.parsed.Some? && InRange(p.parsed.value)
  }

  /** The label's click handler: an entry that parses to an integer in
      [-12, 14] is selected; any other entry raises the alert and a Cancel is
      ignored, both leaving the state as it was. */
  function ManualEntry(s: Selector, p: Prompt): (r: EntryOutcome)
    ensures Accepts(p) ==> r.state == Select(p.parsed.value) && r.notice == NoNotice
    ensures !Accepts(p) ==> r.state == s
    ensures r.notice == RangeAlert <==> p.Entered? && !Accepts(p)
  {
    match p
    case Entered(Some(n)) =>
      if InRange(n) then EntryOutcome(Select(n), NoNotice) else EntryOutcome(s, RangeAlert)
    case Entered(None) => EntryOutcome(s, RangeAlert)
    case Cancelled => EntryOutcome(s, NoNotice)
  }

  /** Manual entry keeps the selector consistent and in range. */
  lemma ManualEntryKeepsInvariant(s: Selector, p: Prompt)
    requires Consistent(s) && InRange(s.zone)
    ensures Consistent(ManualEntry(s, p).state)
    ensures InRange(ManualEntry(s, p).state.zone)
  {
  }

  /** The bounds of the manual entry: 14 and -12 are taken, 15 and -13 are
      refused with the alert and change nothing. */
  lemma ManualEntryBoundaries(s: Selector)
    ensures ManualEntry(s, Entered(Some(14))).state.zone == 14
    ensures ManualEntry(s, Entered(Some(-12))).state.zone == -12
    ensures ManualEntry(s, Entered(Some(15))) == EntryOutcome(s, RangeAlert)
    ensures ManualEntry(s, Entered(Some(-13))) == EntryOutcome(s, RangeAlert)
    ensures ManualEntry(s, Cancelled) == EntryOutcome(s, NoNotice)
  {
  }

  /** An entry selects `n` exactly when `n` is in range. */
  lemma ManualEntrySelectsIffInRange(s: Selector, n: int)
    requires s.zone != n
    ensures ManualEntry(s, Entered(Some(n))).state.zone == n <==> InRange(n)
  {
  }

  /** The saved-value check: a stored text is applied only if it parses to an
      integer in [-12, 14]. */
  function ApplySaved(s: Selector, saved: Option<string>): (r: Selector)
    ensures ReadStored(saved).Some? && InRange(ReadStored(saved).value) ==> r == Select(ReadStored(saved).value)
    ensures !(ReadStored(saved).Some? && InRange(ReadStored(saved).value)) ==> r == s
  {
    if saved.Some? then
      var savedNum := ParseInt(saved.value);
      if savedNum.Some? && InRange(savedNum.value) then Select(savedNum.value) else s
    else s
  }

  /** The quotient `a / b` truncated toward zero. For `b = 60` and
      `|a| <= 840`, as in the startup default, this is what `parseInt` reads
      from the decimal text of the quotient. */
  function TruncDiv(a: int, b: int): (q: int)
    requires b > 0
    ensures a >= 0 ==> q * b <= a < q * b + b
    ensures a < 0 ==> q * b - b < a <= q * b
  {
    if a >= 0 then a / b else -((-a) / b)
  }

  /** The startup default. `tzOffsetMinutes` is what `getTimezoneOffset`
      returns (UTC minus local time, in minutes), so the detected offset is
      `-tzOffsetMinutes / 60` hours, possibly fractional; when it lies in
      [-12, 14] the zone is that value truncated toward zero, otherwise 0. */
  function DefaultZone(tzOffsetMinutes: int): (z: int)
    ensures InRange(z)
    ensures -720 <= -tzOffsetMinutes <= 840 ==> z == TruncDiv(-tzOffsetMinutes, 60)
    ensures -720 <= -tzOffsetMinutes <= 840 && tzOffsetMinutes % 60 == 0 ==> z * 60 == -tzOffsetMinutes
    ensures !(-720 <= -tzOffsetMinutes <= 840) ==> z == 0
  {
    var localMinutes := -tzOffsetMinutes;
    if MinOffset * 60 <= localMinutes <= MaxOffset * 60 then TruncDiv(localMinutes, 60) else 0
  }

  /** `initSlider` as written: the default is selected, and so persisted by
      `updateTzLabel`, before the saved value is read, so what it reads back is
      always the default it has just written. */
  function StartupAsWritten(prior: Option<string>, tzOffsetMinutes: int): (s: Selector)
    ensures Consistent(s) && InRange(s.zone)
  {
    var initial := Select(DefaultZone(tzOffsetMinutes));
    ApplySaved(initial, initial.stored)
  }

  /** As written, startup never restores the saved preference. */
  lemma StartupAsWrittenIgnoresSaved(prior: Option<string>, tzOffsetMinutes: int)
    ensures StartupAsWritten(prior, tzOffsetMinutes) == Select(DefaultZone(tzOffsetMinutes))
  {
  }

  /** A concrete case: offset 3 was saved, the page is reloaded where the
      detected offset is 0, and the clock comes up in UTC+0. */
  lemma SavedPreferenceLost()
    ensures ReadStored(Some("3")) == Some(3)
    ensures StartupAsWritten(Some("3"), 0).zone == 0
  {
    assert "3"[..0] == [];
  }

  /** Startup reading the saved value before the default is persisted: the
      saved value wins when valid, and the default is used otherwise. */
  function Startup(prior: Option<string>, tzOffsetMinutes: int): (s: Selector)
    ensures Consistent(s) && InRange(s.zone)
    ensures ReadStored(prior).Some? && InRange(ReadStored(prior).value) ==> s.zone == ReadStored(prior).value
    ensures !(ReadStored(prior).Some? && InRange(ReadStored(prior).value)) ==> s.zone == DefaultZone(tzOffsetMinutes)
  {
    ApplySaved(Select(DefaultZone(tzOffsetMinutes)), prior)
  }

  /** A selection survives a reload: selecting `n` and starting again, in any
      detected offset, comes back to `n`. */
  lemma ReloadRestoresSelection(n: int, tzOffsetMinutes: int)
    requires InRange(n)
    ensures Startup(Select(n).stored, tzOffsetMinutes) == Select(n)
  {
  }
}
