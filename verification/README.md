# Decimal clock: a Dafny model of its time arithmetic and offset rules

The clock shows the time of day in a decimal system: 10 hours per day,
100 minutes per hour and 100 seconds per minute, so a day has 100 000
decimal seconds. The user picks a whole-hour UTC offset. The model covers
the arithmetic core of `script.js` and the rules around it:

- **ZoneParts** (`getZoneLocalParts`). The instant, in epoch milliseconds,
  is shifted by `offset * 3600000`. Hour, minute, second and millisecond are
  then read with the UTC getters exactly as ECMAScript defines them: floor
  division followed by a non-negative remainder. A shifted instant outside
  the range of a Date (|t| > 8.64e15) gives `None`, the Invalid Date.
- **DecimalTime** (`computeDecimalFromZoneParts`, the `decimalTime` readout).
  The day fraction is scaled to subunits, floored, reduced modulo the full
  cycle and split into decimal hour, minute and second. This is done in exact
  integers: `floor(msOfDay * fullCycle / 86400000)`. Day progress is kept as
  the numerator `progressMs` over 86 400 000.
- **Offset** (`initSlider`, `updateTzLabel`). Covers the startup default from
  the detected offset, the slider, the manual entry prompt, the saved-value
  check, the `UTC±N` label and persisting the choice.
- **Face**. Which hour ticks are bright, and what number each position shows.
- **Numerals**. `toString`, `padStart(2, '0')` and reading decimal text back.

The host is passed in as parameters:
- the clock is an integer `utcMs`;
- `getTimezoneOffset()` is an integer number of minutes;
- the stored preference is an `Option<string>`;
- the prompt's result is `Cancelled` or the entered text as `parseInt` reads it.

The offset rules, as the code has them:
- Manual entry: every entry that is not Cancel and does not parse to an
  integer in [-12, 14] raises the alert. Non-numeric text also raises the
  alert; only Cancel is silent.
- Tick spacing: bright ticks fall every `max(1, floor(hours / 5))`
  positions.
- Startup order: the saved preference is read only after the default has
  been persisted (see Findings).

## Model

| member | source | states |
|---|---|---|
| ZoneParts.ZoneLocalParts | script.js:87-98 | The parts exist exactly when the shifted instant is a valid Date. They are a valid time of day, and they denote the millisecond `(utcMs + offset*3600000) mod 86400000`. |
| ZoneParts.UtcParts | script.js:93-96 | The UTC getters of any time value give an hour below 24, a minute and a second below 60, and a millisecond below 1000. |
| ZoneParts.UtcPartsPeriodic | script.js:91-97 | Each UTC getter repeats with a period of one day. |
| ZoneParts.SplitRecompose | script.js:92-97 | Splitting a millisecond of the day into h/m/s/ms gives in-range fields that recompose to that millisecond. |
| ZoneParts.RecomposeSplit | script.js:102-103 | Parts with hour<24, minute<60, second<60 and ms<1000 give a millisecond of the day below 86 400 000, so the day fraction is below 1. Splitting that millisecond again returns the same parts. |
| ZoneParts.PartsDeterminedByMsOfDay | script.js:92-102 | Two valid sets of parts that denote the same millisecond are equal. |
| ZoneParts.OffsetAliasing | script.js:88-96 | For the same instant, offsets `o` and `o+24` give identical parts. |
| DecimalTime.FromDayMs | script.js:103-109 | For millisecond `m` of the day, the total is in [0, hours*hourDiv*minDiv). The fields are in range and recompose to the total. When `m` is within one day, the total is exactly `floor(m * fullCycle / 86400000)`, stated as the two bounds of the floor. |
| DecimalTime.FromParts | script.js:101-111 | The total is in [0, hours*hourDiv*minDiv). The fields satisfy decH<hours, decM<hourDiv and decS<minDiv, and they recompose to the total. For a real time of day, progress is below one day and the total is the floor of the day fraction times the full cycle. |
| DecimalTime.Convert | script.js:116-118 | A reading exists exactly when the shifted instant is valid. It is the reading of the millisecond `(utcMs + offset*3600000) mod 86400000`: its progress is that millisecond, its total is the floor of that day fraction times the full cycle, and its hour, minute and second fields are in range and recompose to the total. |
| DecimalTime.Readout | script.js:131-132 | The readout is each field's decimal text padded to two characters, joined by "h ", "m " and "s". When every field is below 100, the separately defined readout parser reads the three fields back from it. |
| DecimalTime.ReadingOffsetAliasing | script.js:88-110 | For the same instant, offsets `o` and `o+24` give the same decimal reading. |
| DecimalTime.MidnightReadsZero | script.js:102-109 | Shifted local 00:00:00.000 reads 0h 0m 0s with progress 0. |
| DecimalTime.NoonReadsFive | script.js:102-109 | Shifted local 12:00:00.000 reads 5h 0m 0s with progress exactly one half. |
| DecimalTime.ReadingMonotone | script.js:102-105 | Within a day, a later time of day never gives a smaller decimal total. |
| DecimalTime.DecimalSecondSpan | script.js:102-109 | On the 10/100/100 clock, millisecond `d` of the day is decimal second `d / 864`, so each decimal second lasts exactly 864 ms. |
| DecimalTime.ReadoutRoundTrip | script.js:131-132 | When every field is below 100, the `HHh MMm SSs` readout has 11 characters and parses back to the three fields. |
| DecimalTime.DecimalReadoutRoundTrip | script.js:131-132 | Every reading of the 10/100/100 clock has a readout that parses back to its fields. |
| Numerals.NatToString | script.js:132 | The decimal text of a natural number is non-empty and all digits. It has no leading zero, so 0 is exactly "0". Its digits evaluate back to the number. |
| Numerals.IntToString | script.js:83 | `n.toString()` is canonical: a '-' exactly for negative `n`, then digits with no leading zero, and 0 is exactly "0". Reading it back gives `n`. |
| Numerals.ParseInt | script.js:65 | A non-empty string of digits reads as its decimal value, and with a leading '-' or '+' as its negated or unchanged value. Every other text, including the empty string, a bare sign and non-numeric text, reads as nothing. |
| Numerals.PadStart2 | script.js:132 | A text of two or more characters comes back unchanged. A shorter one is left-padded with '0' to exactly two characters and ends with the original text. |
| Numerals.PadStart2RoundTrip | script.js:132 | A number below 100 padded with zeros to two characters is two digits that read back as the number. |
| Offset.TzLabel | script.js:74-77 | The label is `UTC`, then '+' for non-negative and '-' for negative offsets, then the canonical digits of the magnitude with no leading zero, so offset 0 is exactly "UTC+0". The offset reads back from the text after `UTC`. |
| Offset.TzLabelInjective | script.js:74-77 | Different offsets never share a label. |
| Offset.Select | script.js:74-84 | Selecting `n` makes the zone `n` and the label its text. It persists `n`, and reading the stored value back gives `n`. |
| Offset.SliderInput | script.js:42-46 | A slider value in [-12, 14] becomes the zone, with label and stored value to match. |
| Offset.ManualEntry | script.js:49-60 | An entry that parses to an integer in [-12, 14] selects it with no alert. Any other entry raises the alert and leaves the state unchanged. Cancel is silent and changes nothing. |
| Offset.ManualEntryKeepsInvariant | script.js:49-60 | Manual entry keeps the label and the stored value in step with the zone, and keeps the zone in [-12, 14]. |
| Offset.ManualEntryBoundaries | script.js:52-58 | 14 and -12 are accepted. 15 and -13 raise the alert and change nothing. Cancel changes nothing. |
| Offset.ManualEntrySelectsIffInRange | script.js:52-55 | An entered integer different from the current zone becomes the zone exactly when it lies in [-12, 14]. |
| Offset.ApplySaved | script.js:63-71 | A saved text is applied exactly when it parses to an integer in [-12, 14]. Otherwise nothing changes. |
| Offset.TruncDiv | script.js:35-38 | The quotient `a / b` truncated toward zero, for both signs of `a`. For `b = 60` and `|a| <= 840`, the detected offset's case, this is what `parseInt` reads from the decimal text of the quotient. |
| Offset.DefaultZone | script.js:35-36 | The default is always in [-12, 14]. It is the detected offset when that is a whole hour in range, the detected offset truncated toward zero when it is fractional, and 0 when it is out of range. |
| Offset.StartupAsWritten | script.js:35-71 | Startup as the code orders it always leaves a consistent, in-range selector. |
| Offset.StartupAsWrittenIgnoresSaved | script.js:39-71 | As written, startup always ends at the default, whatever preference was saved. |
| Offset.SavedPreferenceLost | script.js:39-71 | A saved "3", reloaded where the detected offset is UTC+0, comes up as zone 0. |
| Offset.Startup | script.js:35-71 | With the saved value read first, startup selects that value when it parses into [-12, 14], and the default otherwise. The result is consistent and in range. |
| Offset.ReloadRestoresSelection | script.js:63-83 | Selecting `n`, then starting again in any detected offset, comes back to exactly the state selecting `n` produced. |
| Face.DecimalMajorTicksAreEven | script.js:149 | On the 10-hour face, a tick is bright exactly at the even positions. |
| Face.MajorStep | script.js:149 | The spacing of bright ticks, `max(1, floor(hours/5))`, is at least 1, so the remainder taken at script.js:149 is always defined. |
| Face.MajorTicks | script.js:141-149 | The bright positions, in increasing order: exactly the positions below `hours` that are multiples of `max(1, floor(hours/5))`. |
| Face.FaceLabels | script.js:141-160 | The numbers around the face: one per position. The top position shows `hours` and every other position `j` shows `j`, so each of 1..hours appears exactly once. |

## Left out

- Canvas drawing (script.js:139-233) is presentation only: the gradient, strokes, shadows, the centre dot and the three hand angles. It is floating-point trigonometry.
- DecimalTime.FromParts: computes with exact integers where the source uses IEEE doubles (`ms/1000`, `/86400`, `* fullCycle`). Float rounding right at a subunit boundary, which could move a floor by one, is not modelled. The `totalDecimalSecondsFloat` field, used only by the hands, is not modelled either.
- The day-progress percentage (`toFixed(4)`, script.js:134-136) is not modelled. It is float formatting; progress is kept as the exact fraction `progressMs / 86400000`.
- The wall-clock readout (`Intl.DateTimeFormat`, script.js:121-129) belongs to the host's locale formatter and is not modelled.
- DecimalTime.Convert: when the shifted instant is not a valid Date it yields `None`. What the page then shows ("NaN" fields) is not modelled.
- ZoneParts.ZoneLocalParts: requires `now` to be a valid Date. `getZoneLocalParts` is only called with `new Date()`.
- Numerals.ParseInt: accepts only an optional sign followed by digits. JavaScript's `parseInt` also skips leading white space, ignores trailing characters and reads a `0x` prefix as hexadecimal, so a stored text such as `" 3"` or `"3abc"` is rejected here but applied by the source. The two agree on every text the program itself stores.
- Offset.ManualEntry: takes the entered text already read by `parseInt` (an integer or NaN), rather than the text itself.
- Offset.SliderInput: requires the value to be in [-12, 14]. The source relies on the range control's own bounds for this.
- Offset.Selector keeps `selectedZone` as the integer it parses to. A fractional default such as `"5.5"` is therefore held as 5, which is how both `getZoneLocalParts` and `updateTzLabel` read it. Setting the slider to a fractional value (script.js:37) is left to the browser's step rounding and is not modelled.
- Offset.Selector has no slider position. The writes `slider.value = defaultVal` (script.js:37), `slider.value = numValue` (script.js:53) and `slider.value = savedNum` (script.js:67) only move the DOM control to the selected zone, so they are not modelled.
- The hidden `<select>` (script.js:24-32, 45, 56) is DOM bookkeeping and is not modelled. Its option texts use the same format as `Offset.TzLabel`.
- Writing the label into the two DOM elements (script.js:80-81) is DOM I/O and is not modelled. The caption is kept as a field of the state.
- The animation loop (`startAnimation`, `requestAnimationFrame`, script.js:237-250) is host scheduling with a run-once guard and is not modelled.

## Findings

| source | as written | input that shows it | evidently intended | confidence | as-written member | corrected member |
|---|---|---|---|---|---|---|
| script.js:39 | `initSlider` calls `updateTzLabel(defaultVal)`, which writes the default to local storage (line 83). The saved value is read only afterwards (line 63), so the read always returns the default just written. | A saved preference of "3", then a reload where `getTimezoneOffset()` is 0: the clock starts at UTC+0. | The saved preference, when it parses into [-12, 14], is restored on reload (comment on line 62). | high; not executed | Offset.StartupAsWritten | Offset.Startup |
