# Timezone converter — a Dafny model

The timezone converter is a single React component. It keeps a UTC minute of
the day (`utcValue`), an ordered list of tracked timezones (`timezones`) and,
for each of them, the minute of the day its slider shows (`values`). Moving
any slider re-derives every zone's local time from the UTC minute. Zones can
be added from a selector, removed, and reordered by drag and drop. Each
slider renders its value on a 12-hour clock. A URL containing `/share/`
carries a shared timezone and date-time. The "Schedule Meeting" action writes
the browser's UTC offset as a `±HHMM` string.

This project models that logic.

- `Converter` holds the component's state as the class `TimezoneConverter`.
  Its methods are the event handlers, each proved against specification
  functions (`ConvertedValues`, `SelectedTime`, `Without`, `Move`):
  - the mount effect;
  - `handleUtcChange`, with its loop over the tracked zones;
  - `handleTimezoneSelect`;
  - `handleTimezoneChange`;
  - `removeTimezone`;
  - `handleDrop`.
- `TrackedList` models the array operations the handlers use, on sequences:
  `filter` with a not-equal test, and the two `splice` calls of a reorder.
- `Clock` models the slider's split of a value into hours and minutes and its
  `formatTime`. A reader, `ParseTime`, serves as the partner for round-trip
  proofs.
- `ShareLink` models the deep-link effect's `indexOf`, `substring`, `split`
  and `replace`.
- `MeetOffset` models the `±HHMM` offset string, as written and as
  evidently intended, with `ParseUtcOffset` reading it back as a `±HHMM` offset.
- `JsNumber` gives JavaScript's truncating `%`, integer `toString` and
  `padStart`.
- `Wrappers` defines `Option`.

The timezone library is not modelled. Its results are parameters:

- `zoneOffset(tz, t)` stands for `moment.tz.zone(tz).utcOffset(t)`, in
  minutes west of UTC.
- `currentOffset` stands for `moment.tz(tz).utcOffset()`, in minutes east.

`decodeURIComponent` is a parameter that either yields text or fails.

Behaviour of the code worth knowing:

- **IST is hard-coded.** It is converted with a fixed +330 minutes, and its
  offset is never looked up in the library for the conversion. The slider's
  date line still passes "IST" to the library's `.tz` (line 34).
- **The hour is not zero-padded.** `formatTime` writes 330 minutes as
  "5:30 AM".
- **Not every stored value fits the slider.** Only `handleUtcChange`
  normalises into `[0, 1440)`.
  - The mount effect stores IST's time as the UTC minute plus 330, which lies
    off the slider from 18:30 UTC on.
  - `handleTimezoneSelect` adds a day only to a negative sum.
  - `Mount` and `SelectedTime` state exactly when the result is in range.
- **Removal has no guard in the handler.** `removeTimezone` lets any zone be
  removed, IST included. Only the view hides the remove button, and only for
  a zone named "UTC".

## Model

| member | source | states |
|---|---|---|
| JsNumber.JsRem | src/TimezoneConverter.js:12 | JavaScript's `%`: the remainder is smaller than the divisor in magnitude and takes the sign of the dividend; for a non-negative dividend it is the Euclidean remainder |
| JsNumber.JsRemNegative | src/TimezoneConverter.js:236 | for a negative dividend the JavaScript remainder is 0 or the Euclidean remainder minus the divisor |
| JsNumber.NatToString | src/TimezoneConverter.js:28 | `toString` of a non-negative integer is a non-empty string of decimal digits; NatToStringShape and ParseNatToString give its exact length and value |
| JsNumber.IntToString | src/TimezoneConverter.js:28 | no ensures of its own: `toString` of an integer is "-" before the numeral of its magnitude; HourFieldText and MinuteFieldText fix its text for the hours and minutes `formatTime` prints |
| JsNumber.NatToStringShape | src/TimezoneConverter.js:28 | an integer's numeral has no leading zero, one digit exactly below 10 and two digits exactly from 10 to 99 |
| JsNumber.ParseNatToString | src/TimezoneConverter.js:233 | reading back the numeral `toString` writes gives the number |
| JsNumber.PadStart | src/TimezoneConverter.js:234 | `padStart` yields the larger of the two lengths, keeps the text as the suffix and fills only in front |
| JsNumber.PadStartTwo | src/TimezoneConverter.js:233-234 | a number below 100, written and padded to 2 with "0", is exactly two digits that read back as the number |
| Clock.Meridiem | src/TimezoneConverter.js:25 | no ensures of its own: "PM" from hour 12 on, otherwise "AM"; FormatTimeRoundTrip shows the suffix carries the half of the day |
| Clock.HourField | src/TimezoneConverter.js:26 | no ensures of its own: `hours % 12` under JavaScript's `%`, with 0 shown as 12; characterised by HourFieldText |
| Clock.MinuteField | src/TimezoneConverter.js:27 | no ensures of its own: a "0" in front of minutes below 10; characterised by MinuteFieldText |
| Clock.FormatTime | src/TimezoneConverter.js:24-29 | no ensures of its own: `formatTime`, the hour field, ":", the minute field, a space and the suffix; characterised by HourFieldText, MinuteFieldText, FormatTimeRoundTrip and DisplayValueExamples |
| Clock.DisplayValue | src/TimezoneConverter.js:12-59 | no ensures of its own: the text shown under a slider, `formatTime` of the line-12 split; characterised by DisplayValueRoundTrip and DisplayValueInjective |
| Clock.SplitValue | src/TimezoneConverter.js:12 | for a non-negative value the split is hours and minutes with minutes in 0..59 that recombine to the value; a value within a day gives hours in 0..23 |
| Clock.SplitValueNegative | src/TimezoneConverter.js:12 | for a negative value that is not a whole hour, floored hours with truncated minutes recombine to one hour less than the value |
| Clock.HourFieldText | src/TimezoneConverter.js:26-28 | for hours 0..23 the hour field is 1..12, 0 and 12 both shown as "12", one digit below 10 (no zero padding), two digits otherwise |
| Clock.MinuteFieldText | src/TimezoneConverter.js:27-28 | for minutes 0..59 the minute field is always exactly two digits, tens then units |
| Clock.ParseTimeLayout | src/TimezoneConverter.js:25-28 | a string in `formatTime`'s layout reads as the shown hour (12 read as 0) plus 12 for "PM", times 60, plus the minutes |
| Clock.FormatTimeRoundTrip | src/TimezoneConverter.js:24-29 | `formatTime(h, m)` for h in 0..23 and m in 0..59 reads back as h * 60 + m: the suffix is "PM" exactly from hour 12 and the clock loses nothing |
| Clock.DisplayValueRoundTrip | src/TimezoneConverter.js:12-28 | what a slider shows for a value in [0, 1440) reads back as that value |
| Clock.DisplayValueInjective | src/TimezoneConverter.js:12-28 | two values in a day are never displayed the same way |
| Clock.DisplayValueExamples | src/TimezoneConverter.js:24-29 | 330 shows as "5:30 AM", 1439 as "11:59 PM", 0 as "12:00 AM" |
| ShareLink.IndexFrom | src/TimezoneConverter.js:85 | the search from an index finds the pattern there or later and at no index in between, or returns -1 when it occurs nowhere from that index on |
| ShareLink.ReplaceAll | src/TimezoneConverter.js:90 | no ensures of its own: `replace(/\+/g, "%20")`; characterised by ReplaceAllAppend, ReplaceAllAbsent, ReplaceAllRemoves and ReplaceAllBetween |
| ShareLink.IndexOf | src/TimezoneConverter.js:85 | `indexOf` is -1 exactly when the pattern occurs nowhere; otherwise the pattern occurs there and at no earlier index |
| ShareLink.Split | src/TimezoneConverter.js:88 | `split` always yields at least one part |
| ShareLink.SplitJoin | src/TimezoneConverter.js:88 | no part contains the separator, and joining the parts with it gives the string back |
| ShareLink.SplitCons | src/TimezoneConverter.js:88 | a separator-free piece followed by the separator is the first part, and the rest is split on |
| ShareLink.SplitNone | src/TimezoneConverter.js:88 | a string without the separator splits into itself alone |
| ShareLink.SplitCount | src/TimezoneConverter.js:88 | there is a second part exactly when the separator occurs |
| ShareLink.SplitTwoSegments | src/TimezoneConverter.js:87-88 | `<timezone>/<segment>[/...]` splits with the timezone first and the segment second |
| ShareLink.ReplaceAllAppend | src/TimezoneConverter.js:90 | the global replace works piece by piece over a concatenation |
| ShareLink.ReplaceAllAbsent | src/TimezoneConverter.js:90 | text without "+" is left unchanged |
| ShareLink.ReplaceAllRemoves | src/TimezoneConverter.js:90 | no "+" is left after replacing with "%20" |
| ShareLink.ReplaceAllBetween | src/TimezoneConverter.js:90 | a single "+" between two "+"-free pieces becomes "%20" and the pieces stay in place |
| ShareLink.ReadShared | src/TimezoneConverter.js:87-92 | reading the text after "/share/" never yields "not shared"; a shared timezone has no "/"; text without "/" throws (the missing second segment is `undefined`) |
| ShareLink.ParseShareUrl | src/TimezoneConverter.js:84-93 | the link is left unshared exactly when "/share/" occurs nowhere in the URL |
| ShareLink.MarkerAfter | src/TimezoneConverter.js:85-87 | when the first "/share/" ends a prefix, `indexOf` is the prefix length and the substring 7 further on is the rest |
| ShareLink.ParseShareUrlBuilt | src/TimezoneConverter.js:84-92 | `<prefix>/share/<tz>/<segment>[/...]` yields timezone `tz` and the decoded segment with "+" read as "%20"; it throws exactly when decoding fails |
| ShareLink.ParseShareUrlMissingSegment | src/TimezoneConverter.js:87-90 | a link with no second segment after "/share/" throws |
| MeetOffset.TwoDigits | src/TimezoneConverter.js:233-234 | a number below 100 as two digits that read back as the number |
| MeetOffset.TwoDigitsIsPadStart | src/TimezoneConverter.js:233-239 | those two digits are exactly `toString().padStart(2, "0")` |
| MeetOffset.OffsetStringAsWritten | src/TimezoneConverter.js:230-243 | the string as written is five characters, and its sign is "+" exactly for a negative `getTimezoneOffset()` |
| MeetOffset.UtcOffsetString | src/TimezoneConverter.js:230-243 | the intended string is five characters, and its sign is "+" exactly for a negative `getTimezoneOffset()` |
| MeetOffset.UtcOffsetRoundTrip | src/TimezoneConverter.js:240-243 | the intended string reads as the zone's offset east of UTC, minus `getTimezoneOffset()` |
| MeetOffset.AsWrittenFields | src/TimezoneConverter.js:230-237 | the minutes as written equal those of the magnitude; the floored hours exceed them by one exactly for a negative offset with a part hour |
| MeetOffset.OffsetStringAgreement | src/TimezoneConverter.js:230-243 | the string as written equals the intended one if and only if the offset is not negative with a part hour |
| MeetOffset.OffsetStringAsWrittenReadsAs | src/TimezoneConverter.js:230-243 | the string as written reads as the true offset, except one hour further east for a negative offset with a part hour |
| MeetOffset.IndiaOffsetExample | src/TimezoneConverter.js:230-243 | India's -330 is written "+0630" and read as 390 minutes east; "+0530" is intended |
| TrackedList.InsertIndex | src/TimezoneConverter.js:173 | `splice` inserts at the given index, or at the end when the index is past it |
| TrackedList.Without | src/TimezoneConverter.js:153 | the filtered list holds no occurrence of the removed zone and is no longer than before |
| TrackedList.WithoutCounts | src/TimezoneConverter.js:153 | filtering drops every occurrence of the zone and keeps every other entry with its multiplicity |
| TrackedList.WithoutAppend | src/TimezoneConverter.js:153 | filtering a concatenation filters each part, so the kept entries keep their relative order |
| TrackedList.WithoutAbsent | src/TimezoneConverter.js:153 | filtering out a zone that is not listed changes nothing |
| TrackedList.WithoutDistinct | src/TimezoneConverter.js:153 | filtering keeps a repeat-free list repeat-free |
| TrackedList.WithoutOnce | src/TimezoneConverter.js:153 | filtering out an entry that occurs once cuts out exactly that entry |
| TrackedList.WithoutAt | src/TimezoneConverter.js:153 | in a repeat-free list, filtering out the entry at i is taking out index i |
| TrackedList.RemoveAt | src/TimezoneConverter.js:170 | `splice(i, 1)` shortens the list by one, loses exactly the entry at i and shifts the later entries down |
| TrackedList.InsertAt | src/TimezoneConverter.js:173 | `splice(i, 0, x)` lengthens the list by one with x at the clamped index, and taking it out again gives the list back |
| TrackedList.InsertRemoved | src/TimezoneConverter.js:170-173 | putting an entry back where it was taken from restores the list |
| TrackedList.Move | src/TimezoneConverter.js:167-173 | a reorder is a permutation; the moved zone lands at the drop index (last, when past the end); the other zones keep their relative order |
| TrackedList.MoveSame | src/TimezoneConverter.js:167-173 | dropping a zone on its own position changes nothing |
| TrackedList.MoveBack | src/TimezoneConverter.js:167-173 | dragging the moved zone back to its old index undoes the reorder |
| TrackedList.MoveKeeps | src/TimezoneConverter.js:167-176 | a reorder keeps exactly the same zones and keeps the list repeat-free |
| Converter.Shifted | src/TimezoneConverter.js:117-128 | no ensures of its own: IST moved 330 minutes ahead, any other zone moved back by its offset west; ConvertedValues and HandleUtcChange state its normalised result per zone |
| Converter.Normalize | src/TimezoneConverter.js:129 | `((x % 1440) + 1440) % 1440` under JavaScript's `%` is in [0, 1440) and equals x mod 1440 for every integer x, negative ones included |
| Converter.ConvertedValues | src/TimezoneConverter.js:116-131 | the converted map has a key for exactly the listed zones; IST is at (v + 330) mod 1440 and any other zone at (v - offset) mod 1440, all within [0, 1440) |
| Converter.ConvertedValuesSnoc | src/TimezoneConverter.js:116-131 | each loop iteration adds the next zone's normalised local time under its name |
| Converter.SelectedTime | src/TimezoneConverter.js:138-142 | the new zone's value is the right minute of the day, and lies in [0, 1440) exactly when UTC plus offset is within a day either way |
| Converter.SelectThenRemove | src/TimezoneConverter.js:136-156 | selecting an untracked zone and then removing it restores the list and, when the keys match the list, the map |
| Converter.TimezoneConverter.constructor | src/TimezoneConverter.js:66-68 | the initial state is UTC minute 0 with IST alone at 0, satisfying the list/map invariant and the range invariant |
| Converter.TimezoneConverter.Mount | src/TimezoneConverter.js:73-81 | the mount effect sets the UTC minute to h * 60 + m and the map to IST at that plus 330, unnormalised; the values are on the slider exactly when the UTC minute is below 1110 |
| Converter.TimezoneConverter.HandleUtcChange | src/TimezoneConverter.js:112-133 | `utcValue` becomes v; the list is unchanged; the map has exactly the listed zones as keys, each at its local minute mod 1440 and in range for any offsets; the list/map invariant holds exactly when the list has no repeats |
| Converter.TimezoneConverter.HandleTimezoneSelect | src/TimezoneConverter.js:135-145 | a zone already tracked changes nothing; otherwise it is appended, earlier entries and values are untouched, it gets `SelectedTime`, and the invariant is preserved |
| Converter.TimezoneConverter.HandleTimezoneChange | src/TimezoneConverter.js:147-150 | only that zone's value is replaced; the invariant then holds exactly when the zone is listed |
| Converter.TimezoneConverter.RemoveTimezone | src/TimezoneConverter.js:152-157 | the list becomes the filtered list, only that key leaves the map, and the invariant is preserved |
| Converter.TimezoneConverter.HandleDrop | src/TimezoneConverter.js:163-177 | with no destination nothing changes; otherwise the list becomes `Move(list, source, destination)`, the map and UTC minute are unchanged, and the invariant is preserved |

## Left out

- The timezone library (`moment.tz.zone(tz).utcOffset`,
  `moment.tz(tz).utcOffset()`, `.format`, `moment.tz.names()`) is not part of
  this model. Its offsets are parameters, and the zone list offered by the
  selector is not modelled.
- `formatDateTime`, in the slider and in the component (lines 31-36 and
  179-184), only formats a date through the timezone library.
- Converter.TimezoneConverter.HandleUtcChange: `zoneOffset` is total, so
  the model has no failing zone lookup. In the code such a lookup can fail.
  The selector's first option has the value "" (line 262), and choosing it
  appends "" to the list (line 137). After that, `moment.tz.zone("")` is
  null, and every slider move sets `utcValue` (line 113) and then throws a
  TypeError at line 121, before `setValues` (line 132) runs. `values` then
  keeps its old entries, which may be off the slider. The model instead gives
  such a zone a converted value, and `InRange()` holds after the call.
- Converter.TimezoneConverter.Mount: the clock (`new Date()`,
  `getUTCHours`, `getUTCMinutes`) is not read. The UTC hours and minutes are
  parameters.
- The shared-link anchor effect (lines 96-106) is left out. It depends on the
  timezone library and `Date` parsing. It also stores a millisecond timestamp
  minus milliseconds into `utcValue`, which elsewhere holds a minute of the
  day, so the model has no value it could store there.
- `handleDateChange` (lines 108-110) only stores the date picker's `Date`,
  which the modelled logic never reads.
- `handleScheduleMeet`'s date arithmetic, `toISOString` formatting and
  `window.open` (lines 207-229 and 245-247) are left out. Only the offset
  string is modelled, from a given `getTimezoneOffset()` value.
- `toggleDarkMode`, `handleShare`, `navigator.share`, `alert` and the
  dark-mode class toggle are browser I/O.
- React state batching, effects, rendering and the drag-and-drop and
  animation libraries are left out. A handler's updates are applied as one
  state change. The view wires every slider's `onChange` to
  `handleUtcChange` (line 305), so `handleTimezoneChange` is modelled but no
  rendered control calls it.
- The slider's `parseInt` of the range input (line 15) is left out.
  `HandleUtcChange` accepts any integer, which covers every value the
  `0..1439` slider can send.
- MeetOffset.OffsetStringAsWritten: requires the offset to be under a day in
  magnitude, which every real `getTimezoneOffset()` is. Offsets of a day or
  more in magnitude are not modelled.
- Converter.TimezoneConverter.HandleDrop: requires the dragged index to be in
  the list, as the drag-and-drop library guarantees. A `splice` from an index
  past the end, which would insert `undefined`, is not modelled.
- `decodeURIComponent` is a parameter. Percent-decoding itself is not
  modelled.
- JavaScript numbers are doubles. The model uses unbounded integers, which
  agree with them only while every offset the timezone library returns is a
  whole number of minutes. `zoneOffset` returns an integer, so fractional
  offsets are not modelled. This case arises because line 121 passes the
  minute of the day `value` to `utcOffset`, which takes a millisecond
  timestamp. The offset used is therefore the zone's offset early on
  1970-01-01, ignoring daylight saving time and every rule change since. For
  Africa/Monrovia, whose offset was then 44.5 minutes west,
  `handleUtcChange(0)` stores 1395.5, which the slider shows as
  "11:15.5 PM".
- JavaScript object keys are modelled as a map from zone names. Prototype
  keys such as `__proto__` are not modelled.

## Findings

| source | as written | input that shows it | evidently intended | confidence | as-written member | corrected member |
|---|---|---|---|---|---|---|
| src/TimezoneConverter.js:230-243 | the hours are `abs(floor(getTimezoneOffset() / 60))`, so for a negative offset that is not a whole hour the floor moves them one hour too far | `getTimezoneOffset()` = -330 (India) gives "+0630", which reads as a `±HHMM` offset of 6:30 east | hours and minutes of the offset's magnitude: "+0530" | not executed | MeetOffset.OffsetStringAsWritten (MeetOffset.OffsetStringAsWrittenReadsAs, MeetOffset.IndiaOffsetExample) | MeetOffset.UtcOffsetString (MeetOffset.UtcOffsetRoundTrip, MeetOffset.OffsetStringAgreement) |
