/**
 * The `±HHMM` UTC-offset string that the "Schedule Meeting" action puts into
 * the calendar URL.  Its input is `Date.prototype.getTimezoneOffset()`: the
 * minutes to ADD to local time to reach UTC, so a zone east of Greenwich has
 * a negative value (India: -330) and is written with a "+".
 *
 * `OffsetStringAsWritten` is the string the code builds; `UtcOffsetString`
 * is the string it evidently means to build, and `ParseUtcOffset` reads such
 * a string as a `±HHMM` offset east of UTC.  The two agree except for a negative
 * offset that is not a whole number of hours, where flooring the hours moves
 * them one too far.
 */
module MeetOffset {
  import opened Wrappers
  import opened JsNumber

  /** A platform UTC offset is less than a day either way. */
  predicate IsPlatformOffset(tzOffset: int) {
    -1440 < tzOffset < 1440
  }

  /** `n.toString().padStart(2, "0")` for a number below 100: tens digit, then units digit. */
  function TwoDigits(n: nat): (r: string)
    requires n < 100
    ensures |r| == 2 && IsDigit(r[0]) && IsDigit(r[1])
    ensures 10 * DigitValue(r[0]) + DigitValue(r[1]) == n
  {
    [Digit(n / 10), Digit(n % 10)]
  }

  /** `TwoDigits` is what JavaScript's `toString` and `padStart(2, "0")` produce. */
  lemma TwoDigitsIsPadStart(n: nat)
    requires n < 100
    ensures TwoDigits(n) == PadStart(NatToString(n), 2, '0')
  {
    NatToStringShape(n);
    if n >= 10 {
      assert NatToString(n / 10) == [Digit(n / 10)];
    }
  }

  /**
   * As written: the sign is "+" for a negative offset, the hours are
   * `|floor(offset / 60)|` and the minutes `|offset % 60|` under JavaScript's
   * truncating `%`, each padded to two digits.
   */
  function OffsetStringAsWritten(tzOffset: int): (r: string)
    requires IsPlatformOffset(tzOffset)
    ensures |r| == 5
    ensures r[0] == '+' <==> tzOffset < 0
    ensures r[0] == '+' || r[0] == '-'
  {
    var hours := TwoDigits(Abs(tzOffset / 60));
    var minutes := TwoDigits(Abs(JsRem(tzOffset, 60)));
    var sign := if tzOffset < 0 then '+' else '-';
    [sign] + hours + minutes
  }

  /** The intended string: the sign, then the magnitude of the offset split into hours and minutes. */
  function UtcOffsetString(tzOffset: int): (r: string)
    requires IsPlatformOffset(tzOffset)
    ensures |r| == 5
    ensures r[0] == '+' <==> tzOffset < 0
    ensures r[0] == '+' || r[0] == '-'
  {
    var magnitude := Abs(tzOffset);
    var hours := TwoDigits(magnitude / 60);
    var minutes := TwoDigits(magnitude % 60);
    var sign := if tzOffset < 0 then '+' else '-';
    [sign] + hours + minutes
  }

  /**
   * Reads a `±HHMM` string as an offset of that many minutes EAST of UTC
   * ("+0530" is 330); the minutes must be below 60.
   */
  function ParseUtcOffset(s: string): (r: Option<int>)
  {
    if |s| != 5 || (s[0] != '+' && s[0] != '-') then None
    else if !IsDigit(s[1]) || !IsDigit(s[2]) || !IsDigit(s[3]) || !IsDigit(s[4]) then None
    else
      var hours := 10 * DigitValue(s[1]) + DigitValue(s[2]);
      var minutes := 10 * DigitValue(s[3]) + DigitValue(s[4]);
      if minutes >= 60 then None
      else
        var magnitude := hours * 60 + minutes;
        Some(if s[0] == '+' then magnitude else -magnitude)
  }

  /** A sign and two two-digit fields read as that many hours and minutes, east for "+". */
  lemma ParseTwoDigitFields(sign: char, hours: nat, minutes: nat)
    requires sign == '+' || sign == '-'
    requires hours < 100 && minutes < 60
    ensures var magnitude := hours * 60 + minutes;
            ParseUtcOffset([sign] + TwoDigits(hours) + TwoDigits(minutes))
            == Some(if sign == '+' then magnitude else -magnitude)
  {
    var s := [sign] + TwoDigits(hours) + TwoDigits(minutes);
    assert s[1..3] == TwoDigits(hours) && s[3..] == TwoDigits(minutes);
  }

  /** The intended string names the zone's offset east of UTC, which is minus `getTimezoneOffset()`. */
  lemma UtcOffsetRoundTrip(tzOffset: int)
    requires IsPlatformOffset(tzOffset)
    ensures ParseUtcOffset(UtcOffsetString(tzOffset)) == Some(-tzOffset)
  {
    var magnitude := Abs(tzOffset);
    ParseTwoDigitFields(if tzOffset < 0 then '+' else '-', magnitude / 60, magnitude % 60);
  }

  /**
   * The fields as written against the intended ones: the minutes always
   * agree; the floored hours are one more than the hours of the magnitude
   * exactly for a negative offset with a part hour.
   */
  lemma AsWrittenFields(tzOffset: int)
    ensures Abs(JsRem(tzOffset, 60)) == Abs(tzOffset) % 60
    ensures Abs(tzOffset / 60) == Abs(tzOffset) / 60 + (if tzOffset < 0 && tzOffset % 60 != 0 then 1 else 0)
  {
    var magnitude := Abs(tzOffset);
    var q: int, k: int := magnitude / 60, magnitude % 60;
    ModUnique(magnitude, 60, q, k);
    if tzOffset < 0 {
      JsRemNegative(tzOffset, 60);
      if k == 0 {
        ModUnique(tzOffset, 60, -q, 0);
      } else {
        ModUnique(tzOffset, 60, -q - 1, 60 - k);
      }
    }
  }

  /**
   * The string as written is the intended one exactly when the offset is not
   * a negative number of minutes with a part hour; for those (India's -330,
   * Nepal's -345, ...) the hours come out one too high.
   */
  lemma OffsetStringAgreement(tzOffset: int)
    requires IsPlatformOffset(tzOffset)
    ensures OffsetStringAsWritten(tzOffset) == UtcOffsetString(tzOffset)
            <==> !(tzOffset < 0 && tzOffset % 60 != 0)
  {
    AsWrittenFields(tzOffset);
    var asWritten, intended := OffsetStringAsWritten(tzOffset), UtcOffsetString(tzOffset);
    if tzOffset < 0 && tzOffset % 60 != 0 {
      assert asWritten[1..3] != intended[1..3];
    }
  }

  /**
   * The string as written, read as a `±HHMM` offset: the right offset,
   * except that a negative offset with a part hour is read one hour further
   * east than it is.
   */
  lemma OffsetStringAsWrittenReadsAs(tzOffset: int)
    requires IsPlatformOffset(tzOffset)
    ensures ParseUtcOffset(OffsetStringAsWritten(tzOffset))
            == Some(if tzOffset < 0 && tzOffset % 60 != 0 then -tzOffset + 60 else -tzOffset)
  {
    AsWrittenFields(tzOffset);
    ParseTwoDigitFields(if tzOffset < 0 then '+' else '-', Abs(tzOffset / 60), Abs(JsRem(tzOffset, 60)));
  }

  /** India's `getTimezoneOffset()` of -330 is written "+0630" and read as 6:30 east; "+0530" is meant. */
  lemma IndiaOffsetExample()
    ensures OffsetStringAsWritten(-330) == "+0630"
    ensures ParseUtcOffset("+0630") == Some(390)
    ensures UtcOffsetString(-330) == "+0530"
  {
    AsWrittenFields(-330);
  }
}
