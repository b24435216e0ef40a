/**
 * The slider's time display: a minute-of-day value is split into hours and
 * minutes and rendered on a 12-hour clock ("5:30 AM").  `ParseTime` reads
 * such a string back; the round-trip lemmas show that the display loses
 * nothing for values in a day.
 */
module Clock {
  import opened Wrappers
  import opened JsNumber

  /** 24 * 60: the slider's values, and every normalised time of day, lie in [0, MinutesPerDay). */
  const MinutesPerDay := 1440

  /** `[Math.floor(value / 60), value % 60]`, with JavaScript's truncating `%` for the minutes. */
  function SplitValue(value: int): (hm: (int, int))
    ensures value >= 0 ==> 0 <= hm.1 < 60 && hm.0 * 60 + hm.1 == value
    ensures 0 <= value < MinutesPerDay ==> 0 <= hm.0 < 24
  {
    (value / 60, JsRem(value, 60))
  }

  /**
   * For a negative value that is not a whole hour the split loses an hour:
   * the hour is floored but the minutes are truncated toward zero.
   */
  lemma SplitValueNegative(value: int)
    requires value < 0 && value % 60 != 0
    ensures var hm := SplitValue(value); hm.0 * 60 + hm.1 == value - 60
  {
    JsRemNegative(value, 60);
  }

  /** "AM" before noon, "PM" from hour 12 on. */
  function Meridiem(hours: int): string {
    if hours >= 12 then "PM" else "AM"
  }

  /** The hour as shown: `hours % 12`, except that 0 is shown as 12; never zero-padded. */
  function HourField(hours: int): string {
    var h := JsRem(hours, 12);
    IntToString(if h == 0 then 12 else h)
  }

  /** The minutes as shown: a "0" is put in front of anything below 10. */
  function MinuteField(minutes: int): string {
    if minutes < 10 then "0" + IntToString(minutes) else IntToString(minutes)
  }

  /** `formatTime(hours, minutes)`: "H:MM AM" or "H:MM PM". */
  function FormatTime(hours: int, minutes: int): string {
    HourField(hours) + ":" + MinuteField(minutes) + " " + Meridiem(hours)
  }

  /** What a slider shows under its handle for the value it holds. */
  function DisplayValue(value: int): string {
    var hm := SplitValue(value);
    FormatTime(hm.0, hm.1)
  }

  /**
   * Reads a 12-hour clock string "H:MM AM" / "HH:MM PM" back as a minute of
   * the day: an hour of one or two digits from 1 to 12, two digits of
   * minutes below 60, a space and the suffix.
   */
  function ParseTime(s: string): (r: Option<int>)
    ensures r.Some? ==> 0 <= r.value < MinutesPerDay
  {
    var width := if |s| >= 2 && s[1] == ':' then 1 else 2;
    if |s| != width + 6 || s[width] != ':' || s[width + 3] != ' ' then None
    else if !IsDigit(s[0]) || !IsDigit(s[width - 1]) || !IsDigit(s[width + 1]) || !IsDigit(s[width + 2]) then None
    else
      var h12 := if width == 1 then DigitValue(s[0]) else 10 * DigitValue(s[0]) + DigitValue(s[1]);
      var m := 10 * DigitValue(s[width + 1]) + DigitValue(s[width + 2]);
      var suffix := s[width + 4..];
      if h12 < 1 || 12 < h12 || 60 <= m || (suffix != "AM" && suffix != "PM") then None
      else Some(((if h12 == 12 then 0 else h12) + (if suffix == "PM" then 12 else 0)) * 60 + m)
  }

  /** The hour field of a time of day: 0 and 12 are shown as 12, and it is never zero-padded. */
  lemma HourFieldText(hours: int)
    requires 0 <= hours < 24
    ensures var shown := if hours == 0 then 12 else if hours <= 12 then hours else hours - 12;
            && (shown < 10 ==> HourField(hours) == [Digit(shown)])
            && (shown >= 10 ==> HourField(hours) == [Digit(1), Digit(shown - 10)])
  {
    var h := if hours < 12 then hours else hours - 12;
    assert JsRem(hours, 12) == h by {
      ModUnique(hours, 12, if hours < 12 then 0 else 1, h);
    }
    var shown := if h == 0 then 12 else h;
    if shown >= 10 {
      assert NatToString(shown) == NatToString(1) + [Digit(shown % 10)];
    }
  }

  /** The minute field is always two digits. */
  lemma MinuteFieldText(minutes: int)
    requires 0 <= minutes < 60
    ensures MinuteField(minutes) == [Digit(minutes / 10), Digit(minutes % 10)]
  {
    if minutes >= 10 {
      assert NatToString(minutes) == NatToString(minutes / 10) + [Digit(minutes % 10)];
    }
  }

  /** The parser reads an hour field, the minutes and the suffix in the layout `formatTime` uses. */
  lemma ParseTimeLayout(hourText: string, shown: nat, minuteText: string, minutes: nat, suffix: string)
    requires 1 <= shown <= 12 && minutes < 60 && (suffix == "AM" || suffix == "PM")
    requires shown < 10 ==> hourText == [Digit(shown)]
    requires shown >= 10 ==> hourText == [Digit(1), Digit(shown - 10)]
    requires minuteText == [Digit(minutes / 10), Digit(minutes % 10)]
    ensures ParseTime(hourText + ":" + minuteText + " " + suffix)
            == Some(((if shown == 12 then 0 else shown) + (if suffix == "PM" then 12 else 0)) * 60 + minutes)
  {
    var s := hourText + ":" + minuteText + " " + suffix;
    var w := |hourText|;
    assert s[w] == ':' && s[w + 1] == Digit(minutes / 10) && s[w + 2] == Digit(minutes % 10);
    assert s[w + 3] == ' ' && s[w + 4..] == suffix;
  }

  /** Reading back a formatted time of day gives the minute of the day. */
  lemma FormatTimeRoundTrip(hours: int, minutes: int)
    requires 0 <= hours < 24 && 0 <= minutes < 60
    ensures ParseTime(FormatTime(hours, minutes)) == Some(hours * 60 + minutes)
  {
    var hourText, minuteText, suffix := HourField(hours), MinuteField(minutes), Meridiem(hours);
    assert FormatTime(hours, minutes) == hourText + ":" + minuteText + " " + suffix;
    HourFieldText(hours);
    MinuteFieldText(minutes);
    var shown := if hours == 0 then 12 else if hours <= 12 then hours else hours - 12;
    assert (if shown == 12 then 0 else shown) + (if suffix == "PM" then 12 else 0) == hours;
    ParseTimeLayout(hourText, shown, minuteText, minutes, suffix);
  }

  /** What a slider shows for a value in a day identifies that value. */
  lemma DisplayValueRoundTrip(value: int)
    requires 0 <= value < MinutesPerDay
    ensures ParseTime(DisplayValue(value)) == Some(value)
  {
    var hours, minutes := value / 60, JsRem(value, 60);
    assert SplitValue(value) == (hours, minutes);
    assert hours * 60 + minutes == value && 0 <= hours < 24 && 0 <= minutes < 60;
    assert DisplayValue(value) == FormatTime(hours, minutes);
    FormatTimeRoundTrip(hours, minutes);
  }

  /** Two values in a day are never shown the same way. */
  lemma DisplayValueInjective(v: int, w: int)
    requires 0 <= v < MinutesPerDay && 0 <= w < MinutesPerDay
    requires DisplayValue(v) == DisplayValue(w)
    ensures v == w
  {
    DisplayValueRoundTrip(v);
    DisplayValueRoundTrip(w);
  }

  /** 330 minutes past midnight shows as "5:30 AM" (the hour is not padded); 1439 as "11:59 PM". */
  lemma DisplayValueExamples()
    ensures DisplayValue(330) == "5:30 AM"
    ensures DisplayValue(1439) == "11:59 PM"
    ensures DisplayValue(0) == "12:00 AM"
  {
    HourFieldText(5);
    MinuteFieldText(30);
    HourFieldText(23);
    MinuteFieldText(59);
    HourFieldText(0);
    MinuteFieldText(0);
  }
}
