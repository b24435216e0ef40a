/**
 * The converter component: a UTC minute of the day, the ordered list of
 * tracked timezones and the minute-of-day value each of their sliders
 * holds, with the event handlers that replace them.
 *
 * The offsets come from the timezone library and are parameters here:
 * `zoneOffset(tz, t)` is `moment.tz.zone(tz).utcOffset(t)`, in minutes WEST
 * of UTC (positive for the Americas); `currentOffset` is
 * `moment.tz(tz).utcOffset()` at the present instant, in minutes EAST.
 */
module Converter {
  import opened Wrappers
  import opened JsNumber
  import opened Clock
  import opened TrackedList

  /** The zone the component starts with, converted with a fixed offset. */
  const Ist := "IST"

  /** The offset used for IST, in minutes east of UTC. */
  const IstOffset := 330

  /** `((x % 1440) + 1440) % 1440` under JavaScript's `%`: the minute of the day `x` falls on. */
  function Normalize(x: int): (r: int)
    ensures 0 <= r < MinutesPerDay
    ensures r == x % MinutesPerDay
  {
    var once := JsRem(x, MinutesPerDay);
    assert once == x % MinutesPerDay || once == x % MinutesPerDay - MinutesPerDay by {
      if x < 0 {
        JsRemNegative(x, MinutesPerDay);
      }
    }
    var shifted := once + MinutesPerDay;
    assert shifted % MinutesPerDay == x % MinutesPerDay by {
      if once == x % MinutesPerDay {
        ModUnique(shifted, MinutesPerDay, 1, x % MinutesPerDay);
      } else {
        ModUnique(shifted, MinutesPerDay, 0, x % MinutesPerDay);
      }
    }
    JsRem(shifted, MinutesPerDay)
  }

  /** The local minute before normalising: IST is ahead by 330, any other zone behind by its offset west. */
  function Shifted(tz: string, utc: int, zoneOffset: (string, int) -> int): int {
    if tz == Ist then utc + IstOffset else utc - zoneOffset(tz, utc)
  }

  /**
   * The values `handleUtcChange` computes for the zones of `zones`, taken
   * in order: a key for each listed zone and no other, each holding the
   * zone's local minute of the day.
   */
  function ConvertedValues(zones: seq<string>, utc: int, zoneOffset: (string, int) -> int): (m: map<string, int>)
    ensures m.Keys == set tz | tz in zones
    ensures forall tz :: tz in m ==> m[tz] == Shifted(tz, utc, zoneOffset) % MinutesPerDay
    ensures forall tz :: tz in m ==> 0 <= m[tz] < MinutesPerDay
    decreases |zones|
  {
    if zones == [] then map[]
    else
      var front, tz := zones[..|zones| - 1], zones[|zones| - 1];
      assert zones == front + [tz];
      ConvertedValues(front, utc, zoneOffset)[tz := Normalize(Shifted(tz, utc, zoneOffset))]
  }

  /** Converting one more zone adds its local minute of the day under its name. */
  lemma ConvertedValuesSnoc(zones: seq<string>, tz: string, utc: int, zoneOffset: (string, int) -> int)
    ensures ConvertedValues(zones + [tz], utc, zoneOffset)
            == ConvertedValues(zones, utc, zoneOffset)[tz := Normalize(Shifted(tz, utc, zoneOffset))]
  {
    assert (zones + [tz])[..|zones|] == zones;
  }

  /**
   * The value `handleTimezoneSelect` gives a new zone: the present UTC
   * minute moved by the zone's offset east, with a day added only when that
   * is negative.  It is the right minute of the day, but lies on the slider
   * only when the sum is within a day either way.
   */
  function SelectedTime(utc: int, currentOffset: int): (r: int)
    ensures r % MinutesPerDay == (utc + currentOffset) % MinutesPerDay
    ensures 0 <= r < MinutesPerDay <==> -MinutesPerDay <= utc + currentOffset < MinutesPerDay
    ensures 0 <= r < MinutesPerDay ==> r == Normalize(utc + currentOffset)
  {
    var convertedTime := utc + currentOffset;
    if convertedTime < 0 then convertedTime + MinutesPerDay else convertedTime
  }

  /**
   * Selecting a zone that is not tracked and then removing it gives back
   * the list and, when the map's keys are the listed zones, the map.
   */
  lemma SelectThenRemove(zones: seq<string>, values: map<string, int>, tz: string, v: int)
    requires values.Keys == set t | t in zones
    requires tz !in zones
    ensures Without(zones + [tz], tz) == zones
    ensures values[tz := v] - {tz} == values
  {
    WithoutOnce(zones, tz, []);
    assert zones + [tz] == zones + [tz] + [];
  }

  /** The drag-and-drop outcome: the index dragged from and, unless dropped outside the list, the index dropped at. */
  datatype DropResult = DropResult(source: nat, destination: Option<nat>)

  class TimezoneConverter {
    var utcValue: int
    var timezones: seq<string>
    var values: map<string, int>

    /** The list has no repeats, and the map has a value for exactly the listed zones. */
    ghost predicate Valid()
      reads this
    {
      Distinct(timezones) && values.Keys == set tz | tz in timezones
    }

    /** Every value is a minute of the day, a position the sliders can show. */
    ghost predicate InRange()
      reads this
    {
      forall tz :: tz in values ==> 0 <= values[tz] < MinutesPerDay
    }

    /** The initial state: UTC minute 0, and IST alone at 0. */
    constructor ()
      ensures utcValue == 0 && timezones == [Ist] && values == map[Ist := 0]
      ensures Valid() && InRange()
    {
      utcValue := 0;
      timezones := [Ist];
      values := map[Ist := 0];
    }

    /**
     * The mount effect, given the UTC hours and minutes of the clock: the
     * UTC minute is set and the map is replaced by IST alone, 330 minutes
     * later and not normalised, so it is off the slider from 18:30 UTC on.
     */
    method Mount(utcHours: int, utcMinutes: int)
      requires 0 <= utcHours < 24 && 0 <= utcMinutes < 60
      modifies this
      ensures utcValue == utcHours * 60 + utcMinutes
      ensures timezones == old(timezones)
      ensures values == map[Ist := utcValue + IstOffset]
      ensures old(timezones) == [Ist] ==> Valid()
      ensures InRange() <==> utcValue < MinutesPerDay - IstOffset
    {
      var utcTime := utcHours * 60 + utcMinutes;
      var istTime := utcTime + IstOffset;
      utcValue := utcTime;
      values := map[Ist := istTime];
      assert values[Ist] == istTime;
    }

    /**
     * A slider moved to `value`: the UTC minute becomes `value` and the map
     * is rebuilt, one listed zone at a time, so that it holds exactly the
     * listed zones, each at its local minute of the day.
     */
    method HandleUtcChange(value: int, zoneOffset: (string, int) -> int)
      modifies this
      ensures utcValue == value
      ensures timezones == old(timezones)
      ensures values == ConvertedValues(timezones, value, zoneOffset)
      ensures values.Keys == set tz | tz in timezones
      ensures forall tz :: tz in values ==> values[tz] == Shifted(tz, value, zoneOffset) % MinutesPerDay
      ensures InRange()
      ensures Valid() <==> Distinct(timezones)
    {
      utcValue := value;
      var zones := timezones;
      var newValues: map<string, int> := map[];
      for i := 0 to |zones|
        invariant utcValue == value && timezones == zones
        invariant newValues == ConvertedValues(zones[..i], value, zoneOffset)
      {
        var timezone := zones[i];
        var offsetMinutes;
        if timezone == Ist {
          offsetMinutes := IstOffset;
        } else {
          offsetMinutes := zoneOffset(timezone, value);
        }
        var convertedTime;
        if timezone == Ist {
          convertedTime := value + offsetMinutes;
        } else {
          convertedTime := value - offsetMinutes;
        }
        assert convertedTime == Shifted(timezone, value, zoneOffset);
        convertedTime := Normalize(convertedTime);
        ConvertedValuesSnoc(zones[..i], timezone, value, zoneOffset);
        assert zones[..i + 1] == zones[..i] + [timezone];
        newValues := newValues[timezone := convertedTime];
      }
      assert zones[..|zones|] == zones;
      values := newValues;
    }

    /**
     * A zone chosen from the selector: nothing happens when it is already
     * listed; otherwise it is appended and given its present local time,
     * and nothing else changes.
     */
    method HandleTimezoneSelect(timezone: string, currentOffset: int)
      modifies this
      ensures utcValue == old(utcValue)
      ensures timezone in old(timezones) ==> timezones == old(timezones) && values == old(values)
      ensures timezone !in old(timezones) ==>
                timezones == old(timezones) + [timezone]
                && values == old(values)[timezone := SelectedTime(old(utcValue), currentOffset)]
      ensures old(Valid()) ==> Valid()
    {
      if timezone !in timezones {
        timezones := timezones + [timezone];
        var convertedTime := utcValue + currentOffset;
        values := values[timezone := if convertedTime < 0 then convertedTime + MinutesPerDay else convertedTime];
      }
    }

    /** One zone's slider set directly: its value is replaced and nothing else changes. */
    method HandleTimezoneChange(value: int, timezone: string)
      modifies this
      ensures values == old(values)[timezone := value]
      ensures timezones == old(timezones) && utcValue == old(utcValue)
      ensures old(Valid()) ==> (Valid() <==> timezone in timezones)
    {
      values := values[timezone := value];
      assert timezone in values;
    }

    /**
     * A zone removed: every occurrence leaves the list, the others keeping
     * their order, and only its key leaves the map.  Any zone can be
     * removed, IST included.
     */
    method RemoveTimezone(timezoneToRemove: string)
      modifies this
      ensures timezones == Without(old(timezones), timezoneToRemove)
      ensures values == old(values) - {timezoneToRemove}
      ensures utcValue == old(utcValue)
      ensures old(Valid()) ==> Valid()
    {
      timezones := Without(timezones, timezoneToRemove);
      var newValues := values - {timezoneToRemove};
      values := newValues;
      WithoutCounts(old(timezones), timezoneToRemove);
      if old(Valid()) {
        WithoutDistinct(old(timezones), timezoneToRemove);
      }
    }

    /**
     * A drag ended: dropped outside the list, nothing changes; otherwise the
     * dragged zone is taken out of a copy of the list and put back in at the
     * drop index.
     */
    method HandleDrop(result: DropResult)
      requires result.destination.Some? ==> result.source < |timezones|
      modifies this
      ensures result.destination.None? ==> timezones == old(timezones)
      ensures result.destination.Some? ==>
                timezones == Move(old(timezones), result.source, result.destination.value)
      ensures values == old(values) && utcValue == old(utcValue)
      ensures old(Valid()) ==> Valid()
    {
      if result.destination.None? {
        return;
      }
      var reorderedTimezones := timezones;
      var movedTimezone := reorderedTimezones[result.source];
      reorderedTimezones := RemoveAt(reorderedTimezones, result.source);
      reorderedTimezones := InsertAt(reorderedTimezones, result.destination.value, movedTimezone);
      timezones := reorderedTimezones;
      MoveKeeps(old(timezones), result.source, result.destination.value);
    }
  }
}
