/** The `cet` zone of `main.py`: Central European Time, one hour east of
    UTC, with a second hour of daylight-saving time from 03:00 on the last
    Sunday of March to 03:00 on the last Sunday of October. */
module Cet {
  import opened Wrappers
  import opened Durations
  import Timezones
  import DurationText
  import Calendar

  /** The fields of a `datetime` that `isdst` reads. */
  datatype Timestamp = Timestamp(year: int, month: int, day: int, hour: int)

  /** The March change-over day, `31 - (5*year//4 + 4) % 7`. Both operators
      floor in the source; with the positive divisors 4 and 7 Dafny's
      operators agree with them. */
  function MarchSwitchDay(year: int): (day: int)
    ensures 25 <= day <= 31
  {
    31 - (5 * year / 4 + 4) % 7
  }

  /** The October change-over day, `31 - (5*year//4 + 1) % 7`. */
  function OctoberSwitchDay(year: int): (day: int)
    ensures 25 <= day <= 31
  {
    31 - (5 * year / 4 + 1) % 7
  }

  /** `isdst(dt)`: without a timestamp (`None`) it is standard time; April
      to September are summer time; in March and October the switch day
      decides, and on the switch day itself the hour does. */
  function IsDst(dt: Option<Timestamp>): (r: bool)
    ensures dt == None ==> !r
    ensures dt.Some? && 4 <= dt.value.month <= 9 ==> r
    ensures dt.Some? && (dt.value.month <= 2 || 11 <= dt.value.month) ==> !r
    ensures dt.Some? && dt.value.month == 3 ==>
              (r <==> dt.value.day > MarchSwitchDay(dt.value.year)
                      || (dt.value.day == MarchSwitchDay(dt.value.year) && dt.value.hour >= 3))
    ensures dt.Some? && dt.value.month == 10 ==>
              (r <==> dt.value.day < OctoberSwitchDay(dt.value.year)
                      || (dt.value.day == OctoberSwitchDay(dt.value.year) && dt.value.hour < 3))
  {
    match dt
    case None => false
    case Some(t) =>
      if 3 < t.month < 10 then true
      else if t.month == 3 then
        var beg := MarchSwitchDay(t.year);
        if t.day < beg then false
        else if t.day > beg then true
        else t.hour >= 3
      else if t.month == 10 then
        var end := OctoberSwitchDay(t.year);
        if t.day < end then true
        else if t.day > end then false
        else t.hour < 3
      else false
  }

  /** Lexicographic order on (month, day, hour). */
  predicate Before(m1: int, d1: int, h1: int, m2: int, d2: int, h2: int) {
    m1 < m2 || (m1 == m2 && (d1 < d2 || (d1 == d2 && h1 < h2)))
  }

  /** Summer time is exactly the half-open window from 03:00 on the March
      switch day to 03:00 on the October switch day, for any field values. */
  lemma IsDstIffInSummerWindow(t: Timestamp)
    ensures IsDst(Some(t)) <==>
              !Before(t.month, t.day, t.hour, 3, MarchSwitchDay(t.year), 3)
              && Before(t.month, t.day, t.hour, 10, OctoberSwitchDay(t.year), 3)
  {
  }

  /** `dst(dt)`: one hour in summer time, nothing otherwise. */
  function Dst(dt: Option<Timestamp>): (r: Duration)
    ensures IsDst(dt) <==> Bool(r)
    ensures IsDst(dt) <==> r == FromParts(0, 0, 1, 0, 0)
    ensures !IsDst(dt) <==> r == Zero
  {
    if IsDst(dt) then Duration(3600) else Duration(0)
  }

  /** The base offset passed to the constructor, `timedelta(hours=1)`. */
  function BaseOffset(): (r: Duration)
    ensures r == FromParts(0, 0, 1, 0, 0)
  {
    Duration(3600)
  }

  /** `utcoffset(dt)`: the base hour plus `dst(dt)`, two hours east in summer
      time and one otherwise. */
  function UtcOffset(dt: Option<Timestamp>): (r: Duration)
    ensures IsDst(dt) <==> r.seconds == 7200
    ensures !IsDst(dt) <==> r.seconds == 3600
  {
    Timezones.UtcOffset(BaseOffset(), Dst(dt))
  }

  /** `tzname(dt)`. */
  function Tzname(dt: Option<Timestamp>): (r: string)
    ensures r == "CEST" <==> IsDst(dt)
    ensures r == "CET" <==> !IsDst(dt)
  {
    if IsDst(dt) then "CEST" else "CET"
  }

  /** `str(cet())`, which the wrapper class defines as `tzname(None)`. */
  function Str(): (r: string)
    ensures r == "CET"
  {
    Tzname(None)
  }

  /** `isoformat(dt)` on the zone's offset. */
  function Isoformat(dt: Option<Timestamp>): (r: string)
    ensures r == "UTC+02:00" <==> IsDst(dt)
    ensures r == "UTC+01:00" <==> !IsDst(dt)
  {
    Timezones.OffsetIsoformatOfWholeHours(UtcOffset(dt));
    Timezones.OffsetIsoformat(UtcOffset(dt))
  }

  /** The offsets of the zone are positive and under a day, so the written
      rendering and the intended one agree on them. */
  lemma IsoformatAsWrittenAgrees(dt: Option<Timestamp>)
    ensures Timezones.OffsetIsoformatAsWritten(UtcOffset(dt)) == Isoformat(dt)
  {
    Timezones.AsWrittenAgreesOnNonNegative(UtcOffset(dt));
  }

  /** The zone's name and its offset always tell the same story. */
  lemma TznameMatchesOffset(dt: Option<Timestamp>)
    ensures Tzname(dt) == "CEST" <==> UtcOffset(dt).seconds == 7200
    ensures Tzname(dt) == "CET" <==> UtcOffset(dt).seconds == 3600
  {
  }

  /** Over 1900 to 2099 the switch days are the last Sundays of March and
      October, as the source's comments say. */
  lemma SwitchDaysAreLastSundays(year: int)
    requires 1900 <= year <= 2099
    ensures Calendar.IsLastSunday(year, 3, MarchSwitchDay(year))
    ensures Calendar.IsLastSunday(year, 10, OctoberSwitchDay(year))
  {
    if year == 1900 {
      assert Calendar.IsSunday(1900, 3, 25) && Calendar.IsSunday(1900, 10, 28);
    } else {
      SwitchDaysAreSundaysAfter1900(year);
    }
  }

  lemma SwitchDaysAreSundaysAfter1900(year: int)
    requires 1901 <= year <= 2099
    ensures Calendar.IsSunday(year, 3, MarchSwitchDay(year))
    ensures Calendar.IsSunday(year, 10, OctoberSwitchDay(year))
  {
    var k := YearsAndLeapDays(year);
    var leap := if Calendar.IsLeap(year) then 1 else 0;
    assert Calendar.DaysBeforeMonth(year, 3) == 59 + leap;
    assert Calendar.DaysBeforeMonth(year, 10) == 273 + leap;
    RoundedDownIsMultiple(52 * year - 42, k + 4);
    RoundedDownIsMultiple(52 * year - 11, k + 1);
  }

  lemma RoundedDownIsMultiple(a: int, m: int)
    ensures (7 * a + m - m % 7) % 7 == 0
  {
    assert m - m % 7 == 7 * (m / 7);
    assert 7 * a + m - m % 7 == 7 * (a + m / 7);
  }

  /** Between 1901 and 2099 the days before a year come to 365 per year plus
      one per fourth year, less a fixed 15 from the century rule (the only
      century year in range, 2000, is a leap year), and `5*year//4` counts
      the same years and leap days. */
  lemma YearsAndLeapDays(year: int) returns (k: int)
    requires 1901 <= year <= 2099
    ensures k == year + year / 4
    ensures 5 * year / 4 == k
    ensures Calendar.DaysBeforeYear(year) + (if Calendar.IsLeap(year) then 1 else 0) == 364 * year + k - 380
  {
    k := year + year / 4;
    var p := year - 1;
    if p < 2000 {
      assert p / 100 == 19 && p / 400 == 4;
    } else {
      assert p / 100 == 20 && p / 400 == 5;
    }
    assert p / 4 + (if Calendar.IsLeap(year) then 1 else 0) == year / 4;
  }

  /** In 2100, not a leap year, the formula drifts: it names Saturday
      27 March, a day before the last Sunday. */
  lemma SwitchDayDriftsIn2100()
    ensures MarchSwitchDay(2100) == 27
    ensures !Calendar.IsSunday(2100, 3, 27) && Calendar.IsLastSunday(2100, 3, 28)
  {
  }

  /** The zone's offset printed as a duration: `02:00:00` in summer time,
      `01:00:00` otherwise. */
  lemma UtcOffsetText(dt: Option<Timestamp>)
    ensures IsDst(dt) ==> DurationText.Isoformat(UtcOffset(dt)) == "02:00:00"
    ensures !IsDst(dt) ==> DurationText.Isoformat(UtcOffset(dt)) == "01:00:00"
  {
    DurationText.IsoformatOfWholeHours(UtcOffset(dt));
  }

  /** The days either side of both 2010 switches, at noon, as the source
      checks them at main.py:300-304 (with `01:00:00` also without a timestamp). */
  lemma Switches2010(t: Timestamp)
    requires t.year == 2010 && t.hour == 12
    ensures t.month == 3 && t.day == 27 ==> !IsDst(Some(t))
    ensures t.month == 3 && t.day == 28 ==> IsDst(Some(t))
    ensures t.month == 10 && t.day == 30 ==> IsDst(Some(t))
    ensures t.month == 10 && t.day == 31 ==> !IsDst(Some(t))
  {
    assert MarchSwitchDay(2010) == 28 && OctoberSwitchDay(2010) == 31;
  }

  /** The example at main.py:310-313: New Year's Day 2011 is standard time,
      1 August 2011 summer time. */
  lemma Example2011(t: Timestamp)
    requires t.year == 2011 && (t.month == 1 || t.month == 8)
    ensures t.month == 1 ==> Isoformat(Some(t)) == "UTC+01:00" && Tzname(Some(t)) == "CET"
    ensures t.month == 8 ==> Isoformat(Some(t)) == "UTC+02:00" && Tzname(Some(t)) == "CEST"
  {
    assert IsDst(Some(t)) <==> t.month == 8;
  }
}
