/** The `timezone` wrapper class of `main.py`: a UTC offset whose effective
    value adds a daylight-saving adjustment, and its `UTC±HH:MM` rendering. */
module Timezones {
  import opened Wrappers
  import opened Durations
  import opened DurationText
  import Decimal

  /** `utcoffset(dt)`: the zone's base offset `add` its `dst(dt)`. */
  function UtcOffset(base: Duration, dst: Duration): (r: Duration)
    ensures Sub(r, dst) == base
    ensures Lt(base, r) <==> Gt(dst, Zero)
  {
    Add(base, dst)
  }

  /** `"UTC%s%02d:%02d"`. */
  function OffsetText(negative: bool, hours: nat, minutes: nat): string {
    "UTC" + (if negative then "-" else "+") + Decimal.Pad2(hours) + ":" + Decimal.Pad2(minutes)
  }

  lemma OffsetTextLength(negative: bool, hours: nat, minutes: nat)
    requires hours < 100 && minutes < 100
    ensures |OffsetText(negative, hours, minutes)| == 9
  {
    Decimal.Pad2TwoDigits(hours);
    Decimal.Pad2TwoDigits(minutes);
  }

  /** `isoformat(dt)` as written: the offset goes through `tuple('+')`, and
      the text is `UTC` when the tuple's hours and minutes are both zero,
      otherwise `UTC`, the tuple's sign, hours and minutes. Because `tuple`
      floors, this is `UTC` exactly when the offset lies less than a minute
      past a whole number of days, and a negative offset shows the clock
      part counted forward from the previous midnight: the text reads back as
      the whole minutes of the floor remainder after whole days, with the
      sign of the offset. */
  function OffsetIsoformatAsWritten(off: Duration): (r: string)
    ensures r == "UTC" <==> off.seconds % 86400 < 60
    ensures r != "UTC" ==>
              var clock := off.seconds % 86400 / 60 * 60;
              ParseOffset(r) == Some(if off.seconds < 0 then -clock else clock)
  {
    var t := Tuple(off);
    TupleClockPart(off);
    if t.hours == 0 && t.minutes == 0 then
      "UTC"
    else
      OffsetTextLength(t.negative, t.hours, t.minutes);
      ParseOffsetText(t.negative, t.hours, t.minutes);
      assert off.seconds % 86400 / 60 * 60 == t.hours * 3600 + t.minutes * 60;
      OffsetText(t.negative, t.hours, t.minutes)
  }

  /** `isoformat(dt)` as evidently intended: the sign of the offset, then the
      hours and minutes of its magnitude; `UTC` alone for an offset of less
      than a minute either way. */
  function OffsetIsoformat(off: Duration): (r: string)
    ensures r == "UTC" <==> -60 < off.seconds < 60
  {
    var magnitude := Abs(off).seconds;
    var hours := magnitude / 3600;
    var minutes := magnitude / 60 % 60;
    if hours == 0 && minutes == 0 then
      "UTC"
    else
      OffsetText(off.seconds < 0, hours, minutes)
  }

  /** Reads `UTC` or `UTC±HH:MM` back as a second count; the hours must be
      below 24 and the minutes below 60. */
  function ParseOffset(s: string): Option<int> {
    if s == "UTC" then Some(0)
    else if |s| == 9 && s[..3] == "UTC" && (s[3] == '+' || s[3] == '-') && s[6] == ':'
            && Decimal.AllDigits(s[4..6]) && Decimal.AllDigits(s[7..9])
            && Decimal.ParseDec(s[4..6]) < 24 && Decimal.ParseDec(s[7..9]) < 60 then
      var magnitude := Decimal.ParseDec(s[4..6]) * 3600 + Decimal.ParseDec(s[7..9]) * 60;
      Some(if s[3] == '-' then -magnitude else magnitude)
    else None
  }

  lemma ParseOffsetText(negative: bool, hours: nat, minutes: nat)
    requires hours < 24 && minutes < 60
    ensures var magnitude := hours * 3600 + minutes * 60;
            ParseOffset(OffsetText(negative, hours, minutes)) == Some(if negative then -magnitude else magnitude)
  {
    var s := OffsetText(negative, hours, minutes);
    OffsetTextLength(negative, hours, minutes);
    Decimal.Pad2TwoDigits(hours);
    Decimal.Pad2TwoDigits(minutes);
    assert s[..3] == "UTC";
    assert s[4..6] == Decimal.Pad2(hours);
    assert s[7..9] == Decimal.Pad2(minutes);
    assert s != "UTC";
  }

  /** The intended rendering loses nothing for the offsets a zone can have:
      whole minutes strictly within a day either way. */
  lemma OffsetIsoformatRoundTrip(off: Duration)
    requires -86400 < off.seconds < 86400 && off.seconds % 60 == 0
    ensures ParseOffset(OffsetIsoformat(off)) == Some(off.seconds)
  {
    var magnitude := Abs(off).seconds;
    var hours := magnitude / 3600;
    var minutes := magnitude / 60 % 60;
    assert magnitude == hours * 3600 + minutes * 60;
    if !(hours == 0 && minutes == 0) {
      ParseOffsetText(off.seconds < 0, hours, minutes);
    }
  }

  /** For offsets from zero up to a day, the written code and the intended
      rendering agree: the floor decomposition only differs for negative
      offsets. */
  lemma AsWrittenAgreesOnNonNegative(off: Duration)
    requires 0 <= off.seconds < 86400
    ensures OffsetIsoformatAsWritten(off) == OffsetIsoformat(off)
  {
    TupleWithinDay(off.seconds);
  }

  /** One hour west of UTC renders as `UTC-23:00` as written, which reads
      back as -23 h, where the intended rendering is `UTC-01:00`. */
  lemma AsWrittenNegativeOffset(off: Duration)
    requires off.seconds == -3600
    ensures OffsetIsoformatAsWritten(off) == "UTC-23:00"
    ensures ParseOffset(OffsetIsoformatAsWritten(off)) == Some(-82800)
    ensures OffsetIsoformat(off) == "UTC-01:00"
  {
    var p := Parts(true, 1, 23, 0, 0);
    assert off == Duration(Compose(p));
    TupleOfCompose(p);
    assert off.seconds % 86400 / 60 * 60 == 82800;
    assert OffsetIsoformatAsWritten(off) == OffsetText(true, 23, 0);
    assert OffsetText(true, 23, 0) == "UTC-23:00" by {
      assert Decimal.Pad2(23) == "23" && Decimal.Pad2(0) == "00";
    }
    assert Abs(off).seconds / 3600 == 1 && Abs(off).seconds / 60 % 60 == 0;
    assert OffsetIsoformat(off) == OffsetText(true, 1, 0);
    assert OffsetText(true, 1, 0) == "UTC-01:00" by {
      assert Decimal.Pad2(1) == "01" && Decimal.Pad2(0) == "00";
    }
  }

  /** The two offsets of Central European Time. */
  lemma OffsetIsoformatOfWholeHours(off: Duration)
    requires off.seconds == 3600 || off.seconds == 7200
    ensures off.seconds == 3600 ==> OffsetIsoformat(off) == "UTC+01:00"
    ensures off.seconds == 7200 ==> OffsetIsoformat(off) == "UTC+02:00"
  {
    var magnitude := Abs(off).seconds;
    assert magnitude / 60 % 60 == 0;
    if off.seconds == 3600 {
      assert magnitude / 3600 == 1;
      assert Decimal.Pad2(1) == "01" && Decimal.Pad2(0) == "00";
    } else {
      assert magnitude / 3600 == 2;
      assert Decimal.Pad2(2) == "02" && Decimal.Pad2(0) == "00";
    }
  }

  /** The intended rendering gives the texts that the library's own
      `timezone` prints for the offsets built at main.py:295-296 and 358-359:
      one hour west, and four and a half hours east. */
  lemma OffsetIsoformatExamples(off: Duration)
    requires off.seconds == -3600 || off.seconds == 16200
    ensures off.seconds == -3600 ==> OffsetIsoformat(off) == "UTC-01:00"
    ensures off.seconds == 16200 ==> OffsetIsoformat(off) == "UTC+04:30"
  {
    var magnitude := Abs(off).seconds;
    if off.seconds == -3600 {
      assert magnitude / 3600 == 1 && magnitude / 60 % 60 == 0;
      assert Decimal.Pad2(1) == "01" && Decimal.Pad2(0) == "00";
    } else {
      assert magnitude / 3600 == 4 && magnitude / 60 % 60 == 30;
      assert Decimal.Pad2(4) == "04" && Decimal.Pad2(30) == "30";
    }
  }
}
