/** The text form of a duration: `tuple()` splits the second count into
    sign, days, hours, minutes and seconds by successive floor `divmod`s, and
    `isoformat()` (also `__str__`) renders those fields. */
module DurationText {
  import opened Wrappers
  import opened Durations
  import IntMath
  import Decimal

  /** The five fields `(g, d, h, m, s)` returned by `tuple(sign_pos)`; the
      sign field `g` is `-` when `negative` holds and `sign_pos` (the empty
      string, or `+` for a zone offset) otherwise. */
  datatype Parts = Parts(negative: bool, days: int, hours: int, minutes: int, seconds: int)

  /** The fields are those of a `tuple` result: a day count and a clock part
      in range, with a negative sign only before a non-zero day count. */
  predicate ValidParts(p: Parts) {
    && 0 <= p.hours < 24 && 0 <= p.minutes < 60 && 0 <= p.seconds < 60
    && (p.negative ==> p.days >= 1)
    && p.days >= 0
  }

  /** The second count the fields stand for: a negative sign negates the day
      count only, the clock part is always added. */
  function Compose(p: Parts): int {
    (if p.negative then -p.days else p.days) * 86400
    + p.hours * 3600 + p.minutes * 60 + p.seconds
  }

  /** `tuple(sign_pos)`: floor divisions by 60, 60 and 24, then a negative day
      count is negated and marked negative. A negative duration thus renders
      as a negated day count plus a non-negative clock part (-41 s is `-1` day
      and `23:59:19`). The divisors are positive, where Python's floor `divmod`
      and Dafny's Euclidean `/` and `%` agree. */
  function Tuple(d: Duration): (t: Parts)
    ensures ValidParts(t)
    ensures Compose(t) == d.seconds
    ensures t.negative <==> d.seconds < 0
  {
    var (m, s) := (d.seconds / 60, d.seconds % 60);
    var (h, m) := (m / 60, m % 60);
    var (days, h) := (h / 24, h % 24);
    if days < 0 then Parts(true, -days, h, m, s) else Parts(false, days, h, m, s)
  }

  /** `tuple` is the only decomposition of its kind: valid fields that stand
      for a second count are exactly what `tuple` returns for it. */
  lemma {:induction false} TupleOfCompose(p: Parts)
    requires ValidParts(p)
    ensures Tuple(Duration(Compose(p))) == p
  {
    var total := Compose(p);
    var days := if p.negative then -p.days else p.days;
    var hs := days * 24 + p.hours;
    var ms := hs * 60 + p.minutes;
    assert total == ms * 60 + p.seconds;
    IntMath.FloorDivisionCharacterized(total, 60, ms, p.seconds);
    IntMath.FloorDivisionCharacterized(ms, 60, hs, p.minutes);
    IntMath.FloorDivisionCharacterized(hs, 24, days, p.hours);
  }

  /** `"%02d:%02d:%02d"`. */
  function Clock(h: nat, m: nat, s: nat): string {
    Decimal.Pad2(h) + ":" + Decimal.Pad2(m) + ":" + Decimal.Pad2(s)
  }

  lemma ClockLength(h: nat, m: nat, s: nat)
    requires h < 100 && m < 100 && s < 100
    ensures |Clock(h, m, s)| == 8
  {
    Decimal.Pad2TwoDigits(h);
    Decimal.Pad2TwoDigits(m);
    Decimal.Pad2TwoDigits(s);
  }

  /** The keyword constructor and `tuple` are inverse: weeks fold into days
      at seven each, and in-range hours, minutes and seconds come back as
      given. */
  lemma FromPartsTuple(weeks: nat, days: nat, hours: nat, minutes: nat, seconds: nat)
    requires hours < 24 && minutes < 60 && seconds < 60
    ensures Tuple(FromParts(weeks, days, hours, minutes, seconds))
            == Parts(false, 7 * weeks + days, hours, minutes, seconds)
  {
    TupleOfCompose(Parts(false, 7 * weeks + days, hours, minutes, seconds));
  }

  /** The hours, minutes and seconds of `tuple` are the floor remainder of
      the second count after whole days. */
  lemma TupleClockPart(d: Duration)
    ensures var t := Tuple(d);
            t.hours * 3600 + t.minutes * 60 + t.seconds == d.seconds % 86400
  {
    var t := Tuple(d);
    var days := if t.negative then -t.days else t.days;
    IntMath.FloorDivisionCharacterized(d.seconds, 86400, days, t.hours * 3600 + t.minutes * 60 + t.seconds);
  }

  /** The text `{head}d {clock}` splits back into its head and clock. */
  lemma SplitLongForm(head: string, clock: string)
    requires |head| >= 1 && |clock| == 8
    ensures var s := head + "d " + clock;
            |s| >= 11 && s[|s| - 10..|s| - 8] == "d " && s[..|s| - 10] == head && s[|s| - 8..] == clock
  {
  }

  /** Below one day `tuple` has no days and plain hours, minutes, seconds. */
  lemma TupleWithinDay(x: int)
    requires 0 <= x < 86400
    ensures Tuple(Duration(x)) == Parts(false, 0, x / 3600, x / 60 % 60, x % 60)
  {
    TupleOfCompose(Parts(false, 0, x / 3600, x / 60 % 60, x % 60));
  }

  /** `"%s%d"`: the sign field, then the day count. */
  function DayHead(negative: bool, days: nat): string {
    if negative then "-" + Decimal.Dec(days) else Decimal.Dec(days)
  }

  /** The day head is never empty and reads back as the signed day count. */
  lemma DayHeadReads(negative: bool, days: nat)
    ensures |DayHead(negative, days)| >= 1
    ensures ParseDays(DayHead(negative, days)) == Some((if negative then -(days as int) else days as int) * 86400)
  {
    var digits := Decimal.Dec(days);
    var head := DayHead(negative, days);
    Decimal.ParseDecOfDec(days);
    Decimal.AllDigitsAt(digits, 0);
    if days >= 10 {
      Decimal.DecNoLeadingZero(days);
    }
    if negative {
      assert head[0] == '-' && head[1..] == digits;
      assert ParseDays(head) == Some(-(days * 86400));
    } else {
      assert head == digits && head[0] != '-';
      assert ParseDays(head) == Some(days * 86400);
    }
  }

  /** `"%s%dd %02d:%02d:%02d"` of a tuple's fields, with `sign_pos` left at
      its default, the empty string. */
  function LongForm(negative: bool, days: nat, hours: nat, minutes: nat, seconds: nat): string {
    DayHead(negative, days) + "d " + Clock(hours, minutes, seconds)
  }

  /** The long form splits back into its parts: the head reads as the signed
      day count and the clock as the clock part. */
  lemma LongFormReads(negative: bool, days: nat, hours: nat, minutes: nat, seconds: nat)
    requires hours < 24 && minutes < 60 && seconds < 60
    ensures ParseLongForm(LongForm(negative, days, hours, minutes, seconds))
            == Some(((if negative then -(days as int) else days as int) * 86400,
                     hours * 3600 + minutes * 60 + seconds))
  {
    DayHeadReads(negative, days);
    ClockLength(hours, minutes, seconds);
    ParseClockOfClock(hours, minutes, seconds);
    ParseJoined(DayHead(negative, days), Clock(hours, minutes, seconds));
  }

  /** `{head}d {clock}` reads back as what its head and its clock read as. */
  lemma ParseJoined(head: string, clock: string)
    requires |head| >= 1 && |clock| == 8
    requires ParseDays(head).Some? && ParseClock(clock).Some?
    ensures ParseLongForm(head + "d " + clock) == Some((ParseDays(head).value, ParseClock(clock).value))
  {
    SplitLongForm(head, clock);
  }

  /** `isoformat()`: the bare clock `HH:MM:SS` for a duration from zero up to
      but excluding one day, otherwise `{sign}{days}d HH:MM:SS`. Only the
      short form is eight characters long. The long form splits the count
      as `tuple` does: the head reads as the floor number of whole days, and
      the clock as the non-negative remainder after them. */
  function Isoformat(d: Duration): (r: string)
    ensures (0 <= d.seconds < 86400) <==> |r| == 8
    ensures 0 <= d.seconds < 86400 ==> r == Clock(d.seconds / 3600, d.seconds / 60 % 60, d.seconds % 60)
    ensures !(0 <= d.seconds < 86400) ==>
              ParseLongForm(r) == Some((d.seconds - d.seconds % 86400, d.seconds % 86400))
  {
    var t := Tuple(d);
    if 0 <= d.seconds < 86400 then
      TupleWithinDay(d.seconds);
      ClockLength(t.hours, t.minutes, t.seconds);
      Clock(t.hours, t.minutes, t.seconds)
    else
      LongFormOfParts(t.negative, t.days, t.hours, t.minutes, t.seconds, d.seconds);
      LongForm(t.negative, t.days, t.hours, t.minutes, t.seconds)
  }

  /** The long form of in-range fields standing for `x` seconds reads back as
      the floor day count of `x` and the remainder after it. */
  lemma LongFormOfParts(negative: bool, days: nat, hours: nat, minutes: nat, seconds: nat, x: int)
    requires hours < 24 && minutes < 60 && seconds < 60
    requires (if negative then -(days as int) else days as int) * 86400 + hours * 3600 + minutes * 60 + seconds == x
    ensures ParseLongForm(LongForm(negative, days, hours, minutes, seconds)) == Some((x - x % 86400, x % 86400))
  {
    LongFormReads(negative, days, hours, minutes, seconds);
    DaysAndClock(if negative then -(days as int) else days as int, hours * 3600 + minutes * 60 + seconds, x);
  }

  /** A day count and a clock part within a day are the floor division of
      the seconds they stand for by 86400. */
  lemma DaysAndClock(days: int, clock: int, x: int)
    requires 0 <= clock < 86400 && days * 86400 + clock == x
    ensures days * 86400 == x - x % 86400 && clock == x % 86400
  {
    IntMath.FloorDivisionCharacterized(x, 86400, days, clock);
  }

  /** Reads `HH:MM:SS` back as a second count; each field must be two
      digits within its range. */
  function ParseClock(s: string): Option<int> {
    if |s| == 8 && s[2] == ':' && s[5] == ':'
       && Decimal.AllDigits(s[0..2]) && Decimal.AllDigits(s[3..5]) && Decimal.AllDigits(s[6..8])
       && Decimal.ParseDec(s[0..2]) < 24 && Decimal.ParseDec(s[3..5]) < 60 && Decimal.ParseDec(s[6..8]) < 60
    then Some(Decimal.ParseDec(s[0..2]) * 3600 + Decimal.ParseDec(s[3..5]) * 60 + Decimal.ParseDec(s[6..8]))
    else None
  }

  /** Reads `{sign}{days}` back as a second count: decimal digits without a
      leading zero (except for zero itself), possibly after a `-`. */
  function ParseDays(head: string): Option<int> {
    var negative := |head| > 0 && head[0] == '-';
    var digits := if negative then head[1..] else head;
    if |digits| > 0 && Decimal.AllDigits(digits) && (|digits| == 1 || digits[0] != '0') then
      var days := Decimal.ParseDec(digits) * 86400;
      Some(if negative then -days else days)
    else None
  }

  /** Reads `{sign}{days}d HH:MM:SS` back as its day part and its clock
      part, each as a second count. */
  function ParseLongForm(s: string): Option<(int, int)> {
    if |s| >= 11 && s[|s| - 10..|s| - 8] == "d " then
      var days := ParseDays(s[..|s| - 10]);
      var clock := ParseClock(s[|s| - 8..]);
      if days.Some? && clock.Some? then Some((days.value, clock.value)) else None
    else None
  }

  /** `%d` never pads, so a day count with a leading zero is not a long
      form: `01d 00:00:00` is rejected where `1d 00:00:00` reads as one day. */
  lemma ParseLongFormRejectsPaddedDays(s: string)
    requires s == "01d 00:00:00" || s == "-01d 23:59:19"
    ensures ParseLongForm(s) == None
  {
    var head := s[..|s| - 10];
    assert head == "01" || head == "-01";
  }

  /** Reads either form `isoformat` writes back as a second count: eight
      characters are a bare clock; otherwise the text is a day count, `d `
      and a clock. */
  function ParseIsoformat(s: string): Option<int> {
    if |s| == 8 then ParseClock(s)
    else
      var parts := ParseLongForm(s);
      if parts.Some? then Some(parts.value.0 + parts.value.1) else None
  }

  lemma ParseClockOfClock(h: nat, m: nat, s: nat)
    requires h < 24 && m < 60 && s < 60
    ensures ParseClock(Clock(h, m, s)) == Some(h * 3600 + m * 60 + s)
  {
    var c := Clock(h, m, s);
    Decimal.Pad2TwoDigits(h);
    Decimal.Pad2TwoDigits(m);
    Decimal.Pad2TwoDigits(s);
    assert c[0..2] == Decimal.Pad2(h);
    assert c[3..5] == Decimal.Pad2(m);
    assert c[6..8] == Decimal.Pad2(s);
  }

  /** The long form reads back: the day count, its sign and the clock. */
  lemma LongFormRoundTrip(d: Duration)
    requires !(0 <= d.seconds < 86400)
    ensures ParseIsoformat(Isoformat(d)) == Some(d.seconds)
  {
    var r := Isoformat(d);
    assert |r| != 8;
  }

  /** `isoformat` loses nothing: reading the text back gives the second count,
      for negative durations and durations of a day or more too. */
  lemma IsoformatRoundTrip(d: Duration)
    ensures ParseIsoformat(Isoformat(d)) == Some(d.seconds)
  {
    if 0 <= d.seconds < 86400 {
      TupleWithinDay(d.seconds);
      ParseClockOfClock(d.seconds / 3600, d.seconds / 60 % 60, d.seconds % 60);
    } else {
      LongFormRoundTrip(d);
    }
  }

  /** Different durations never render alike. */
  lemma IsoformatInjective(a: Duration, b: Duration)
    requires Isoformat(a) == Isoformat(b)
    ensures a == b
  {
    IsoformatRoundTrip(a);
    IsoformatRoundTrip(b);
  }

  // The long forms of the examples below, each computed on its own.

  lemma NineDaysText()
    ensures LongForm(false, 9, 5, 4, 3) == "9d 05:04:03"
  {
    assert Decimal.Dec(9) == "9";
    assert Clock(5, 4, 3) == "05:04:03";
  }

  lemma TwentyFiveHoursText()
    ensures LongForm(false, 1, 1, 0, 0) == "1d 01:00:00"
  {
    assert Decimal.Dec(1) == "1";
    assert Clock(1, 0, 0) == "01:00:00";
  }

  lemma TenYearsText()
    ensures LongForm(false, 3650, 0, 0, 0) == "3650d 00:00:00"
  {
    assert Decimal.Dec(3650) == "3650";
    assert Clock(0, 0, 0) == "00:00:00";
  }

  lemma NegativeText()
    ensures LongForm(true, 1, 23, 59, 19) == "-1d 23:59:19"
  {
    assert Decimal.Dec(1) == "1";
    assert Clock(23, 59, 19) == "23:59:19";
  }

  /** The long form as the source's checks pin it: one week, two days and
      5:04:03 (main.py:224-225). */
  lemma IsoformatOfNineDays(d: Duration)
    requires d == FromParts(1, 2, 5, 4, 3)
    ensures Isoformat(d) == "9d 05:04:03"
  {
    var p := Parts(false, 9, 5, 4, 3);
    assert d == Duration(Compose(p));
    TupleOfCompose(p);
    assert Isoformat(d) == LongForm(false, 9, 5, 4, 3);
    NineDaysText();
  }

  /** Exactly 25 hours render as one day and one hour. */
  lemma IsoformatOfTwentyFiveHours(d: Duration)
    requires d == FromParts(0, 0, 25, 0, 0)
    ensures Isoformat(d) == "1d 01:00:00"
  {
    var p := Parts(false, 1, 1, 0, 0);
    assert d == Duration(Compose(p));
    TupleOfCompose(p);
    assert Isoformat(d) == LongForm(false, 1, 1, 0, 0);
    TwentyFiveHoursText();
  }

  /** Ten years of 365 days (main.py:284-285). */
  lemma IsoformatOfTenYears(d: Duration)
    requires d == FromParts(0, 3650, 0, 0, 0)
    ensures Isoformat(d) == "3650d 00:00:00"
  {
    var p := Parts(false, 3650, 0, 0, 0);
    assert d == Duration(Compose(p));
    TupleOfCompose(p);
    assert Isoformat(d) == LongForm(false, 3650, 0, 0, 0);
    TenYearsText();
  }

  /** The short form: 25 s (the `floordiv(2)` check of main.py:252) and
      zero. */
  lemma IsoformatWithinDay(d: Duration)
    requires d.seconds == 25 || d.seconds == 0
    ensures d.seconds == 25 ==> Isoformat(d) == "00:00:25"
    ensures d.seconds == 0 ==> Isoformat(d) == "00:00:00"
  {
    var x := d.seconds;
    assert x / 3600 == 0 && x / 60 % 60 == 0;
    if x == 25 {
      assert x % 60 == 25;
      assert Clock(0, 0, 25) == "00:00:25";
    } else {
      assert x % 60 == 0;
      assert Clock(0, 0, 0) == "00:00:00";
    }
  }

  /** One and two hours, the offsets printed at main.py:300-304. */
  lemma IsoformatOfWholeHours(d: Duration)
    requires d.seconds == 3600 || d.seconds == 7200
    ensures d.seconds == 3600 ==> Isoformat(d) == "01:00:00"
    ensures d.seconds == 7200 ==> Isoformat(d) == "02:00:00"
  {
    var x := d.seconds;
    assert x / 60 % 60 == 0 && x % 60 == 0;
    if x == 3600 {
      assert x / 3600 == 1;
      assert Isoformat(d) == Clock(1, 0, 0);
      assert Clock(1, 0, 0) == "01:00:00" by {
        assert Decimal.Pad2(1) == "01" && Decimal.Pad2(0) == "00";
      }
    } else {
      assert x / 3600 == 2;
      assert Isoformat(d) == Clock(2, 0, 0);
      assert Clock(2, 0, 0) == "02:00:00" by {
        assert Decimal.Pad2(2) == "02" && Decimal.Pad2(0) == "00";
      }
    }
  }

  /** A negative duration renders as a negated day count and a forward clock:
      -41 s is `-1d 23:59:19`. */
  lemma IsoformatOfNegative(d: Duration)
    requires d.seconds == -41
    ensures Tuple(d) == Parts(true, 1, 23, 59, 19)
    ensures Isoformat(d) == "-1d 23:59:19"
  {
    var p := Parts(true, 1, 23, 59, 19);
    assert d == Duration(Compose(p));
    TupleOfCompose(p);
    assert Isoformat(d) == LongForm(true, 1, 23, 59, 19);
    NegativeText();
  }
}
