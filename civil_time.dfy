/**
 * Proleptic Gregorian dates and times as Python's `datetime` keeps them,
 * and the timestamp text `utmpdump` prints (`2025-09-16T07:57:42,674975+00:00`).
 * A time is its wall-clock fields plus the UTC offset; comparisons and
 * differences go through a count of microseconds, which is shown to order
 * times exactly as their fields do.
 */
module CivilTime {
  import opened Wrappers
  import opened Text

  // ---------------------------------------------------------------------------
  // Calendar
  // ---------------------------------------------------------------------------

  /** A date and wall-clock time, to the microsecond (a naive `datetime`). */
  datatype Civil = Civil(year: int, month: int, day: int, hour: int, minute: int, second: int, micro: int)

  predicate IsLeap(y: int) {
    y % 4 == 0 && (y % 100 != 0 || y % 400 == 0)
  }

  function DaysInYear(y: int): int {
    if IsLeap(y) then 366 else 365
  }

  function DaysInMonth(y: int, m: int): int
    requires 1 <= m <= 12
  {
    if m == 2 then (if IsLeap(y) then 29 else 28)
    else if m == 4 || m == 6 || m == 9 || m == 11 then 30
    else 31
  }

  /** The fields `datetime` accepts: years 1 to 9999, real days of the month, times within the day. */
  predicate ValidCivil(c: Civil) {
    && 1 <= c.year <= 9999
    && 1 <= c.month <= 12
    && 1 <= c.day <= DaysInMonth(c.year, c.month)
    && 0 <= c.hour < 24
    && 0 <= c.minute < 60
    && 0 <= c.second < 60
    && 0 <= c.micro < 1000000
  }

  /** Days in the years before `y` (Python's `_days_before_year`). */
  function DaysBeforeYear(y: int): int
    requires y >= 1
  {
    var p := y - 1;
    p * 365 + p / 4 - p / 100 + p / 400
  }

  /** Days in the months of year `y` before month `m`. */
  function DaysBeforeMonth(y: int, m: int): int
    requires 1 <= m <= 12
  {
    var leap := if m > 2 && IsLeap(y) then 1 else 0;
    leap +
      if m == 1 then 0 else if m == 2 then 31 else if m == 3 then 59 else if m == 4 then 90
      else if m == 5 then 120 else if m == 6 then 151 else if m == 7 then 181 else if m == 8 then 212
      else if m == 9 then 243 else if m == 10 then 273 else if m == 11 then 304 else 334
  }

  /** `date.toordinal()`: day 1 is 0001-01-01. */
  function Ordinal(c: Civil): int
    requires 1 <= c.year && 1 <= c.month <= 12
  {
    DaysBeforeYear(c.year) + DaysBeforeMonth(c.year, c.month) + c.day
  }

  /** The ordinal of 1970-01-01. */
  const EpochOrdinal: int := 719163

  const MicrosPerDay: int := 86400000000

  function TimeOfDayMicros(c: Civil): int {
    ((c.hour * 60 + c.minute) * 60 + c.second) * 1000000 + c.micro
  }

  /** Microseconds from 1970-01-01T00:00 to the wall-clock time `c`. */
  function WallMicros(c: Civil): int
    requires 1 <= c.year && 1 <= c.month <= 12
  {
    (Ordinal(c) - EpochOrdinal) * MicrosPerDay + TimeOfDayMicros(c)
  }

  /** The fields `datetime` compares naive times by, most significant first. */
  function Fields(c: Civil): (f: seq<int>)
    ensures |f| == 7
  {
    [c.year, c.month, c.day, c.hour, c.minute, c.second, c.micro]
  }

  /** `xs` comes before `ys` in the order tuples compare, looking from position `i` on. */
  predicate LexLess(xs: seq<int>, ys: seq<int>, i: nat)
    requires |xs| == |ys| && i <= |xs|
    decreases |xs| - i
  {
    i < |xs| && (xs[i] < ys[i] || (xs[i] == ys[i] && LexLess(xs, ys, i + 1)))
  }

  /** `a` comes before `b` in the order `datetime` compares naive times: field by field. */
  predicate Before(a: Civil, b: Civil) {
    LexLess(Fields(a), Fields(b), 0)
  }

  /** The field-by-field order written out. */
  lemma BeforeFields(a: Civil, b: Civil)
    ensures Before(a, b) <==>
      || a.year < b.year
      || (a.year == b.year && a.month < b.month)
      || (a.year == b.year && a.month == b.month && a.day < b.day)
      || (a.year == b.year && a.month == b.month && a.day == b.day && a.hour < b.hour)
      || (a.year == b.year && a.month == b.month && a.day == b.day && a.hour == b.hour && a.minute < b.minute)
      || (a.year == b.year && a.month == b.month && a.day == b.day && a.hour == b.hour && a.minute == b.minute
          && a.second < b.second)
      || (a.year == b.year && a.month == b.month && a.day == b.day && a.hour == b.hour && a.minute == b.minute
          && a.second == b.second && a.micro < b.micro)
  {
    var x, y := Fields(a), Fields(b);
    assert !LexLess(x, y, 7);
    assert LexLess(x, y, 6) <==> a.micro < b.micro;
    assert LexLess(x, y, 5) <==> a.second < b.second || (a.second == b.second && LexLess(x, y, 6));
    assert LexLess(x, y, 4) <==> a.minute < b.minute || (a.minute == b.minute && LexLess(x, y, 5));
    assert LexLess(x, y, 3) <==> a.hour < b.hour || (a.hour == b.hour && LexLess(x, y, 4));
    assert LexLess(x, y, 2) <==> a.day < b.day || (a.day == b.day && LexLess(x, y, 3));
    assert LexLess(x, y, 1) <==> a.month < b.month || (a.month == b.month && LexLess(x, y, 2));
    assert LexLess(x, y, 0) <==> a.year < b.year || (a.year == b.year && LexLess(x, y, 1));
  }


  lemma DaysBeforeYearStep(y: int)
    requires y >= 1
    ensures DaysBeforeYear(y + 1) == DaysBeforeYear(y) + DaysInYear(y)
  {
    var p := y - 1;
    assert y / 4 == p / 4 + (if y % 4 == 0 then 1 else 0);
    assert y / 100 == p / 100 + (if y % 100 == 0 then 1 else 0);
    assert y / 400 == p / 400 + (if y % 400 == 0 then 1 else 0);
  }

  lemma {:induction false} DaysBeforeYearGrows(y1: int, y2: int)
    requires 1 <= y1 <= y2
    ensures DaysBeforeYear(y1) + 365 * (y2 - y1) <= DaysBeforeYear(y2)
    decreases y2 - y1
  {
    if y1 < y2 {
      DaysBeforeYearStep(y1);
      DaysBeforeYearGrows(y1 + 1, y2);
    }
  }

  lemma DaysBeforeMonthGrows(y: int, m1: int, m2: int)
    requires 1 <= m1 < m2 <= 12
    ensures DaysBeforeMonth(y, m1) + DaysInMonth(y, m1) <= DaysBeforeMonth(y, m2)
  {
  }

  /** The days of a year's months add up to the days of the year. */
  lemma DaysBeforeMonthEnd(y: int)
    ensures DaysBeforeMonth(y, 12) + DaysInMonth(y, 12) == DaysInYear(y)
  {
  }

  /** Earlier dates have smaller ordinals. */
  lemma OrdinalGrows(a: Civil, b: Civil)
    requires ValidCivil(a) && ValidCivil(b)
    requires a.year < b.year || (a.year == b.year && a.month < b.month) ||
             (a.year == b.year && a.month == b.month && a.day < b.day)
    ensures Ordinal(a) < Ordinal(b)
  {
    if a.year < b.year {
      DaysBeforeMonthEnd(a.year);
      if a.month < 12 {
        DaysBeforeMonthGrows(a.year, a.month, 12);
      }
      DaysBeforeYearStep(a.year);
      DaysBeforeYearGrows(a.year + 1, b.year);
    } else if a.month < b.month {
      DaysBeforeMonthGrows(a.year, a.month, b.month);
    }
  }

  /**
   * The microsecond count orders valid times as their fields do, so it is
   * a faithful stand-in for comparing `datetime` values: smaller exactly
   * when earlier, equal exactly when all fields are equal.
   */
  lemma WallMicrosOrder(a: Civil, b: Civil)
    requires ValidCivil(a) && ValidCivil(b)
    ensures Before(a, b) <==> WallMicros(a) < WallMicros(b)
    ensures a == b <==> WallMicros(a) == WallMicros(b)
  {
    WallMicrosGrows(a, b);
    WallMicrosGrows(b, a);
    BeforeFields(a, b);
    BeforeFields(b, a);
  }

  lemma WallMicrosGrows(a: Civil, b: Civil)
    requires ValidCivil(a) && ValidCivil(b)
    ensures Before(a, b) ==> WallMicros(a) < WallMicros(b)
  {
    BeforeFields(a, b);
    if a.year < b.year || (a.year == b.year && a.month < b.month) ||
       (a.year == b.year && a.month == b.month && a.day < b.day) {
      OrdinalGrows(a, b);
      assert TimeOfDayMicros(a) < MicrosPerDay;
    }
  }

  /** Whole seconds from 1970-01-01T00:00 to the wall-clock time `c`, its microseconds dropped. */
  function WallSeconds(c: Civil): int
    requires 1 <= c.year && 1 <= c.month <= 12
  {
    WallMicros(c) / 1000000
  }

  /**
   * Two times fall in the same second exactly when they agree on every
   * field from the year to the second: the second count is a faithful
   * stand-in for comparing those six fields.
   */
  lemma WallSecondsFields(a: Civil, b: Civil)
    requires ValidCivil(a) && ValidCivil(b)
    ensures WallSeconds(a) == WallSeconds(b) <==> a.(micro := 0) == b.(micro := 0)
  {
    var a0, b0 := a.(micro := 0), b.(micro := 0);
    WallSecondsOfWhole(a);
    WallSecondsOfWhole(b);
    WallMicrosOrder(a0, b0);
  }

  /** The second count is the microsecond count of the time with its microseconds dropped, divided exactly. */
  lemma WallSecondsOfWhole(c: Civil)
    requires ValidCivil(c)
    ensures WallMicros(c.(micro := 0)) == WallSeconds(c) * 1000000
  {
    var c0 := c.(micro := 0);
    assert Ordinal(c0) == Ordinal(c);
    var k := (Ordinal(c) - EpochOrdinal) * 86400 + (c.hour * 60 + c.minute) * 60 + c.second;
    assert WallMicros(c0) == k * 1000000;
    assert WallMicros(c) == k * 1000000 + c.micro;
    DivMillion(k, c.micro);
  }

  lemma DivMillion(k: int, r: int)
    requires 0 <= r < 1000000
    ensures (k * 1000000 + r) / 1000000 == k
  {
  }

  /**
   * The date is 1970-01-01 exactly when the time lies in the first day of
   * the microsecond count.
   */
  lemma EpochDay(c: Civil)
    requires ValidCivil(c)
    ensures (c.year == 1970 && c.month == 1 && c.day == 1) <==> 0 <= WallMicros(c) < MicrosPerDay
  {
    var c0 := c.(year := 1970, month := 1, day := 1);
    assert DaysBeforeYear(1970) == 719162;
    assert WallMicros(c0) == TimeOfDayMicros(c);
    if 0 <= WallMicros(c) < MicrosPerDay {
      assert Ordinal(c) == EpochOrdinal;
      WallMicrosOrder(c, c0);
    }
  }

  // ---------------------------------------------------------------------------
  // Fixed-width text
  // ---------------------------------------------------------------------------

  function Pow10(w: nat): nat {
    if w == 0 then 1 else 10 * Pow10(w - 1)
  }

  /** `n` in exactly `w` decimal digits, zero-padded (`"%0*d"` for `n < 10^w`). */
  function Padded(n: nat, w: nat): (r: string)
    ensures |r| == w
    ensures forall k :: 0 <= k < |r| ==> IsDigit(r[k])
  {
    if w == 0 then [] else Padded(n / 10, w - 1) + [DigitChar(n % 10)]
  }

  lemma {:induction false} PaddedValue(n: nat, w: nat)
    requires n < Pow10(w)
    ensures DigitsValue(Padded(n, w)) == n
  {
    if w > 0 {
      PaddedValue(n / 10, w - 1);
      var r := Padded(n, w);
      assert r[..|r| - 1] == Padded(n / 10, w - 1);
    }
  }

  lemma {:induction false} PaddedOfDigits(s: string)
    requires forall k :: 0 <= k < |s| ==> IsDigit(s[k])
    ensures DigitsValue(s) < Pow10(|s|)
    ensures Padded(DigitsValue(s), |s|) == s
    decreases |s|
  {
    if s != [] {
      var front := s[..|s| - 1];
      PaddedOfDigits(front);
      var v := DigitsValue(s);
      assert v == DigitsValue(front) * 10 + DigitValue(s[|s| - 1]);
      assert v / 10 == DigitsValue(front) && v % 10 == DigitValue(s[|s| - 1]);
      assert DigitChar(v % 10) == s[|s| - 1];
      assert front + [s[|s| - 1]] == s;
    }
  }

  /** Reads a number of exactly `w` digits from the front of `s`, and the text after it. */
  function ReadNum(s: string, w: nat): (r: Option<(nat, string)>)
    ensures r.Some? ==> r.value.0 < Pow10(w) && s == Padded(r.value.0, w) + r.value.1
  {
    if |s| >= w && forall k :: 0 <= k < w ==> IsDigit(s[k]) then
      var digits := s[..w];
      assert forall k :: 0 <= k < |digits| ==> IsDigit(digits[k]);
      PaddedOfDigits(digits);
      assert s == digits + s[w..];
      Some((DigitsValue(digits), s[w..]))
    else None
  }

  /** Reads the character `c` from the front of `s`, and the text after it. */
  function ReadLit(s: string, c: char): (r: Option<string>)
    ensures r.Some? ==> s == [c] + r.value
  {
    if |s| > 0 && s[0] == c then
      assert s == [c] + s[1..];
      Some(s[1..])
    else None
  }

  lemma ReadNumOf(n: nat, w: nat, rest: string)
    requires n < Pow10(w)
    ensures ReadNum(Padded(n, w) + rest, w) == Some((n, rest))
  {
    PaddedValue(n, w);
    var s := Padded(n, w) + rest;
    assert s[..w] == Padded(n, w) && s[w..] == rest;
  }

  // ---------------------------------------------------------------------------
  // The timestamp of a utmpdump line
  // ---------------------------------------------------------------------------

  /** A UTC offset as printed: its sign, hours and minutes. */
  datatype Offset = Offset(negative: bool, hours: int, minutes: int)

  /** An aware time: wall-clock fields and the offset they are given in. */
  datatype Time = Time(wall: Civil, offset: Offset)

  predicate ValidTime(t: Time) {
    ValidCivil(t.wall) && 0 <= t.offset.hours < 24 && 0 <= t.offset.minutes < 60
  }

  function OffsetMinutes(o: Offset): int {
    (if o.negative then -1 else 1) * (o.hours * 60 + o.minutes)
  }

  /** Microseconds from the epoch (UTC) to the instant `t` denotes. */
  function InstantMicros(t: Time): int
    requires ValidTime(t)
  {
    WallMicros(t.wall) - OffsetMinutes(t.offset) * 60000000
  }

  /** `YYYY-MM-DD`. */
  function DateText(year: nat, month: nat, day: nat): string {
    Padded(year, 4) + ("-" + (Padded(month, 2) + ("-" + Padded(day, 2))))
  }

  /** `THH:MM:SS,ffffff`. */
  function ClockText(hour: nat, minute: nat, second: nat, micro: nat): string {
    "T" + (Padded(hour, 2) + (":" + (Padded(minute, 2) + (":" + (Padded(second, 2) + ("," + Padded(micro, 6)))))))
  }

  /** `+HH:MM` or `-HH:MM`. */
  function ZoneText(negative: bool, hours: nat, minutes: nat): string {
    [if negative then '-' else '+'] + (Padded(hours, 2) + (":" + Padded(minutes, 2)))
  }

  function ReadDate(s: string): (r: Option<((nat, nat, nat), string)>)
    ensures r.Some? ==> s == DateText(r.value.0.0, r.value.0.1, r.value.0.2) + r.value.1
  {
    match ReadNum(s, 4)
    case None => None
    case Some((year, r1)) =>
      match ReadLit(r1, '-')
      case None => None
      case Some(r2) =>
        match ReadNum(r2, 2)
        case None => None
        case Some((month, r3)) =>
          match ReadLit(r3, '-')
          case None => None
          case Some(r4) =>
            match ReadNum(r4, 2)
            case None => None
            case Some((day, r5)) => Some(((year, month, day), r5))
  }

  function ReadClock(s: string): (r: Option<((nat, nat, nat, nat), string)>)
    ensures r.Some? ==> s == ClockText(r.value.0.0, r.value.0.1, r.value.0.2, r.value.0.3) + r.value.1
  {
    match ReadLit(s, 'T')
    case None => None
    case Some(r1) =>
      match ReadNum(r1, 2)
      case None => None
      case Some((hour, r2)) =>
        match ReadLit(r2, ':')
        case None => None
        case Some(r3) =>
          match ReadNum(r3, 2)
          case None => None
          case Some((minute, r4)) =>
            match ReadLit(r4, ':')
            case None => None
            case Some(r5) =>
              match ReadNum(r5, 2)
              case None => None
              case Some((second, r6)) =>
                match ReadLit(r6, ',')
                case None => None
                case Some(r7) =>
                  match ReadNum(r7, 6)
                  case None => None
                  case Some((micro, r8)) => Some(((hour, minute, second, micro), r8))
  }

  /** The zone must end the text. */
  function ReadZone(s: string): (r: Option<(bool, nat, nat)>)
    ensures r.Some? ==> s == ZoneText(r.value.0, r.value.1, r.value.2)
  {
    if |s| > 0 && (s[0] == '+' || s[0] == '-') then
      match ReadNum(s[1..], 2)
      case None => None
      case Some((hours, r2)) =>
        match ReadLit(r2, ':')
        case None => None
        case Some(r3) =>
          match ReadNum(r3, 2)
          case None => None
          case Some((minutes, r4)) =>
            if r4 == [] then
              assert s == [s[0]] + s[1..];
              Some((s[0] == '-', hours, minutes))
            else None
    else None
  }

  /** The timestamp text of a valid time, as utmpdump prints it: `YYYY-MM-DDTHH:MM:SS,ffffff+HH:MM`. */
  function FormatTime(t: Time): string
    requires ValidTime(t)
  {
    var w := t.wall;
    DateText(w.year, w.month, w.day) +
      (ClockText(w.hour, w.minute, w.second, w.micro) + ZoneText(t.offset.negative, t.offset.hours, t.offset.minutes))
  }

  /**
   * The timestamp group of a utmpdump line read as a time: the text must
   * follow the layout exactly and name a real date, time and offset.
   */
  function ParseTime(s: string): (r: Option<Time>)
    ensures r.Some? ==> ValidTime(r.value) && FormatTime(r.value) == s
  {
    match ReadDate(s)
    case None => None
    case Some((date, r1)) =>
      match ReadClock(r1)
      case None => None
      case Some((clock, r2)) =>
        match ReadZone(r2)
        case None => None
        case Some(zone) =>
          var t := Time(Civil(date.0, date.1, date.2, clock.0, clock.1, clock.2, clock.3),
                        Offset(zone.0, zone.1, zone.2));
          if ValidTime(t) then Some(t) else None
  }

  lemma ReadDateOf(year: nat, month: nat, day: nat, rest: string)
    requires year < 10000 && month < 100 && day < 100
    ensures ReadDate(DateText(year, month, day) + rest) == Some(((year, month, day), rest))
  {
    assert Pow10(2) == 100 && Pow10(4) == 10000;
    var r5 := Padded(day, 2) + rest;
    var r3 := Padded(month, 2) + ("-" + r5);
    var r1 := "-" + r3;
    assert DateText(year, month, day) + rest == Padded(year, 4) + r1;
    ReadNumOf(year, 4, r1);
    assert r1[1..] == r3;
    ReadNumOf(month, 2, "-" + r5);
    assert ("-" + r5)[1..] == r5;
    ReadNumOf(day, 2, rest);
  }

  lemma ReadClockOf(hour: nat, minute: nat, second: nat, micro: nat, rest: string)
    requires hour < 100 && minute < 100 && second < 100 && micro < 1000000
    ensures ReadClock(ClockText(hour, minute, second, micro) + rest) == Some(((hour, minute, second, micro), rest))
  {
    assert Pow10(2) == 100 && Pow10(6) == 1000000;
    var r7 := Padded(micro, 6) + rest;
    var r5 := Padded(second, 2) + ("," + r7);
    var r3 := Padded(minute, 2) + (":" + r5);
    var r1 := Padded(hour, 2) + (":" + r3);
    assert ClockText(hour, minute, second, micro) + rest == "T" + r1;
    assert ("T" + r1)[1..] == r1;
    ReadNumOf(hour, 2, ":" + r3);
    assert (":" + r3)[1..] == r3;
    ReadNumOf(minute, 2, ":" + r5);
    assert (":" + r5)[1..] == r5;
    ReadNumOf(second, 2, "," + r7);
    assert ("," + r7)[1..] == r7;
    ReadNumOf(micro, 6, rest);
  }

  lemma ReadZoneOf(negative: bool, hours: nat, minutes: nat)
    requires hours < 100 && minutes < 100
    ensures ReadZone(ZoneText(negative, hours, minutes)) == Some((negative, hours, minutes))
  {
    assert Pow10(2) == 100;
    var s := ZoneText(negative, hours, minutes);
    var r3 := Padded(minutes, 2);
    assert s[1..] == Padded(hours, 2) + (":" + r3);
    ReadNumOf(hours, 2, ":" + r3);
    assert (":" + r3)[1..] == r3;
    ReadNumOf(minutes, 2, []);
    assert r3 + [] == r3;
  }

  /** Every valid time is printed as text that reads back as that time. */
  lemma ParseFormat(t: Time)
    requires ValidTime(t)
    ensures ParseTime(FormatTime(t)) == Some(t)
  {
    var w := t.wall;
    var zone := ZoneText(t.offset.negative, t.offset.hours, t.offset.minutes);
    var tail := ClockText(w.hour, w.minute, w.second, w.micro) + zone;
    ReadDateOf(w.year, w.month, w.day, tail);
    ReadClockOf(w.hour, w.minute, w.second, w.micro, zone);
    ReadZoneOf(t.offset.negative, t.offset.hours, t.offset.minutes);
  }
}
