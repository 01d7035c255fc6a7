/** NeoGPS's `time_t`: seconds since 2000 to a date and back, in 8-, 16- and 32-bit arithmetic. */
module NeoTime {
  import opened Widths
  import opened Options
  import opened Gregorian
  import opened DateText

  const EPOCH: uint16 := 2000
  const EPOCH_WEEKDAY: uint8 := 7  // Saturday
  const DAY_SECONDS: uint32 := 86400
  const HOUR_SECONDS: uint16 := 3600
  const MINUTE_SECONDS: uint8 := 60
  const DAYS_IN: seq<uint8> := [0, 31, 28, 31, 30, 31, 30, 31, 31, 30, 31, 30, 31]

  /** `full_year`. The pivot year is 0 in this build, so its test (`y < pivot_year()`) never holds. */
  function FullYear(year: uint8): (y: uint16)
    ensures y == 2000 + year as uint16
  {
    year as uint16 + 100 * (EPOCH / 100)
  }

  /** `is_leap`, with its single modulo by 400, is the Gregorian rule. */
  predicate IsLeap(year: uint16)
    ensures IsLeap(year) == Leap(year as int)
  {
    if year % 4 != 0 then false
    else
      var y := year % 400;
      y == 0 || (y != 100 && y != 200 && y != 300)
  }

  function DaysPer(year: uint16): (d: uint16)
    ensures d as int == YearLength(year as int)
  {
    365 + if IsLeap(year) then 1 else 0
  }

  /** `days_in[month]` plus the leap day, as both month loops compute it. */
  function DaysIn(month: uint8, leap: bool): (d: uint8)
    requires 1 <= month <= 12
    ensures d as int == MonthLength(month as int, leap)
  {
    DAYS_IN[month] + if leap && month == 2 then 1 else 0
  }

  function WeekdayFor(dayno: uint16): (w: uint8)
    requires dayno < 65529
    ensures 1 <= w <= 7
  {
    ((dayno + EPOCH_WEEKDAY as uint16 - 1) % 7) as uint8 + 1
  }

  /** The first day of the epoch is a Saturday and each day is followed by the next weekday. */
  lemma WeekdayAdvances(dayno: uint16)
    requires dayno < 65528
    ensures WeekdayFor(0) == 7
    ensures WeekdayFor(dayno + 1) == if WeekdayFor(dayno) == 7 then 1 else WeekdayFor(dayno) + 1
  {}

  /** 2000 through 2099. */
  const CENTURY_SECONDS := 36525 * 86400

  const CENTURY_AND_YEAR_SECONDS := 36890 * 86400

  /** What the constructor makes of a year: 2100 is left at 100, later ones lose a century. */
  function Folded(t: Civil): Civil {
    if t.year <= 2100 then t else t.(year := t.year - 100)
  }

  /** The constructor's first loop: whole years are taken off the day number. */
  method SplitYears(days: uint16) returns (y: uint16, dayno: uint16)
    requires days < 49711
    ensures y as int == YearOf(2000, days as int) <= 2136
    ensures dayno as int == days as int - YearStart(y as int) && dayno < DaysPer(y)
  {
    y, dayno := EPOCH, days;
    LastYear(days as int);
    while true
      invariant 2000 <= y && YearOf(2000, days as int) == YearOf(y as int, dayno as int) <= 2136
      invariant days as int == YearStart(y as int) + dayno as int
      decreases dayno
    {
      var length := DaysPer(y);
      if dayno < length {
        break;
      }
      dayno := dayno - length;
      y := y + 1;
    }
  }

  /** Its second loop: years past 100 lose a century. */
  function FoldYear(y: uint16): (year: uint8)
    requires 2000 <= y <= 2136
    ensures year as int == if y <= 2100 then y as int - 2000 else y as int - 2100
  {
    LessCenturies(y - EPOCH + EPOCH % 100)
  }

  function LessCenturies(y: uint16): (year: uint8)
    ensures year <= 100 && (y as int - year as int) % 100 == 0 && (y > 100 ==> year > 0)
  {
    if y > 100 then LessCenturies(y - 100) else y as uint8
  }

  /** One turn of the month loop. */
  lemma NextMonth(m: int, leap: bool, days: nat)
    requires 1 <= m && MonthOf(m, leap, days) <= 12 && MonthLength(m, leap) <= days
    ensures m <= 11 && MonthOf(m + 1, leap, days - MonthLength(m, leap)) == MonthOf(m, leap, days)
    ensures MonthStart(m + 1, leap) == MonthStart(m, leap) + MonthLength(m, leap)
  {
    hide MonthLength;
    MonthStep(m, leap);
  }

  lemma FirstMonth(leap: bool, days: nat)
    requires days < MonthStart(13, leap)
    ensures MonthOf(1, leap, days) <= 12 && MonthStart(1, leap) == 0
  {
    MonthIs(1, leap, days);
  }

  lemma LastMonth(m: int, leap: bool, days: nat)
    requires days < MonthLength(m, leap)
    ensures MonthOf(m, leap, days) == m && days < 31
  {}

  /** Its third loop: whole months. */
  method SplitMonths(days: uint16, leapYear: bool) returns (m: uint8, date: uint8)
    requires days < if leapYear then 366 else 365
    ensures m as int == MonthOf(1, leapYear, days as int) <= 12
    ensures date as int == days as int - MonthStart(m as int, leapYear) + 1
  {
    hide MonthOf, MonthStart, MonthLength;
    YearTotal(leapYear);
    FirstMonth(leapYear, days as int);
    m := 1;
    var dayno := days;
    while true
      invariant 1 <= m <= 12
      invariant MonthOf(1, leapYear, days as int) == MonthOf(m as int, leapYear, dayno as int) <= 12
      invariant days as int == MonthStart(m as int, leapYear) + dayno as int
      decreases dayno
    {
      var length := DaysIn(m, leapYear);
      if dayno < length as uint16 {
        LastMonth(m as int, leapYear, dayno as int);
        break;
      }
      NextMonth(m as int, leapYear, dayno as int);
      dayno := dayno - length as uint16;
      m := m + 1;
    }
    date := dayno as uint8 + 1;
  }

  /** The loop of `day_of_year`. */
  method AddMonths(month: uint8, leapYear: bool, start: uint16) returns (dayno: uint16)
    requires 1 <= month <= 12 && (start as int) < MonthLength(month as int, leapYear)
    ensures dayno as int == start as int + MonthStart(month as int, leapYear)
    ensures dayno < 366
  {
    hide MonthStart, MonthLength;
    YearTotal(leapYear);
    FirstMonth(leapYear, 0);
    MonthStartMonotone(month as int, 13, leapYear);
    dayno := start;
    var m: uint8 := 1;
    while m < month
      invariant 1 <= m <= month
      invariant dayno as int == start as int + MonthStart(m as int, leapYear)
    {
      MonthStep(m as int, leapYear);
      MonthUpTo(m as int + 1, month as int, leapYear);
      dayno := dayno + DaysIn(m, leapYear) as uint16;
      m := m + 1;
    }
  }

  /** Its last part: the time of day, in 16 bits before 18:00 and in 32 bits after. */
  method SplitDay(c: uint32) returns (h: uint8, min: uint8, sec: uint8)
    requires c < DAY_SECONDS
    ensures h as int == c as int / 3600 && min as int == c as int % 3600 / 60 && sec as int == c as int % 60
  {
    h := (c / HOUR_SECONDS as uint32) as uint8;
    var left: uint16;
    if h < 18 {
      left := (c % 0x1_0000) as uint16 - h as uint16 * HOUR_SECONDS;
    } else {
      left := (c - h as uint32 * HOUR_SECONDS as uint32) as uint16;
    }
    assert left as int == c as int % 3600;
    min := (left / MINUTE_SECONDS as uint16) as uint8;
    sec := (left - min as uint16 * MINUTE_SECONDS as uint16) as uint8;
    SecondsLeft(c as int);
  }

  lemma SecondsLeft(c: nat)
    ensures c % 3600 % 60 == c % 60
  {
    assert c == 60 * (60 * (c / 3600) + c % 3600 / 60) + c % 3600 % 60;
  }

  class Time {
    var seconds: uint8
    var minutes: uint8
    var hours: uint8
    var day: uint8
    var date: uint8
    var month: uint8
    var year: uint8

    function Fields(): Civil
      reads this
    {
      Civil(2000 + year as int, month as int, date as int, hours as int, minutes as int, seconds as int)
    }

    /** `is_valid`, term by term. */
    predicate IsValid()
      reads this
    {
      && year <= 99
      && 1 <= month <= 12
      && 1 <= date && (date <= DAYS_IN[month] || (month == 2 && IsLeap(FullYear(year)) && date == 29))
      && hours <= 23 && minutes <= 59 && seconds <= 59
    }

    lemma ValidMeaning()
      ensures IsValid() <==> Fields().Valid() && Fields().year <= 2099
    {
      if IsValid() || Fields().Valid() {
        assert MonthLength(month as int, Leap(Fields().year)) == DaysIn(month, IsLeap(FullYear(year))) as int;
      }
    }

    /** `time_t(clock_t)`, for every 32-bit count. */
    constructor (clock: uint32)
      ensures Fields() == Folded(CivilOf(clock as int))
      ensures day as int == (clock as int / 86400 + 6) % 7 + 1
    {
      var dayno := (clock / DAY_SECONDS) as uint16;
      var c := clock - dayno as uint32 * DAY_SECONDS;
      day := WeekdayFor(dayno);
      DateOf(clock as int);
      var y, inYear := SplitYears(dayno);
      var m, d := SplitMonths(inYear, IsLeap(y));
      year := FoldYear(y);
      month, date := m, d;
      var h, min, sec := SplitDay(c);
      hours, minutes, seconds := h, min, sec;
    }

    /** `day_of_year`. */
    method DayOfYear() returns (dayno: uint16)
      requires IsValid() || Fields().Valid()
      ensures dayno as int == MonthStart(month as int, Leap(Fields().year)) + date as int - 1
      ensures dayno < 366
    {
      ValidMeaning();
      var leapYear := IsLeap(FullYear(year));
      dayno := AddMonths(month, leapYear, date as uint16 - 1);
    }

    /** `days`: the years are counted down to the epoch. */
    method Days() returns (dayCount: uint16)
      requires IsValid() || Fields().Valid()
      requires year <= 100
      ensures dayCount as int == Fields().Days()
    {
      dayCount := DayOfYear();
      var y := FullYear(year);
      YearStartClosed(y as int);
      while true
        invariant 2000 <= y
        invariant dayCount as int + YearStart(y as int) == Fields().Days() < 40000
        decreases y
      {
        var more := y > EPOCH;
        y := y - 1;
        if !more {
          break;
        }
        dayCount := dayCount + DaysPer(y);
      }
    }

    /** `operator clock_t`. */
    method ToClock() returns (c: uint32)
      requires IsValid() || Fields().Valid()
      requires year <= 100
      ensures c as int == Fields().Clock()
    {
      ValidMeaning();
      var days := Days();
      DayLimit(Fields());
      c := days as uint32 * DAY_SECONDS;
      if hours < 18 {
        c := c + (hours as uint16 * HOUR_SECONDS) as uint32;
      } else {
        c := c + hours as uint32 * HOUR_SECONDS as uint32;
      }
      c := c + (minutes as uint16 * MINUTE_SECONDS as uint16) as uint32;
      c := c + seconds as uint32;
    }

    /** `operator +=`: through the seconds count, whose addition wraps at 32 bits. */
    method PlusAssign(offset: uint32)
      requires (IsValid() || Fields().Valid()) && year <= 100
      modifies this
      ensures var c := (old(Fields()).Clock() + offset as int) % 0x1_0000_0000;
              Fields() == Folded(CivilOf(c)) && day as int == (c / 86400 + 6) % 7 + 1
    {
      hide CivilOf, Folded, MonthLength;
      var c := ToClock();
      var sum := ((c as int + offset as int) % 0x1_0000_0000) as uint32;
      var t := new Time(sum);
      seconds, minutes, hours, day := t.seconds, t.minutes, t.hours, t.day;
      date, month, year := t.date, t.month, t.year;
    }

    /** `parse`: each field is stored as soon as it is read, whatever follows it. */
    method Parse(s: string) returns (ok: bool)
      requires |s| < 32
      modifies this
      ensures ok <==> ParseFields(s).Some? && ParseFields(s).value.Valid()
      ensures ok ==> Fields() == ParseFields(s).value && IsValid()
      ensures day == old(day)
    {
      var f := Scan(s, 0, '-');
      if f.None? {
        return false;
      }
      year := (f.value.0 % 100) as uint8;
      if FullYear(year) as int != f.value.0 {
        return false;
      }
      ok := ParseAfterYear(s, f.value.1 + 1);
      ValidMeaning();
    }

    /** The five fields after the year; the year is already stored. */
    method ParseAfterYear(s: string, at: nat) returns (ok: bool)
      requires at <= |s|
      modifies this
      ensures year == old(year) && day == old(day)
      ensures ScanAll(s, at, SEPARATORS).Some? ==>
                var f := ScanAll(s, at, SEPARATORS).value;
                Fields() == Civil(2000 + year as int, f[0] % 256, f[1] % 256, f[2] % 256, f[3] % 256, f[4] % 256)
                && ok == IsValid()
      ensures ScanAll(s, at, SEPARATORS).None? ==> !ok
    {
      hide Scan;
      ghost var s1, s2, s3, s4 := SEPARATORS[1..], SEPARATORS[2..], SEPARATORS[3..], SEPARATORS[4..];
      assert s1[1..] == s2 && s2[1..] == s3 && s3[1..] == s4;
      var f := Scan(s, at, '-');
      if f.None? {
        return false;
      }
      month := (f.value.0 % 256) as uint8;
      ghost var r1 := ScanAll(s, f.value.1 + 1, s1);
      f := Scan(s, f.value.1 + 1, ' ');
      if f.None? {
        return false;
      }
      date := (f.value.0 % 256) as uint8;
      ghost var r2 := ScanAll(s, f.value.1 + 1, s2);
      f := Scan(s, f.value.1 + 1, ':');
      if f.None? {
        return false;
      }
      hours := (f.value.0 % 256) as uint8;
      ghost var r3 := ScanAll(s, f.value.1 + 1, s3);
      f := Scan(s, f.value.1 + 1, ':');
      if f.None? {
        return false;
      }
      minutes := (f.value.0 % 256) as uint8;
      ghost var r4 := ScanAll(s, f.value.1 + 1, s4);
      f := Scan(s, f.value.1 + 1, NUL);
      if f.None? {
        return false;
      }
      seconds := (f.value.0 % 256) as uint8;
      ok := IsValid();
    }

    /** `set_day`. */
    method SetDay()
      requires (IsValid() || Fields().Valid()) && year <= 100
      modifies this`day
      ensures day as int == (Fields().Days() + 6) % 7 + 1
    {
      ValidMeaning();
      DayLimit(Fields());
      var d := Days();
      day := WeekdayFor(d);
    }
  }

  lemma FoldedValid(t: Civil)
    requires t.Valid() && t.year <= 2136
    ensures Folded(t).Valid()
    ensures Folded(t).year <= 2099 <==> t.year != 2100
  {
    if t.year > 2100 {
      assert Leap(t.year) == Leap(t.year - 100);
    }
  }

  lemma YearOfCount(c: uint32)
    ensures var t := CivilOf(c as int);
            && t.Valid() && t.Clock() == c as int && t.year <= 2136
            && (t.year < 2100 <==> c as int < CENTURY_SECONDS)
            && (t.year < 2101 <==> c as int < CENTURY_AND_YEAR_SECONDS)
  {
    ClockOfCivil(c as int);
    CenturyLength();
    YearBoundary(c as int, 2100);
    YearBoundary(c as int, 2101);
    LastYear(c as int / 86400);
  }

  /** Which seconds counts the constructor represents faithfully, for every 32-bit count: the object
      is valid except during 2100, and it counts back to `c` up to the end of 2100; so it is valid
      and counts back exactly for the 36525 days from 2000 through 2099. */
  lemma ClockRoundTrip(c: uint32)
    ensures var f := Folded(CivilOf(c as int));
            && (f.Valid() && f.year <= 2099 <==> !(CENTURY_SECONDS <= c as int < CENTURY_AND_YEAR_SECONDS))
            && (f.Clock() == c as int <==> c as int < CENTURY_AND_YEAR_SECONDS)
            && (f.Valid() && f.year <= 2099 && f.Clock() == c as int <==> c as int < CENTURY_SECONDS)
  {
    var t := CivilOf(c as int);
    YearOfCount(c);
    FoldedValid(t);
    OrderAgrees(Folded(t), t);
  }

  /** The other direction: every valid object is what the constructor builds from its own count. */
  lemma FieldsRoundTrip(t: Civil)
    requires t.Valid() && t.year <= 2099
    ensures 0 <= t.Clock() < CENTURY_SECONDS && Folded(CivilOf(t.Clock())) == t
  {
    CivilOfClock(t);
    CenturyLength();
    YearBoundary(t.Clock(), 2100);
  }

  lemma MonthUpTo(m: int, n: int, leap: bool)
    requires 1 <= m <= n
    ensures MonthStart(m, leap) <= MonthStart(n, leap)
  {
    if m < n {
      MonthStartMonotone(m, n, leap);
    }
  }

  lemma CenturyLength()
    ensures YearStart(2100) == 36525 && YearLength(2100) == 365
  {
    YearStartClosed(2100);
  }

  lemma DayLimit(t: Civil)
    requires t.Valid() && t.year <= 2100
    ensures t.Days() < 36890
  {
    DayBounds(t);
    CenturyLength();
    if t.year < 2100 {
      YearStartMonotone(t.year, 2100);
    }
  }

  /** A 32-bit count reaches no further than 2136. */
  lemma LastYear(days: nat)
    requires days < 49711
    ensures YearOf(2000, days) <= 2136
  {
    YearIs(2000, days);
    YearStartClosed(2137);
    var r := YearOf(2000, days);
    if r > 2137 {
      YearStartMonotone(2137, r);
    }
  }
}
