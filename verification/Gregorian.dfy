/** The calendar itself, on unbounded integers: the reference that the fixed-width conversions of
    NeoTime are proved against. */
module Gregorian {

  const EPOCH_YEAR := 2000
  const SECONDS_PER_DAY := 86400

  /** Section 3.2.1 of ISO 8601:2004. */
  predicate Leap(y: int) { y % 4 == 0 && (y % 100 != 0 || y % 400 == 0) }

  function YearLength(y: int): int { if Leap(y) then 366 else 365 }

  function MonthLength(m: int, leap: bool): int {
    if m == 2 then (if leap then 29 else 28)
    else if m == 4 || m == 6 || m == 9 || m == 11 then 30
    else 31
  }

  /** Days from January 1 of the epoch year to January 1 of `y`. */
  function YearStart(y: int): (days: nat)
    decreases y
  {
    if y <= EPOCH_YEAR then 0 else YearStart(y - 1) + YearLength(y - 1)
  }

  /** Days from January 1 to the first of month `m`. */
  function MonthStart(m: int, leap: bool): (days: nat)
    decreases m
  {
    if m <= 1 then 0 else MonthStart(m - 1, leap) + MonthLength(m - 1, leap)
  }

  datatype Civil = Civil(year: int, month: int, date: int, hours: int, minutes: int, seconds: int)
  {
    ghost predicate Valid() {
      && EPOCH_YEAR <= year && 1 <= month <= 12
      && 1 <= date <= MonthLength(month, Leap(year))
      && 0 <= hours <= 23 && 0 <= minutes <= 59 && 0 <= seconds <= 59
    }

    function Days(): int { YearStart(year) + MonthStart(month, Leap(year)) + date - 1 }

    /** Seconds since the start of the epoch year. */
    function Clock(): int { Days() * SECONDS_PER_DAY + hours * 3600 + minutes * 60 + seconds }

    ghost predicate Before(t: Civil) {
      || year < t.year
      || (year == t.year && (month < t.month
      || (month == t.month && (date < t.date
      || (date == t.date && (hours < t.hours
      || (hours == t.hours && (minutes < t.minutes
      || (minutes == t.minutes && seconds < t.seconds)))))))))
    }
  }

  function YearOf(y: int, days: nat): (r: int)
    ensures y <= r
    decreases days
  {
    if days < YearLength(y) then y else YearOf(y + 1, days - YearLength(y))
  }

  function MonthOf(m: int, leap: bool, days: nat): (r: int)
    ensures m <= r
    decreases days
  {
    if days < MonthLength(m, leap) then m else MonthOf(m + 1, leap, days - MonthLength(m, leap))
  }

  /** The date and time `c` seconds after the start of the epoch year. */
  function CivilOf(c: nat): Civil {
    var days, rest := c / SECONDS_PER_DAY, c % SECONDS_PER_DAY;
    var y := YearOf(EPOCH_YEAR, days);
    YearIs(EPOCH_YEAR, days);
    var inYear := days - YearStart(y);
    var m := MonthOf(1, Leap(y), inYear);
    Civil(y, m, inYear - MonthStart(m, Leap(y)) + 1, rest / 3600, rest % 3600 / 60, rest % 60)
  }

  lemma {:induction false} YearIs(y: int, days: nat)
    requires EPOCH_YEAR <= y
    ensures var r := YearOf(y, days);
            YearStart(r) <= YearStart(y) + days < YearStart(r + 1) == YearStart(r) + YearLength(r)
    decreases days
  {
    if days >= YearLength(y) {
      YearIs(y + 1, days - YearLength(y));
    }
  }

  lemma YearTotal(leap: bool)
    ensures MonthStart(13, leap) == if leap then 366 else 365
  {
    assert MonthStart(3, leap) == 31 + MonthLength(2, leap);
    assert MonthStart(5, leap) == MonthStart(3, leap) + 61;
    assert MonthStart(7, leap) == MonthStart(5, leap) + 61;
    assert MonthStart(9, leap) == MonthStart(7, leap) + 62;
    assert MonthStart(11, leap) == MonthStart(9, leap) + 61;
    assert MonthStart(13, leap) == MonthStart(11, leap) + 61;
  }

  lemma MonthStep(m: int, leap: bool)
    requires 1 <= m
    ensures MonthStart(m + 1, leap) == MonthStart(m, leap) + MonthLength(m, leap)
  {}

  lemma {:induction false} MonthIs(m: int, leap: bool, days: nat)
    requires 1 <= m <= 13 && MonthStart(m, leap) + days < MonthStart(13, leap)
    ensures var r := MonthOf(m, leap, days);
            r <= 12 && MonthStart(r, leap) <= MonthStart(m, leap) + days < MonthStart(r + 1, leap)
                       == MonthStart(r, leap) + MonthLength(r, leap)
    decreases days
  {
    hide MonthStart;
    MonthStep(m, leap);
    var length := MonthLength(m, leap);
    if days >= length {
      MonthIs(m + 1, leap, days - length);
    }
  }

  lemma {:induction false} YearStartMonotone(y: int, z: int)
    requires EPOCH_YEAR <= y < z
    ensures YearStart(y) + YearLength(y) <= YearStart(z)
    decreases z
  {
    if y < z - 1 {
      YearStartMonotone(y, z - 1);
    }
  }

  lemma {:induction false} MonthStartMonotone(m: int, n: int, leap: bool)
    requires 1 <= m < n
    ensures MonthStart(m, leap) + MonthLength(m, leap) <= MonthStart(n, leap)
    decreases n
  {
    if m < n - 1 {
      MonthStartMonotone(m, n - 1, leap);
    }
  }

  lemma DayBounds(t: Civil)
    requires t.Valid()
    ensures YearStart(t.year) <= t.Days() < YearStart(t.year) + YearLength(t.year)
    ensures MonthStart(t.month, Leap(t.year)) + t.date <= YearLength(t.year)
  {
    MonthStartMonotone(t.month, 13, Leap(t.year));
    YearTotal(Leap(t.year));
  }

  lemma DaysMonotone(t: Civil, u: Civil)
    requires t.Valid() && u.Valid()
    requires t.year < u.year || (t.year == u.year && (t.month < u.month || (t.month == u.month && t.date < u.date)))
    ensures t.Days() < u.Days()
  {
    DayBounds(t);
    DayBounds(u);
    if t.year < u.year {
      YearStartMonotone(t.year, u.year);
    } else if t.month < u.month {
      MonthStartMonotone(t.month, u.month, Leap(t.year));
    }
  }

  lemma BeforeIsEarlier(t: Civil, u: Civil)
    requires t.Valid() && u.Valid() && t.Before(u)
    ensures t.Clock() < u.Clock()
  {
    if t.year < u.year || (t.year == u.year && (t.month < u.month || (t.month == u.month && t.date < u.date))) {
      DaysMonotone(t, u);
      assert (t.Days() + 1) * SECONDS_PER_DAY <= u.Days() * SECONDS_PER_DAY;
    }
  }

  /** Clock order is date order: comparing two seconds counts compares the dates field by field. */
  lemma OrderAgrees(t: Civil, u: Civil)
    requires t.Valid() && u.Valid()
    ensures t.Clock() < u.Clock() <==> t.Before(u)
    ensures t.Clock() == u.Clock() <==> t == u
  {
    if t.Before(u) {
      BeforeIsEarlier(t, u);
    } else if t != u {
      BeforeIsEarlier(u, t);
    }
  }

  lemma DateOf(c: nat)
    ensures var t := CivilOf(c); t.Valid() && t.Days() == c / SECONDS_PER_DAY
  {
    var days := c / SECONDS_PER_DAY;
    YearIs(EPOCH_YEAR, days);
    var y := YearOf(EPOCH_YEAR, days);
    YearTotal(Leap(y));
    DateInYear(Leap(y), days - YearStart(y));
  }

  lemma DateInYear(leap: bool, days: nat)
    requires days < MonthStart(13, leap)
    ensures var m := MonthOf(1, leap, days); m <= 12 && 0 <= days - MonthStart(m, leap) < MonthLength(m, leap)
  {
    MonthIs(1, leap, days);
  }

  /** Every second since the epoch has a valid date, and that date counts back to it. */
  lemma ClockOfCivil(c: nat)
    ensures var t := CivilOf(c); t.Valid() && t.Clock() == c
  {
    DateOf(c);
    var rest := c % SECONDS_PER_DAY;
    assert rest == rest / 3600 * 3600 + rest % 3600 / 60 * 60 + rest % 60;
  }

  lemma ClockNonNegative(t: Civil)
    requires t.Valid()
    ensures 0 <= t.Clock()
  {
    DayBounds(t);
    assert t.Days() * SECONDS_PER_DAY >= 0;
  }

  /** Every valid date is the date of its own seconds count: the two maps are inverse. */
  lemma CivilOfClock(t: Civil)
    requires t.Valid()
    ensures 0 <= t.Clock() && CivilOf(t.Clock()) == t
  {
    ClockNonNegative(t);
    ClockOfCivil(t.Clock());
    OrderAgrees(CivilOf(t.Clock()), t);
  }

  function LeapsBefore(y: int): int { (y - 1) / 4 - (y - 1) / 100 + (y - 1) / 400 }

  /** The length of the calendar up to a year, in closed form. */
  lemma {:induction false} YearStartClosed(y: int)
    requires EPOCH_YEAR <= y
    ensures YearStart(y) == 365 * (y - EPOCH_YEAR) + LeapsBefore(y) - LeapsBefore(EPOCH_YEAR)
    decreases y
  {
    if y > EPOCH_YEAR {
      YearStartClosed(y - 1);
      LeapsStep(y - 1);
    }
  }

  lemma LeapsStep(y: int)
    requires 0 < y
    ensures LeapsBefore(y + 1) == LeapsBefore(y) + (if Leap(y) then 1 else 0)
  {
    Fours(y);
    Hundreds(y);
    FourHundreds(y);
    LeapCases(y);
  }

  lemma LeapCases(y: int)
    ensures y % 400 == 0 ==> y % 100 == 0
    ensures y % 100 == 0 ==> y % 4 == 0
  {
    assert y == 100 * (4 * (y / 400)) + y % 400 && y == 4 * (25 * (y / 100)) + y % 100;
  }

  lemma Fours(y: int)
    ensures y / 4 == (y - 1) / 4 + (if y % 4 == 0 then 1 else 0)
  {}

  lemma Hundreds(y: int)
    ensures y / 100 == (y - 1) / 100 + (if y % 100 == 0 then 1 else 0)
  {}

  lemma FourHundreds(y: int)
    ensures y / 400 == (y - 1) / 400 + (if y % 400 == 0 then 1 else 0)
  {}

  /** A year number bounds the seconds count, both ways. */
  lemma YearBoundary(c: nat, y: int)
    requires EPOCH_YEAR <= y
    ensures CivilOf(c).year < y <==> c < YearStart(y) * SECONDS_PER_DAY
  {
    var t := CivilOf(c);
    DateOf(c);
    DayBounds(t);
    if t.year < y {
      YearStartMonotone(t.year, y);
    } else if y < t.year {
      YearStartMonotone(y, t.year);
    }
  }
}
