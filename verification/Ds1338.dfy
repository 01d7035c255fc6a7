/** The DS1338 real-time clock: the simulated part, the AVR driver, and what the clock shows after any
    number of ticks. */
module Ds1338 {
  import opened Widths
  import opened I2cBus
  import Gregorian

  const SECONDS := 0
  const MINUTES := 1
  const HOURS := 2
  const DAY := 3
  const DATE := 4
  const MONTH := 5
  const YEAR := 6
  const CELLS := 64
  const ADDRESS: uint8 := 0xD0
  const TICKS_PER_SECOND := 0x1_0000

  // ---- Registers ----

  /** A register holds a units digit, a tens digit under a mask, and flags above it: the masks 0, 0x10,
      0x30, 0x70 and 0xF0 leave room for `tens` values of the tens digit. */
  predicate TensField(tens: int) { tens == 1 || tens == 2 || tens == 4 || tens == 8 || tens == 16 }

  /** The tens digit: `(r & mask) >> 4`. */
  function TensDigit(r: uint8, tens: int): (d: int)
    requires TensField(tens)
    ensures 0 <= d < tens
  {
    var n := r as int;
    if tens == 1 then 0
    else if tens == 2 then n / 16 % 2
    else if tens == 4 then n / 16 % 4
    else if tens == 8 then n / 16 % 8
    else n / 16
  }

  /** What is above the digits: `r & ~(0x0F | mask)`. */
  function Flags(r: uint8, tens: int): (f: int)
    requires TensField(tens)
  {
    var n := r as int;
    if tens == 1 then n / 16 * 16
    else if tens == 2 then n / 32 * 32
    else if tens == 4 then n / 64 * 64
    else if tens == 8 then n / 128 * 128
    else 0
  }

  lemma Split2(n: int)
    requires 0 <= n < 256
    ensures n == n / 32 * 32 + 16 * (n / 16 % 2) + n % 16 && n / 32 <= 7
  {}

  lemma Split4(n: int)
    requires 0 <= n < 256
    ensures n == n / 64 * 64 + 16 * (n / 16 % 4) + n % 16 && n / 64 <= 3
  {}

  lemma Split8(n: int)
    requires 0 <= n < 256
    ensures n == n / 128 * 128 + 16 * (n / 16 % 8) + n % 16 && n / 128 <= 1
  {}

  lemma FlagsFit(r: uint8, tens: int)
    requires TensField(tens)
    ensures 0 <= Flags(r, tens) <= 256 - 16 * tens
    ensures r as int == Flags(r, tens) + 16 * TensDigit(r, tens) + r as int % 16
  {
    var n := r as int;
    if tens == 2 {
      Split2(n);
    } else if tens == 4 {
      Split4(n);
    } else if tens == 8 {
      Split8(n);
    }
  }

  function Value(r: uint8, tens: int): (v: int)
    requires TensField(tens)
    ensures 0 <= v
  {
    r as int % 16 + 10 * TensDigit(r, tens)
  }

  /** The digits of `x` put below the flags of `r`; they fit, so the source's `|=` is a sum. */
  function WithDigits(r: uint8, tens: int, x: nat): (q: uint8)
    requires TensField(tens) && x < 10 * tens
  {
    FlagsFit(r, tens);
    (Flags(r, tens) + 16 * (x / 10) + x % 10) as uint8
  }

  lemma Join2(k: int, t: int, u: int)
    requires 0 <= t < 2 && 0 <= u < 16
    ensures var q := 32 * k + 16 * t + u; q / 32 == k && q / 16 % 2 == t && q % 16 == u
  {
    var q, n := 32 * k + 16 * t + u, 2 * k + t;
    assert q == 16 * n + u && q / 16 == n && q % 16 == u;
    assert 0 <= 16 * t + u < 32;
  }

  lemma Join4(k: int, t: int, u: int)
    requires 0 <= t < 4 && 0 <= u < 16
    ensures var q := 64 * k + 16 * t + u; q / 64 == k && q / 16 % 4 == t && q % 16 == u
  {
    var q, n := 64 * k + 16 * t + u, 4 * k + t;
    assert q == 16 * n + u && q / 16 == n && q % 16 == u;
    assert 0 <= 16 * t + u < 64;
  }

  lemma Join8(k: int, t: int, u: int)
    requires 0 <= t < 8 && 0 <= u < 16
    ensures var q := 128 * k + 16 * t + u; q / 128 == k && q / 16 % 8 == t && q % 16 == u
  {
    var q, n := 128 * k + 16 * t + u, 8 * k + t;
    assert q == 16 * n + u && q / 16 == n && q % 16 == u;
    assert 0 <= 16 * t + u < 128;
  }

  lemma DigitsStay1(r: uint8, x: nat)
    requires x < 10
    ensures var q := WithDigits(r, 1, x);
            Flags(q, 1) == Flags(r, 1) && TensDigit(q, 1) == x / 10 && q as int % 16 == x % 10
  {}

  lemma DigitsStay2(r: uint8, x: nat)
    requires x < 20
    ensures var q := WithDigits(r, 2, x);
            Flags(q, 2) == Flags(r, 2) && TensDigit(q, 2) == x / 10 && q as int % 16 == x % 10
  {
    FlagsFit(r, 2);
    Join2(r as int / 32, x / 10, x % 10);
  }

  lemma DigitsStay4(r: uint8, x: nat)
    requires x < 40
    ensures var q := WithDigits(r, 4, x);
            Flags(q, 4) == Flags(r, 4) && TensDigit(q, 4) == x / 10 && q as int % 16 == x % 10
  {
    FlagsFit(r, 4);
    Join4(r as int / 64, x / 10, x % 10);
  }

  lemma DigitsStay8(r: uint8, x: nat)
    requires x < 80
    ensures var q := WithDigits(r, 8, x);
            Flags(q, 8) == Flags(r, 8) && TensDigit(q, 8) == x / 10 && q as int % 16 == x % 10
  {
    FlagsFit(r, 8);
    Join8(r as int / 128, x / 10, x % 10);
  }

  lemma DigitsStay16(r: uint8, x: nat)
    requires x < 160
    ensures var q := WithDigits(r, 16, x);
            Flags(q, 16) == Flags(r, 16) && TensDigit(q, 16) == x / 10 && q as int % 16 == x % 10
  {}

  /** A tick changes the digits and nothing else. */
  lemma DigitsStay(r: uint8, tens: int, x: nat)
    requires TensField(tens) && x < 10 * tens
    ensures var q := WithDigits(r, tens, x);
            Flags(q, tens) == Flags(r, tens) && TensDigit(q, tens) == x / 10 && q as int % 16 == x % 10
  {
    hide Flags, TensDigit, WithDigits;
    if tens == 1 {
      DigitsStay1(r, x);
    } else if tens == 2 {
      DigitsStay2(r, x);
    } else if tens == 4 {
      DigitsStay4(r, x);
    } else if tens == 8 {
      DigitsStay8(r, x);
    } else {
      DigitsStay16(r, x);
    }
  }

  function Successor(v: int, min: int, max: int): int { if v + 1 > max then min else v + 1 }

  /** `ds1338_virt_tick_bcd_reg`: the new register and the carry. */
  function TickBcd(r: uint8, min: nat, max: nat, tens: int): (res: (uint8, bool))
    requires TensField(tens) && min <= max < 10 * tens
  {
    var v := Value(r, tens);
    (WithDigits(r, tens, Successor(v, min, max)), v + 1 > max)
  }

  /** The digits read `v` and no flag is set. */
  predicate Reads(r: uint8, tens: int, v: int)
    requires TensField(tens)
  {
    Flags(r, tens) == 0 && Value(r, tens) == v
  }

  lemma TickReads(r: uint8, min: nat, max: nat, tens: int)
    requires TensField(tens) && min <= max < 10 * tens && Value(r, tens) <= max
    ensures var (q, carry) := TickBcd(r, min, max, tens);
            && Value(q, tens) == Successor(Value(r, tens), min, max) && Flags(q, tens) == Flags(r, tens)
            && (carry <==> Value(r, tens) == max)
  {
    hide Flags, TensDigit, WithDigits;
    DigitsStay(r, tens, Successor(Value(r, tens), min, max));
  }

  // ---- The calendar of the part ----

  /** `ds1338_virt_days_in_month`, with the leap flag the way round it is in the source. */
  function DaysInMonth(month: nat, year: nat): (days: nat)
    ensures 1 <= month ==> 28 <= days <= 31
    ensures days <= 32
  {
    var flag := if year % 4 == 0 && (year % 25 != 0 || year % 16 == 0) then 0 else 1;
    if month == 2 then 28 + flag else if month == 0 then 32 else 31 - (month - 1) % 7 % 2
  }

  /** The part's month lengths are the Gregorian ones except in February, which has the other length in every
      year. */
  lemma FebruaryInverted(month: nat, year: nat)
    requires 1 <= month <= 12
    ensures DaysInMonth(month, year) == if month != 2 then Gregorian.MonthLength(month, Gregorian.Leap(year))
                                        else if Gregorian.Leap(year) then 28 else 29
  {
    assert Gregorian.Leap(year) <==> year % 4 == 0 && (year % 25 != 0 || year % 16 == 0) by {
      Hundreds(year);
      FourHundreds(year);
    }
  }

  lemma Hundreds(y: nat)
    ensures y % 100 == 0 <==> y % 25 == 0 && y % 4 == 0
  {
    if y % 25 == 0 && y % 4 == 0 {
      assert y == 100 * (y / 4 - 6 * (y / 25));
    }
    if y % 100 == 0 {
      assert y == 25 * (4 * (y / 100));
    }
  }

  lemma FourHundreds(y: nat)
    ensures y % 400 == 0 <==> y % 25 == 0 && y % 16 == 0
  {
    if y % 25 == 0 && y % 16 == 0 {
      BothDivide(y / 25, y / 16);
    }
    if y % 400 == 0 {
      EachDivides(y / 400);
    }
  }

  lemma BothDivide(b: nat, a: nat)
    requires 25 * b == 16 * a
    ensures 25 * b % 400 == 0
  {
    var k := 11 * b - 7 * a;
    assert b == 16 * k;
    assert 25 * b == 400 * k;
  }

  lemma EachDivides(k: nat)
    ensures 400 * k % 25 == 0 && 400 * k % 16 == 0
  {
    assert 400 * k == 25 * (16 * k) && 400 * k == 16 * (25 * k);
  }

  // ---- One second ----

  function TickYear(m: seq<uint8>): (q: seq<uint8>)
    requires |m| == CELLS
    ensures |q| == CELLS
  {
    m[YEAR := TickBcd(m[YEAR], 0, 99, 16).0]
  }

  function TickMonth(m: seq<uint8>): (q: seq<uint8>)
    requires |m| == CELLS
    ensures |q| == CELLS
  {
    var (r, carry) := TickBcd(m[MONTH], 1, 12, 2);
    if carry then TickYear(m[MONTH := r]) else m[MONTH := r]
  }

  /** `UNPACK_BCD`: the whole upper half is the tens digit. */
  function Unpack(r: uint8): nat { Value(r, 16) }

  function MonthEnd(m: seq<uint8>): (d: nat)
    requires |m| == CELLS
    ensures 1 <= d <= 32
  {
    DaysInMonth(Unpack(m[MONTH]), 2000 + Unpack(m[YEAR]))
  }

  function TickDay(m: seq<uint8>): (q: seq<uint8>)
    requires |m| == CELLS
    ensures |q| == CELLS
  {
    var m1 := m[DAY := TickBcd(m[DAY], 1, 7, 1).0];
    var (r, carry) := TickBcd(m1[DATE], 1, MonthEnd(m1), 4);
    if carry then TickMonth(m1[DATE := r]) else m1[DATE := r]
  }

  predicate TwelveHours(r: uint8) { r as int / 64 % 2 == 1 }
  predicate Afternoon(r: uint8) { r as int / 32 % 2 == 1 }

  /** In 12-hour mode leaving the afternoon clears the whole register, mode bit included. */
  function TickHours(m: seq<uint8>): (q: seq<uint8>)
    requires |m| == CELLS
    ensures |q| == CELLS
  {
    if TwelveHours(m[HOURS]) then
      var (r, carry) := TickBcd(m[HOURS], 1, 12, 2);
      if !carry then m[HOURS := r]
      else if Afternoon(m[HOURS]) then TickDay(m[HOURS := 0])
      else m[HOURS := SetAfternoon(r)]
    else
      var (r, carry) := TickBcd(m[HOURS], 0, 23, 4);
      if carry then TickDay(m[HOURS := r]) else m[HOURS := r]
  }

  function SetAfternoon(r: uint8): uint8 { if Afternoon(r) then r else NoCarry(r); r + 32 }

  lemma NoCarry(r: uint8)
    requires !Afternoon(r)
    ensures r as int + 32 < 256
  {}

  function TickMinutes(m: seq<uint8>): (q: seq<uint8>)
    requires |m| == CELLS
    ensures |q| == CELLS
  {
    var (r, carry) := TickBcd(m[MINUTES], 0, 59, 8);
    if carry then TickHours(m[MINUTES := r]) else m[MINUTES := r]
  }

  /** `ds1338_virt_tick_time`. */
  function Tick(m: seq<uint8>): (q: seq<uint8>)
    requires |m| == CELLS
    ensures |q| == CELLS
  {
    var (r, carry) := TickBcd(m[SECONDS], 0, 59, 8);
    if carry then TickMinutes(m[SECONDS := r]) else m[SECONDS := r]
  }

  // ---- Time as the driver's user sees it ----

  datatype Time = Time(seconds: nat, minutes: nat, hours: nat, day: nat, date: nat, month: nat, year: nat)
  {
    predicate Valid() {
      && seconds < 60 && minutes < 60 && hours < 24 && day < 7
      && 1 <= month <= 12 && year < 100 && 1 <= date <= DaysInMonth(month, 2000 + year)
    }

    function OfDay(): nat { hours * 3600 + minutes * 60 + seconds }

    function AtSecond(s: nat): Time { this.(hours := s / 3600, minutes := s % 3600 / 60, seconds := s % 60) }

    /** The same time on the next day: a weekday on, and the next date of a calendar of 100 years. */
    function Tomorrow(): Time {
      var t := this.(day := (day + 1) % 7);
      if date < DaysInMonth(month, 2000 + year) then t.(date := date + 1)
      else if month < 12 then t.(date := 1, month := month + 1)
      else t.(date := 1, month := 1, year := (year + 1) % 100)
    }

    function Next(): Time {
      if OfDay() + 1 == 86400 then Tomorrow().AtSecond(0) else AtSecond(OfDay() + 1)
    }
  }

  /** The registers show `t`, in 24-hour mode, with the oscillator on. */
  predicate Shows(m: seq<uint8>, t: Time) {
    && |m| == CELLS
    && Reads(m[SECONDS], 8, t.seconds) && Reads(m[MINUTES], 8, t.minutes)
    && !TwelveHours(m[HOURS]) && Value(m[HOURS], 4) == t.hours
    && Reads(m[DAY], 1, t.day + 1) && Reads(m[DATE], 4, t.date)
    && Reads(m[MONTH], 2, t.month) && Reads(m[YEAR], 16, t.year)
  }

  lemma ReadsWhole(r: uint8, tens: int, v: int)
    requires TensField(tens) && Reads(r, tens, v)
    ensures Unpack(r) == v
  {
    var n := r as int;
    if tens == 1 {
      assert n < 16;
    } else if tens == 2 {
      assert n < 32;
    } else if tens == 4 {
      assert n < 64;
    } else if tens == 8 {
      assert n < 128;
    }
  }

  lemma DayTicks(m: seq<uint8>, t: Time)
    requires Shows(m, t) && t.Valid()
    ensures Shows(TickDay(m), t.Tomorrow()) && TickDay(m)[7..] == m[7..]
  {
    hide Flags, Value, TickBcd, DaysInMonth, TwelveHours;
    ReadsWhole(m[MONTH], 2, t.month);
    ReadsWhole(m[YEAR], 16, t.year);
    TickReads(m[DAY], 1, 7, 1);
    TickReads(m[DATE], 1, MonthEnd(m), 4);
    TickReads(m[MONTH], 1, 12, 2);
    TickReads(m[YEAR], 0, 99, 16);
  }

  lemma ModeStays(q: uint8, r: uint8)
    requires Flags(q, 4) == Flags(r, 4)
    ensures TwelveHours(q) == TwelveHours(r)
  {
    assert q as int / 64 == Flags(q, 4) / 64 && r as int / 64 == Flags(r, 4) / 64;
  }

  function NextHour(t: Time): Time {
    if t.hours < 23 then t.(hours := t.hours + 1) else t.Tomorrow().(hours := 0)
  }

  lemma HoursTick(m: seq<uint8>, t: Time)
    requires Shows(m, t) && t.Valid()
    ensures Shows(TickHours(m), NextHour(t)) && TickHours(m)[7..] == m[7..]
  {
    hide TickDay, Flags, Value, TickBcd, TwelveHours;
    TickReads(m[HOURS], 0, 23, 4);
    var r := TickBcd(m[HOURS], 0, 23, 4).0;
    ModeStays(r, m[HOURS]);
    var u := m[HOURS := r];
    if t.hours == 23 {
      assert Shows(u, t.(hours := 0));
      DayTicks(u, t.(hours := 0));
      assert TickHours(m) == TickDay(u);
    } else {
      assert TickHours(m) == u;
    }
  }

  function NextMinute(t: Time): Time {
    if t.minutes < 59 then t.(minutes := t.minutes + 1) else NextHour(t.(minutes := 0))
  }

  lemma MinutesTick(m: seq<uint8>, t: Time)
    requires Shows(m, t) && t.Valid()
    ensures Shows(TickMinutes(m), NextMinute(t)) && TickMinutes(m)[7..] == m[7..]
  {
    hide TickHours, Flags, Value, TickBcd, TwelveHours;
    TickReads(m[MINUTES], 0, 59, 8);
    var u := m[MINUTES := TickBcd(m[MINUTES], 0, 59, 8).0];
    if t.minutes == 59 {
      HoursTick(u, t.(minutes := 0));
    }
  }

  function NextSecond(t: Time): Time {
    if t.seconds < 59 then t.(seconds := t.seconds + 1) else NextMinute(t.(seconds := 0))
  }

  lemma AtSecondOf(t: Time, h: nat, m: nat, s: nat)
    requires m < 60 && s < 60
    ensures t.AtSecond(h * 3600 + m * 60 + s) == t.(hours := h, minutes := m, seconds := s)
  {
    HourSplit(h, m * 60 + s);
    MinuteSplit(m, s);
    MinuteSplit(h * 60 + m, s);
    assert (h * 60 + m) * 60 + s == h * 3600 + m * 60 + s;
  }

  lemma HourSplit(h: nat, rest: nat)
    requires rest < 3600
    ensures (h * 3600 + rest) / 3600 == h && (h * 3600 + rest) % 3600 == rest
  {}

  lemma MinuteSplit(m: nat, s: nat)
    requires s < 60
    ensures (m * 60 + s) / 60 == m && (m * 60 + s) % 60 == s
  {}

  lemma CascadeIsNext(t: Time)
    requires t.Valid()
    ensures NextSecond(t) == t.Next()
  {
    var h, m := t.hours, t.minutes;
    if t.seconds < 59 {
      AtSecondOf(t, h, m, t.seconds + 1);
    } else if m < 59 {
      AtSecondOf(t, h, m + 1, 0);
    } else if h < 23 {
      AtSecondOf(t, h + 1, 0, 0);
    }
  }

  /** One tick of the registers is one second of the time they show; control and memory are untouched. */
  lemma TickIsNext(m: seq<uint8>, t: Time)
    requires Shows(m, t) && t.Valid()
    ensures Shows(Tick(m), t.Next()) && Tick(m)[7..] == m[7..] && t.Next().Valid()
  {
    hide TickMinutes, Flags, Value, TickBcd, TwelveHours;
    CascadeIsNext(t);
    TickReads(m[SECONDS], 0, 59, 8);
    var u := m[SECONDS := TickBcd(m[SECONDS], 0, 59, 8).0];
    if t.seconds == 59 {
      MinutesTick(u, t.(seconds := 0));
    }
    NextValid(t);
  }

  lemma NextValid(t: Time)
    requires t.Valid()
    ensures t.Next().Valid()
  {}

  /** The last second of a day of February: March follows the 28th of a leap year and the 29th of any other. */
  lemma EndOfFebruary(m: seq<uint8>, t: Time)
    requires Shows(m, t) && t.Valid() && t.month == 2 && t.OfDay() == 86399
    ensures var u := t.(seconds := 0, minutes := 0, hours := 0, day := (t.day + 1) % 7);
            var last := if Gregorian.Leap(2000 + t.year) then 28 else 29;
            Shows(Tick(m), if t.date == last then u.(date := 1, month := 3) else u.(date := t.date + 1))
  {
    hide Shows, Tick, DaysInMonth;
    FebruaryInverted(2, 2000 + t.year);
    TickIsNext(m, t);
  }

  // ---- The calendar of the part and the Gregorian one ----

  function AsCivil(t: Time): Gregorian.Civil {
    Gregorian.Civil(2000 + t.year, t.month, t.date, t.hours, t.minutes, t.seconds)
  }

  /** Midnight after a Gregorian date. */
  function Midnight(c: Gregorian.Civil): Gregorian.Civil {
    var d := c.(hours := 0, minutes := 0, seconds := 0);
    if c.date < Gregorian.MonthLength(c.month, Gregorian.Leap(c.year)) then d.(date := c.date + 1)
    else if c.month < 12 then d.(date := 1, month := c.month + 1)
    else d.(date := 1, month := 1, year := c.year + 1)
  }

  lemma MidnightCounts(c: Gregorian.Civil)
    requires c.Valid()
    ensures Midnight(c).Valid() && Midnight(c).Days() == c.Days() + 1
  {
    Gregorian.MonthStep(c.month, Gregorian.Leap(c.year));
    Gregorian.YearTotal(Gregorian.Leap(c.year));
  }

  /** The second after a Gregorian one, from the reference calendar. */
  lemma CivilNext(c: Gregorian.Civil)
    requires c.Valid()
    ensures var s := c.hours * 3600 + c.minutes * 60 + c.seconds;
            && 0 <= c.Clock()
            && Gregorian.CivilOf(c.Clock() + 1) ==
               (if s == 86399 then Midnight(c)
                else c.(hours := (s + 1) / 3600, minutes := (s + 1) % 3600 / 60, seconds := (s + 1) % 60))
  {
    hide Midnight;
    Gregorian.ClockNonNegative(c);
    var s := c.hours * 3600 + c.minutes * 60 + c.seconds;
    if s == 86399 {
      MidnightCounts(c);
      MidnightOfDay(c);
      Gregorian.CivilOfClock(Midnight(c));
    } else {
      SameDay(s + 1);
      Gregorian.CivilOfClock(c.(hours := (s + 1) / 3600, minutes := (s + 1) % 3600 / 60, seconds := (s + 1) % 60));
    }
  }

  lemma MidnightOfDay(c: Gregorian.Civil)
    ensures var m := Midnight(c); m.hours == m.minutes == m.seconds == 0
  {}

  lemma SameDay(s: nat)
    requires s < 86400
    ensures s / 3600 <= 23 && s % 3600 / 60 <= 59 && s / 3600 * 3600 + s % 3600 / 60 * 60 + s % 60 == s
  {
    assert s == 60 * (60 * (s / 3600) + s % 3600 / 60) + s % 3600 % 60;
  }

  lemma TomorrowGregorian(t: Time)
    requires t.Valid() && AsCivil(t).Valid()
    ensures AsCivil(t.Tomorrow().AtSecond(0)) == Midnight(AsCivil(t)) <==>
            !((t.month == 2 && t.date == 28) || (t.year == 99 && t.month == 12 && t.date == 31))
  {
    hide DaysInMonth;
    FebruaryInverted(t.month, 2000 + t.year);
    if t.month == 12 {
      assert Gregorian.MonthLength(12, Gregorian.Leap(2000 + t.year)) == 31;
    }
  }

  /** From a Gregorian date the part can show, its next second is the Gregorian one if and only if it is not
      the end of a February 28, nor of the century. */
  lemma TickGregorianExactly(t: Time)
    requires t.Valid() && AsCivil(t).Valid()
    ensures AsCivil(t).Clock() >= 0
    ensures AsCivil(t.Next()) == Gregorian.CivilOf(AsCivil(t).Clock() + 1) <==>
            t.OfDay() < 86399 || !((t.month == 2 && t.date == 28) || (t.year == 99 && t.month == 12 && t.date == 31))
  {
    hide DaysInMonth, Gregorian.CivilOf, Midnight;
    CivilNext(AsCivil(t));
    if t.OfDay() == 86399 {
      TomorrowGregorian(t);
    } else {
      assert AsCivil(t.Next()) == AsCivil(t.AtSecond(t.OfDay() + 1));
    }
  }

  // ---- Any number of seconds ----

  function Ticks(m: seq<uint8>, n: nat): (q: seq<uint8>)
    requires |m| == CELLS
    ensures |q| == CELLS
  {
    if n == 0 then m else Tick(Ticks(m, n - 1))
  }

  function After(t: Time, n: nat): Time { if n == 0 then t else After(t, n - 1).Next() }

  function DaysLater(t: Time, d: nat): Time { if d == 0 then t else DaysLater(t, d - 1).Tomorrow() }

  lemma {:induction false} TicksShow(m: seq<uint8>, t: Time, n: nat)
    requires Shows(m, t) && t.Valid()
    ensures Shows(Ticks(m, n), After(t, n)) && After(t, n).Valid() && Ticks(m, n)[7..] == m[7..]
  {
    hide Tick, Reads, Value, TwelveHours;
    if n > 0 {
      TicksShow(m, t, n - 1);
      TickIsNext(Ticks(m, n - 1), After(t, n - 1));
    }
  }

  lemma AtSecondIs(t: Time, s: nat)
    requires s < 86400
    ensures t.AtSecond(s).OfDay() == s && t.AtSecond(s).minutes < 60 && t.AtSecond(s).seconds < 60
  {}

  lemma NextAt(t: Time, s: nat)
    requires s < 86400
    ensures t.AtSecond(s).Next() == if s == 86399 then t.Tomorrow().AtSecond(0) else t.AtSecond(s + 1)
  {
    AtSecondIs(t, s);
  }

  lemma OfDayBack(t: Time)
    requires t.Valid()
    ensures t.OfDay() < 86400 && t.AtSecond(t.OfDay()) == t
  {
    AtSecondOf(t, t.hours, t.minutes, t.seconds);
  }

  lemma DayStep(s: nat)
    requires s > 0
    ensures if (s - 1) % 86400 == 86399 then s % 86400 == 0 && s / 86400 == (s - 1) / 86400 + 1
            else s % 86400 == (s - 1) % 86400 + 1 && s / 86400 == (s - 1) / 86400
  {}

  lemma OneDayLater(t: Time, d: nat)
    ensures DaysLater(t, d + 1) == DaysLater(t, d).Tomorrow()
  {}

  lemma AfterStep(t: Time, n: nat, d: Time, s: nat)
    requires n > 0 && s < 86400 && After(t, n - 1) == d.AtSecond(s)
    ensures After(t, n) == if s == 86399 then d.Tomorrow().AtSecond(0) else d.AtSecond(s + 1)
  {
    NextAt(d, s);
  }

  lemma SmallOfDay(s: nat)
    requires s < 86400
    ensures s / 86400 == 0 && s % 86400 == s
  {}

  /** After `n` seconds the time of day is what modular arithmetic says, on the day that many midnights later. */
  lemma {:induction false} AfterClosed(t: Time, n: nat)
    requires t.Valid()
    ensures var s := t.OfDay() + n; After(t, n) == DaysLater(t, s / 86400).AtSecond(s % 86400)
  {
    var s := t.OfDay() + n;
    OfDayBack(t);
    if n == 0 {
      SmallOfDay(s);
    } else {
      hide After, DaysLater;
      AfterClosed(t, n - 1);
      var d, r := (s - 1) / 86400, (s - 1) % 86400;
      assert t.OfDay() + (n - 1) == s - 1;
      DayStep(s);
      AfterStep(t, n, DaysLater(t, d), r);
      OneDayLater(t, d);
    }
  }

  // ---- The part on its bus ----

  datatype Part = Part(nvram: seq<uint8>, regAddr: uint8, selected: uint8, regSelected: bool, rtc: uint16)
  {
    predicate Valid() { |nvram| == CELLS }
    /** Between two transactions. */
    predicate Released() { Valid() && !regSelected }
  }

  /** Cells 64 and up are outside the array; the model reads them as zero and drops what is written there. */
  function Cell(m: seq<uint8>, i: uint8): uint8 { if i as int < |m| then m[i] else 0 }

  function Stored(m: seq<uint8>, i: uint8, data: uint8): (q: seq<uint8>)
    ensures |q| == |m|
  {
    if i as int < |m| then m[i := data] else m
  }

  /** `ds1338_virt_incr_addr`. */
  function NextCell(i: uint8): uint8 { if i < 64 then i + 1 else 0 }

  /** `ds1338_virt_in_hook`. */
  function Hook(p: Part, m: Message): (r: (Part, Reply))
    requires p.Valid()
    ensures r.0.Valid()
  {
    match m
    case Stop => (p.(selected := 0, regSelected := false), Nothing)
    case Start(addr) => if addr / 2 == ADDRESS / 2 then (p.(selected := addr), Ack) else (p.(selected := 0), Nothing)
    case Write(data) =>
      if p.selected == 0 then (p, Nothing)
      else if p.regSelected then (p.(nvram := Stored(p.nvram, p.regAddr, data), regAddr := NextCell(p.regAddr)), Ack)
      else (p.(regSelected := true, regAddr := data), Ack)
    case Read =>
      if p.selected == 0 then (p, Nothing)
      else (p.(regAddr := NextCell(p.regAddr)), Data(Cell(p.nvram, p.regAddr)))
  }

  /** A read transaction of any length: what each byte is, and where the register address ends. */
  function Burst(p: Part, n: nat): (r: (Part, seq<Reply>))
    requires p.Valid()
    ensures r.0.Valid() && |r.1| == n
  {
    if n == 0 then (p, [])
    else
      var (q, replies) := Burst(p, n - 1);
      var (u, reply) := Hook(q, Read);
      (u, replies + [reply])
  }

  /** The address goes round after 65 registers, one more than the part has. */
  lemma {:induction false} BurstReads(p: Part, n: nat)
    requires p.Valid() && p.selected != 0 && p.regAddr <= 64
    ensures var (q, replies) := Burst(p, n);
            && q == p.(regAddr := q.regAddr) && q.regAddr as int == (p.regAddr as int + n) % 65
            && forall k | 0 <= k < n ::
                 replies[k] == var i := (p.regAddr as int + k) % 65; Data(if i < 64 then p.nvram[i] else 0)
  {
    if n > 0 {
      BurstReads(p, n - 1);
      RoundStep(p.regAddr as int + n - 1);
    }
  }

  lemma RoundStep(a: nat)
    ensures (a + 1) % 65 == if a % 65 == 64 then 0 else a % 65 + 1
  {}

  predicate Halted(m: seq<uint8>)
    requires |m| == CELLS
  {
    m[SECONDS] >= 128
  }

  /** `ds1338_virt_clock_tick`: half a crystal period. */
  function HalfPeriod(p: Part): (q: Part)
    requires p.Valid()
    ensures q.Valid()
  {
    if Halted(p.nvram) then p
    else if p.rtc as int + 1 == TICKS_PER_SECOND then p.(rtc := 0, nvram := Tick(p.nvram))
    else p.(rtc := p.rtc + 1)
  }

  function HalfPeriods(p: Part, k: nat): (q: Part)
    requires p.Valid()
    ensures q.Valid()
  {
    if k == 0 then p else HalfPeriod(HalfPeriods(p, k - 1))
  }

  /** Half a period changes something exactly while the top bit of the seconds register is clear. */
  lemma HaltedExactly(p: Part)
    requires p.Valid()
    ensures HalfPeriod(p) == p <==> p.nvram[0] >= 0x80
  {
    hide Tick;
  }

  lemma {:induction false} HaltedStays(p: Part, k: nat)
    requires p.Valid() && p.nvram[0] >= 0x80
    ensures HalfPeriods(p, k) == p
  {
    if k > 0 {
      HaltedStays(p, k - 1);
    }
  }

  lemma ShownRuns(m: seq<uint8>, t: Time)
    requires Shows(m, t)
    ensures !Halted(m)
  {}

  lemma SecondStep(r: nat)
    requires r > 0
    ensures if (r - 1) % TICKS_PER_SECOND == TICKS_PER_SECOND - 1
            then r % TICKS_PER_SECOND == 0 && r / TICKS_PER_SECOND == (r - 1) / TICKS_PER_SECOND + 1
            else r % TICKS_PER_SECOND == (r - 1) % TICKS_PER_SECOND + 1
                 && r / TICKS_PER_SECOND == (r - 1) / TICKS_PER_SECOND
  {}

  lemma SmallCount(r: nat)
    requires r < TICKS_PER_SECOND
    ensures r / TICKS_PER_SECOND == 0 && r % TICKS_PER_SECOND == r
  {}

  /** The counter divides the crystal exactly: no half period is lost or counted twice. */
  lemma {:induction false} CrystalDivides(p: Part, t: Time, k: nat)
    requires p.Valid() && Shows(p.nvram, t) && t.Valid()
    ensures var r := p.rtc as int + k;
            HalfPeriods(p, k) ==
            p.(nvram := Ticks(p.nvram, r / TICKS_PER_SECOND), rtc := (r % TICKS_PER_SECOND) as uint16)
  {
    hide Shows, Tick;
    var r := p.rtc as int + k;
    if k == 0 {
      SmallCount(r);
    } else {
      CrystalDivides(p, t, k - 1);
      SecondStep(r);
      var n := (r - 1) / TICKS_PER_SECOND;
      TicksShow(p.nvram, t, n);
      ShownRuns(Ticks(p.nvram, n), After(t, n));
    }
  }

  // ---- The driver ----

  /** `ds1338_write`. */
  function WriteRegister(p: Part, reg: uint8, data: uint8): (q: Part)
    requires p.Valid()
    ensures q.Valid()
  {
    Hook(Hook(Hook(Hook(p, Start(ADDRESS)).0, Write(reg)).0, Write(data)).0, Stop).0
  }

  /** `ds1338_read`, for a part that answers. */
  function ReadRegister(p: Part, reg: uint8): (r: (Part, uint8))
    requires p.Valid()
    ensures r.0.Valid()
  {
    var addressed := Hook(Hook(Hook(p, Start(ADDRESS)).0, Write(reg)).0, Start(ADDRESS + 1)).0;
    var (q, reply) := Hook(addressed, Read);
    (Hook(q, Stop).0, if reply.Data? then reply.data else 0xFF)
  }

  lemma WriteRegisterStores(p: Part, reg: uint8, data: uint8)
    requires p.Released() && reg < 64
    ensures WriteRegister(p, reg, data) == p.(nvram := p.nvram[reg := data], regAddr := reg + 1, selected := 0)
  {}

  lemma ReadRegisterFetches(p: Part, reg: uint8)
    requires p.Released() && reg < 64
    ensures ReadRegister(p, reg) == (p.(regAddr := reg + 1, selected := 0), p.nvram[reg])
  {}

  /** `ds1338_time_t`. */
  datatype Fields = Fields(seconds: uint8, minutes: uint8, hours: uint8, isPm: uint8,
                           day: uint8, date: uint8, month: uint8, year: uint8)

  /** `TO_BCD`, truncated to a byte. */
  function ToBcd(x: uint8): uint8 { ((x as int / 10 * 16 + x as int % 10) % 256) as uint8 }

  function Or2(x: int, y: int): (z: int)
    requires 0 <= x < 4 && 0 <= y < 4
    ensures 0 <= z < 4
  {
    (if x / 2 == 1 || y / 2 == 1 then 2 else 0) + (if x % 2 == 1 || y % 2 == 1 then 1 else 0)
  }

  /** The hours register: the mode bits of the old one, the PM bit in 12-hour mode, the BCD hours, or'ed. */
  function HourCode(mode: uint8, isPm: uint8, hours: uint8): uint8 {
    var b := ToBcd(hours) as int;
    var low := if TwelveHours(mode) && isPm != 0 && b / 32 % 2 == 0 then b % 64 + 32 else b % 64;
    LowBits(b);
    (64 * Or2(mode as int / 64, b / 64) + low) as uint8
  }

  lemma LowBits(b: int)
    requires 0 <= b < 256
    ensures b / 32 % 2 == 0 ==> b % 64 < 32
  {}

  function SetRegisters(m: seq<uint8>, f: Fields): (q: seq<uint8>)
    requires |m| == CELLS
    ensures |q| == CELLS
  {
    m[SECONDS := ToBcd(f.seconds)][MINUTES := ToBcd(f.minutes)][HOURS := HourCode(m[HOURS], f.isPm, f.hours)]
    [DAY := ((f.day as int + 1) % 256) as uint8][DATE := ToBcd(f.date)][MONTH := ToBcd(f.month)][YEAR := ToBcd(f.year)]
  }

  lemma ValueFits(r: uint8, tens: int)
    requires TensField(tens)
    ensures 0 <= Value(r, tens) < 256
  {
    hide Flags, TensDigit;
  }

  function ByteValue(r: uint8, tens: int): uint8
    requires TensField(tens)
  {
    ValueFits(r, tens);
    Value(r, tens) as uint8
  }

  /** What `ds1338_get_time` makes of the registers; in 24-hour mode it leaves `isPm` alone. */
  function Decoded(m: seq<uint8>, isPm: uint8): Fields
    requires |m| == CELLS
  {
    Fields(ByteValue(m[SECONDS], 8), ByteValue(m[MINUTES], 16),
           if TwelveHours(m[HOURS]) then ByteValue(m[HOURS], 2) else ByteValue(m[HOURS], 4),
           if !TwelveHours(m[HOURS]) then isPm else if Afternoon(m[HOURS]) then 32 else 0,
           ((m[DAY] as int - 1) % 256) as uint8,
           ByteValue(m[DATE], 16), ByteValue(m[MONTH], 16), ByteValue(m[YEAR], 16))
  }

  /** The part as an object. */
  class Ds1338Virt {
    const nvram: array<uint8>
    var regAddr: uint8
    var selected: uint8
    var regSelected: bool
    var rtc: uint16

    function State(): Part
      reads this, nvram
    {
      Part(nvram[..], regAddr, selected, regSelected, rtc)
    }

    /** `ds1338_virt_init`: weekday 1, oscillator off. */
    constructor ()
      ensures fresh(nvram) && State().Released() && Halted(State().nvram)
      ensures nvram[..] == seq(CELLS, _ => 0)[SECONDS := 128][DAY := 1] && rtc == 0
    {
      nvram := new uint8[CELLS](_ => 0);
      regAddr, selected, regSelected, rtc := 0, 0, false, 0;
      new;
      nvram[SECONDS], nvram[DAY] := 128, 1;
    }

    method IncrAddr()
      modifies this`regAddr
      ensures regAddr == NextCell(old(regAddr))
    {
      if regAddr < 64 {
        regAddr := regAddr + 1;
      } else {
        regAddr := 0;
      }
    }

    method InHook(m: Message) returns (reply: Reply)
      requires State().Valid()
      modifies this, nvram
      ensures State() == Hook(old(State()), m).0 && reply == Hook(old(State()), m).1
    {
      reply := Nothing;
      match m {
        case Stop =>
          selected, regSelected := 0, false;
        case Start(addr) =>
          selected := 0;
          if addr / 2 == ADDRESS / 2 {
            selected, reply := addr, Ack;
          }
        case Write(data) =>
          if selected != 0 {
            reply := Ack;
            if regSelected {
              if regAddr < 64 {
                nvram[regAddr] := data;
              }
              IncrAddr();
            } else {
              regSelected, regAddr := true, data;
            }
          }
        case Read =>
          if selected != 0 {
            reply := Data(Cell(nvram[..], regAddr));
            IncrAddr();
          }
      }
    }

    method TickRegister(i: nat, min: nat, max: nat, tens: int) returns (cascade: bool)
      requires nvram.Length == CELLS && i < CELLS && TensField(tens) && min <= max < 10 * tens
      modifies nvram
      ensures var (r, carry) := TickBcd(old(nvram[i]), min, max, tens);
              nvram[..] == old(nvram[..])[i := r] && cascade == carry
    {
      hide Flags, Value, WithDigits;
      var x := Value(nvram[i], tens);
      cascade := false;
      x := x + 1;
      if x > max {
        x := min;
        cascade := true;
      }
      nvram[i] := WithDigits(nvram[i], tens, x);
    }

    method TickTime()
      requires nvram.Length == CELLS
      modifies nvram
      ensures nvram[..] == Tick(old(nvram[..]))
    {
      hide TickBcd, TickHours;
      var cascade := TickRegister(SECONDS, 0, 59, 8);
      if !cascade {
        return;
      }
      cascade := TickRegister(MINUTES, 0, 59, 8);
      if !cascade {
        return;
      }
      cascade := TickHour();
      if !cascade {
        return;
      }
      TickDate();
    }

    /** The hours register in either mode; the carry says whether a new day begins. */
    method TickHour() returns (cascade: bool)
      requires nvram.Length == CELLS
      modifies nvram
      ensures TickHours(old(nvram[..])) == if cascade then TickDay(nvram[..]) else nvram[..]
    {
      hide TickBcd, TickDay;
      ghost var m := nvram[..];
      if TwelveHours(nvram[HOURS]) {
        var pm := Afternoon(nvram[HOURS]);
        cascade := TickRegister(HOURS, 1, 12, 2);
        if cascade {
          if pm {
            nvram[HOURS] := 0;
            assert nvram[..] == m[HOURS := 0];
          } else {
            nvram[HOURS] := SetAfternoon(nvram[HOURS]);
            assert nvram[..] == m[HOURS := SetAfternoon(TickBcd(m[HOURS], 1, 12, 2).0)];
            cascade := false;
          }
        }
      } else {
        cascade := TickRegister(HOURS, 0, 23, 4);
      }
    }

    method TickDate()
      requires nvram.Length == CELLS
      modifies nvram
      ensures nvram[..] == TickDay(old(nvram[..]))
    {
      hide TickBcd, TickMonth;
      ghost var m := nvram[..];
      var cascade := TickRegister(DAY, 1, 7, 1);
      ghost var m1 := nvram[..];
      assert m1 == m[DAY := TickBcd(m[DAY], 1, 7, 1).0];
      var last := MonthEnd(nvram[..]);
      cascade := TickRegister(DATE, 1, last, 4);
      assert nvram[..] == m1[DATE := TickBcd(m1[DATE], 1, last, 4).0];
      if !cascade {
        return;
      }
      TickMonths();
    }

    method TickMonths()
      requires nvram.Length == CELLS
      modifies nvram
      ensures nvram[..] == TickMonth(old(nvram[..]))
    {
      hide TickBcd;
      var cascade := TickRegister(MONTH, 1, 12, 2);
      if !cascade {
        return;
      }
      cascade := TickRegister(YEAR, 0, 99, 16);
    }

    method ClockTick()
      requires State().Valid()
      modifies this`rtc, nvram
      ensures State() == HalfPeriod(old(State()))
    {
      if Halted(nvram[..]) {
        return;
      }
      rtc := if rtc == 0xFFFF then 0 else rtc + 1;
      if rtc == 0 {
        TickTime();
      }
    }
  }

  method Store(part: Ds1338Virt, reg: uint8, data: uint8)
    requires part.State().Valid()
    modifies part, part.nvram
    ensures part.State() == WriteRegister(old(part.State()), reg, data)
  {
    hide Hook;
    var reply := part.InHook(Start(ADDRESS));
    reply := part.InHook(Write(reg));
    reply := part.InHook(Write(data));
    reply := part.InHook(Stop);
  }

  method Fetch(part: Ds1338Virt, reg: uint8) returns (data: uint8)
    requires part.State().Valid()
    modifies part, part.nvram
    ensures (part.State(), data) == ReadRegister(old(part.State()), reg)
  {
    hide Hook;
    var reply := part.InHook(Start(ADDRESS));
    reply := part.InHook(Write(reg));
    reply := part.InHook(Start(ADDRESS + 1));
    reply := part.InHook(Read);
    data := if reply.Data? then reply.data else 0xFF;
    reply := part.InHook(Stop);
  }

  method SetTime(part: Ds1338Virt, f: Fields)
    requires part.State().Released()
    modifies part, part.nvram
    ensures part.State().Released() && part.rtc == old(part.rtc)
    ensures part.State().nvram == SetRegisters(old(part.State().nvram), f)
  {
    hide WriteRegister, ReadRegister, HourCode, ToBcd;
    StoreNamed(part, 0, ToBcd(f.seconds));
    StoreNamed(part, 1, ToBcd(f.minutes));
    var hours := FetchNamed(part, 2);
    StoreNamed(part, 2, HourCode(hours, f.isPm, f.hours));
    StoreNamed(part, 3, ((f.day as int + 1) % 256) as uint8);
    StoreNamed(part, 4, ToBcd(f.date));
    StoreNamed(part, 5, ToBcd(f.month));
    StoreNamed(part, 6, ToBcd(f.year));
  }

  method StoreNamed(part: Ds1338Virt, reg: uint8, data: uint8)
    requires part.State().Released() && reg < 64
    modifies part, part.nvram
    ensures part.State().Released() && part.rtc == old(part.rtc)
    ensures part.State().nvram == old(part.State().nvram)[reg := data]
  {
    hide WriteRegister;
    WriteRegisterStores(part.State(), reg, data);
    Store(part, reg, data);
  }

  method FetchNamed(part: Ds1338Virt, reg: uint8) returns (data: uint8)
    requires part.State().Released() && reg < 64
    modifies part, part.nvram
    ensures part.State().Released() && part.rtc == old(part.rtc)
    ensures part.State().nvram == old(part.State().nvram) && data == part.State().nvram[reg]
  {
    hide ReadRegister;
    ReadRegisterFetches(part.State(), reg);
    data := Fetch(part, reg);
  }

  method RunClock(part: Ds1338Virt, halfPeriods: nat)
    requires part.State().Valid()
    modifies part, part.nvram
    ensures part.State() == HalfPeriods(old(part.State()), halfPeriods)
  {
    hide HalfPeriod;
    ghost var p := part.State();
    for k := 0 to halfPeriods
      invariant part.State() == HalfPeriods(p, k)
    {
      part.ClockTick();
    }
  }

  /** The crystal moves the time and its own counter, and sees nothing else. */
  lemma {:induction false} CrystalOnly(p: Part, q: Part, k: nat)
    requires p.Valid() && q.nvram == p.nvram && q.rtc == p.rtc
    ensures var r := HalfPeriods(p, k); HalfPeriods(q, k) == q.(nvram := r.nvram, rtc := r.rtc)
  {
    hide Tick;
    if k > 0 {
      CrystalOnly(p, q, k - 1);
    }
  }

  /** The registers of which the first `k` are those of `m` and the others those of `q`. */
  function Mixed(k: nat, m: seq<uint8>, q: seq<uint8>): (r: seq<uint8>)
    requires |m| == |q| == CELLS
    ensures |r| == CELLS && forall i | 0 <= i < CELLS :: r[i] == if i < k then m[i] else q[i]
  {
    seq(CELLS, i requires 0 <= i < CELLS => if i < k then m[i] else q[i])
  }

  /** The part as register `reg` comes up, when some half periods pass before read `k`. */
  function Meanwhile(p: Part, reg: nat, k: nat, halfPeriods: nat): (q: Part)
    requires p.Valid()
    ensures q.Valid()
  {
    if reg <= k then p else HalfPeriods(p, halfPeriods)
  }

  ghost predicate SameTime(p: Part, q: Part) { p.Released() && p.nvram == q.nvram && p.rtc == q.rtc }

  method FetchAcross(part: Ds1338Virt, reg: uint8, k: nat, halfPeriods: nat, ghost p: Part) returns (data: uint8)
    requires p.Valid() && reg < 7 && SameTime(part.State(), Meanwhile(p, reg as int, k, halfPeriods))
    modifies part, part.nvram
    ensures SameTime(part.State(), Meanwhile(p, reg as int + 1, k, halfPeriods))
    ensures data == Mixed(k, p.nvram, HalfPeriods(p, halfPeriods).nvram)[reg]
  {
    hide HalfPeriods;
    if reg as int == k {
      CrystalOnly(p, part.State(), halfPeriods);
      RunClock(part, halfPeriods);
    }
    data := FetchNamed(part, reg);
  }

  /** `ds1338_get_time`, with the crystal going on for some half periods before its read number `k`, counted
      from 0; from 7 on there is no such read. */
  method GetTimeAcross(part: Ds1338Virt, isPm: uint8, k: nat, halfPeriods: nat) returns (f: Fields)
    requires part.State().Released()
    modifies part, part.nvram
    ensures SameTime(part.State(), Meanwhile(old(part.State()), 7, k, halfPeriods))
    ensures f == Decoded(Mixed(k, old(part.State().nvram), HalfPeriods(old(part.State()), halfPeriods).nvram), isPm)
  {
    hide ByteValue, HalfPeriods, Meanwhile, TwelveHours, Afternoon;
    ghost var p := part.State();
    AtTheStart(p, k, halfPeriods);
    var data := FetchAcross(part, 0, k, halfPeriods, p);
    f := Fields(ByteValue(data, 8), 0, 0, isPm, 0, 0, 0, 0);
    data := FetchAcross(part, 1, k, halfPeriods, p);
    f := f.(minutes := ByteValue(data, 16));
    data := FetchAcross(part, 2, k, halfPeriods, p);
    if TwelveHours(data) {
      f := f.(hours := ByteValue(data, 2), isPm := if Afternoon(data) then 32 else 0);
    } else {
      f := f.(hours := ByteValue(data, 4));
    }
    data := FetchAcross(part, 3, k, halfPeriods, p);
    f := f.(day := ((data as int - 1) % 256) as uint8);
    data := FetchAcross(part, 4, k, halfPeriods, p);
    f := f.(date := ByteValue(data, 16));
    data := FetchAcross(part, 5, k, halfPeriods, p);
    f := f.(month := ByteValue(data, 16));
    data := FetchAcross(part, 6, k, halfPeriods, p);
    f := f.(year := ByteValue(data, 16));
  }

  lemma AtTheStart(p: Part, k: nat, halfPeriods: nat)
    requires p.Released()
    ensures SameTime(p, Meanwhile(p, 0, k, halfPeriods))
  {}

  /** With no time passing. */
  method GetTime(part: Ds1338Virt, isPm: uint8) returns (f: Fields)
    requires part.State().Released()
    modifies part, part.nvram
    ensures part.State().Released() && part.rtc == old(part.rtc)
    ensures part.State().nvram == old(part.State().nvram) && f == Decoded(part.State().nvram, isPm)
  {
    hide Decoded, HalfPeriods;
    ghost var m := part.State().nvram;
    f := GetTimeAcross(part, isPm, 7, 0);
    WholeDecoded(m, HalfPeriods(old(part.State()), 0).nvram, isPm);
  }

  lemma WholeDecoded(m: seq<uint8>, q: seq<uint8>, isPm: uint8)
    requires |m| == |q| == CELLS
    ensures Decoded(Mixed(7, m, q), isPm) == Decoded(m, isPm)
  {
    hide ByteValue;
  }

  // ---- Set, run, get ----

  function InFields(t: Time, isPm: uint8): Fields
    requires t.Valid()
  {
    Fields(t.seconds as uint8, t.minutes as uint8, t.hours as uint8, isPm,
           t.day as uint8, t.date as uint8, t.month as uint8, t.year as uint8)
  }

  lemma BcdReads(x: uint8, tens: int)
    requires TensField(tens) && x as int < 10 * tens && x < 100
    ensures Reads(ToBcd(x), tens, x as int)
  {
    hide TensDigit;
    assert Flags(0, tens) == 0 && WithDigits(0, tens, x as int) == ToBcd(x);
    DigitsStay(0, tens, x as int);
  }

  lemma HourReads(mode: uint8, isPm: uint8, hours: uint8)
    requires !TwelveHours(mode) && hours < 24
    ensures var r := HourCode(mode, isPm, hours); !TwelveHours(r) && Value(r, 4) == hours as int
  {
    hide HourCode;
    var t, u, top := hours as int / 10, hours as int % 10, mode as int / 64;
    HourBits(mode, isPm, hours);
    Join4(top, t, u);
  }

  lemma HourBits(mode: uint8, isPm: uint8, hours: uint8)
    requires !TwelveHours(mode) && hours < 24
    ensures HourCode(mode, isPm, hours) as int == 64 * (mode as int / 64) + 16 * (hours as int / 10) + hours as int % 10
  {
    hide Or2;
    BcdHours(hours);
    OrNothing(mode as int / 64);
  }

  lemma BcdHours(hours: uint8)
    requires hours < 24
    ensures ToBcd(hours) as int == 16 * (hours as int / 10) + hours as int % 10 < 64
  {}

  lemma OrNothing(x: int)
    requires 0 <= x < 4
    ensures Or2(x, 0) == x
  {}

  lemma SetShows(m: seq<uint8>, t: Time, isPm: uint8)
    requires |m| == CELLS && !TwelveHours(m[HOURS]) && t.Valid()
    ensures Shows(SetRegisters(m, InFields(t, isPm)), t) && SetRegisters(m, InFields(t, isPm))[7..] == m[7..]
  {
    hide ToBcd, HourCode, TwelveHours, Flags, Value, DaysInMonth;
    var f := InFields(t, isPm);
    BcdReads(f.seconds, 8);
    BcdReads(f.minutes, 8);
    HourReads(m[HOURS], isPm, f.hours);
    DayReads(f.day);
    BcdReads(f.date, 4);
    BcdReads(f.month, 2);
    BcdReads(f.year, 16);
  }

  lemma DayReads(day: uint8)
    requires day < 7
    ensures Reads(((day as int + 1) % 256) as uint8, 1, day as int + 1)
  {}

  lemma GetDecodes(m: seq<uint8>, t: Time, isPm: uint8)
    requires Shows(m, t) && t.Valid()
    ensures Decoded(m, isPm) == InFields(t, isPm)
  {
    hide Flags, Value, DaysInMonth, TwelveHours;
    ReadsWhole(m[MINUTES], 8, t.minutes);
    ReadsWhole(m[DATE], 4, t.date);
    ReadsWhole(m[MONTH], 2, t.month);
    ReadsWhole(m[YEAR], 16, t.year);
    DayDecodes(m[DAY], t.day);
  }

  lemma DayDecodes(r: uint8, day: nat)
    requires Reads(r, 1, day + 1) && day < 7
    ensures ((r as int - 1) % 256) as uint8 as int == day
  {}

  /** In 24-hour mode: set a time, let the crystal swing any number of half periods, get the time; it is the
      start time that many whole seconds later. */
  method SetRunGet(part: Ds1338Virt, t: Time, isPm: uint8, halfPeriods: nat) returns (f: Fields)
    requires part.State().Released() && !TwelveHours(part.State().nvram[HOURS]) && t.Valid()
    modifies part, part.nvram
    ensures var now := After(t, (old(part.rtc) as int + halfPeriods) / TICKS_PER_SECOND);
            now.Valid() && f == InFields(now, isPm)
    ensures part.State().nvram[7..] == old(part.State().nvram[7..])
  {
    hide Shows, SetRegisters, HalfPeriods, Ticks, After, Decoded, TwelveHours;
    SetShows(part.State().nvram, t, isPm);
    SetTime(part, InFields(t, isPm));
    ghost var p := part.State();
    RunClock(part, halfPeriods);
    CrystalDivides(p, t, halfPeriods);
    ghost var n := (p.rtc as int + halfPeriods) / TICKS_PER_SECOND;
    TicksShow(p.nvram, t, n);
    f := GetTime(part, isPm);
    GetDecodes(part.State().nvram, After(t, n), isPm);
  }

  /** Seven reads of which the first `k` came before a tick and the others after it. */
  function Torn(k: nat, before: Fields, after: Fields): Fields {
    Fields(if k > 0 then before.seconds else after.seconds,
           if k > 1 then before.minutes else after.minutes,
           if k > 2 then before.hours else after.hours,
           after.isPm,
           if k > 3 then before.day else after.day,
           if k > 4 then before.date else after.date,
           if k > 5 then before.month else after.month,
           if k > 6 then before.year else after.year)
  }

  /** The tick carries past read number `k` of seven, after something was read. */
  predicate CarriesPast(t: Time, k: nat) {
    && 1 <= k <= 6
    && t.seconds == 59
    && (k >= 2 ==> t.minutes == 59)
    && (k >= 3 ==> t.hours == 23)
    && (k >= 5 ==> t.date == DaysInMonth(t.month, 2000 + t.year))
    && (k >= 6 ==> t.month == 12)
  }

  lemma MixedDecodes(m: seq<uint8>, q: seq<uint8>, t: Time, u: Time, isPm: uint8, k: nat)
    requires Shows(m, t) && t.Valid() && Shows(q, u) && u.Valid()
    ensures Decoded(Mixed(k, m, q), isPm) == Torn(k, InFields(t, isPm), InFields(u, isPm))
  {
    hide ByteValue, TwelveHours, Flags, Value, DaysInMonth;
    GetDecodes(m, t, isPm);
    GetDecodes(q, u, isPm);
  }

  /** The driver's seven reads with any number of half periods before one of them: what it gets is torn between
      the time before and the time that many whole seconds later. */
  method GetTorn(part: Ds1338Virt, t: Time, isPm: uint8, k: nat, halfPeriods: nat) returns (f: Fields)
    requires part.State().Released() && Shows(part.State().nvram, t) && t.Valid()
    modifies part, part.nvram
    ensures var u := After(t, (old(part.rtc) as int + halfPeriods) / TICKS_PER_SECOND);
            u.Valid() && f == Torn(k, InFields(t, isPm), InFields(u, isPm))
  {
    hide Shows, Decoded, HalfPeriods, Ticks, After, Mixed, Torn;
    ghost var p := part.State();
    ghost var n := (p.rtc as int + halfPeriods) / TICKS_PER_SECOND;
    f := GetTimeAcross(part, isPm, k, halfPeriods);
    CrystalDivides(p, t, halfPeriods);
    TicksShow(p.nvram, t, n);
    MixedDecodes(p.nvram, Ticks(p.nvram, n), t, After(t, n), isPm, k);
  }

  /** When that is one second, it is a time that was never shown exactly when the second carries past the reads
      already made. */
  lemma TornRead(t: Time, isPm: uint8, k: nat)
    requires t.Valid() && k <= 7
    ensures t.Next().Valid() && After(t, 1) == t.Next()
    ensures var torn := Torn(k, InFields(t, isPm), InFields(t.Next(), isPm));
            torn == InFields(t, isPm) || torn == InFields(t.Next(), isPm) <==> !CarriesPast(t, k)
  {
    CascadeIsNext(t);
    NextValid(t);
    TornFields(t, NextSecond(t), isPm, k);
  }

  lemma TornFields(t: Time, u: Time, isPm: uint8, k: nat)
    requires t.Valid() && u.Valid() && u == NextSecond(t) && k <= 7
    ensures var torn := Torn(k, InFields(t, isPm), InFields(u, isPm));
            torn == InFields(t, isPm) || torn == InFields(u, isPm) <==> !CarriesPast(t, k)
  {
    hide DaysInMonth;
  }

  /** A register in 12-hour mode that shows an hour from 1 to 12. */
  predicate TwelveHourReading(r: uint8) { TwelveHours(r) && r % 16 < 10 && 1 <= Value(r, 2) <= 12 }

  /** Such a register bit by bit: bit 6 for the mode, bit 5 for the afternoon, one bit of tens, four of units. */
  lemma TwelveHourRegister(r: uint8, hour: nat, pm: bool)
    requires 1 <= hour <= 12
    requires r as int == 64 + (if pm then 32 else 0) + hour / 10 * 16 + hour % 10
    ensures TwelveHourReading(r) && Value(r, 2) == hour && (Afternoon(r) <==> pm)
    ensures !TwelveHours(r - 64)
  {
    var t, u := hour / 10, hour % 10;
    Join2(if pm then 3 else 2, t, u);
  }

  /** In 12-hour mode what the driver writes is such a register, and it reads the hour and the half of the day back. */
  lemma TwelveHourRoundTrip(m: seq<uint8>, f: Fields, isPm: uint8)
    requires |m| == CELLS && 64 <= m[HOURS] < 128 && 1 <= f.hours <= 12
    ensures var q := SetRegisters(m, f);
            && q[HOURS] as int ==
               64 + (if f.isPm != 0 then 32 else 0) + f.hours as int / 10 * 16 + f.hours as int % 10
            && Decoded(q, isPm).hours == f.hours && Decoded(q, isPm).isPm == if f.isPm != 0 then 32 else 0
  {
    hide Value, Afternoon, ToBcd;
    BcdHours(f.hours);
    TwelveHourCode(m[HOURS], f.isPm, f.hours);
    TwelveHourRegister(SetRegisters(m, f)[HOURS], f.hours as int, f.isPm != 0);
  }

  lemma TwelveHourCode(mode: uint8, isPm: uint8, hours: uint8)
    requires 64 <= mode < 128 && 1 <= hours <= 12
    ensures HourCode(mode, isPm, hours) as int ==
            64 + (if isPm != 0 then 32 else 0) + hours as int / 10 * 16 + hours as int % 10
  {
    BcdHours(hours);
    OrNothing(1);
  }

  /** The hour of the day it stands for: 12 AM is 0 and 12 PM is 12. */
  function HourOfDay(r: uint8): int { Value(r, 2) % 12 + if Afternoon(r) then 12 else 0 }

  /** What the hours register should do at the end of an hour: show the next hour of the day, still in 12-hour
      mode, and carry into the day exactly at midnight. */
  ghost predicate HourAdvances(m: seq<uint8>, q: seq<uint8>)
    requires |m| == |q| == CELLS
  {
    && TwelveHourReading(q[HOURS]) && HourOfDay(q[HOURS]) == (HourOfDay(m[HOURS]) + 1) % 24
    && q == var u := m[HOURS := q[HOURS]]; if HourOfDay(m[HOURS]) == 23 then TickDay(u) else u
  }

  lemma AfternoonStays(q: uint8, r: uint8)
    requires Flags(q, 2) == Flags(r, 2)
    ensures Afternoon(q) == Afternoon(r) && TwelveHours(q) == TwelveHours(r)
  {
    assert q as int / 32 == Flags(q, 2) / 32 && r as int / 32 == Flags(r, 2) / 32;
    assert q as int / 64 == q as int / 32 / 2 && r as int / 64 == r as int / 32 / 2;
  }

  /** 12-hour mode works up to 10 o'clock and no further: at 11 the half of the day is not switched, at 12 it
      is switched an hour late, and after 12 PM the mode itself is lost. */
  lemma TwelveHoursExactly(m: seq<uint8>)
    requires |m| == CELLS && TwelveHourReading(m[HOURS])
    ensures HourAdvances(m, TickHours(m)) <==> Value(m[HOURS], 2) <= 10
  {
    hide TickDay, Flags, TensDigit, Value, Afternoon, TwelveHours, WithDigits;
    var v := Value(m[HOURS], 2);
    var (r, carry) := TickBcd(m[HOURS], 1, 12, 2);
    TickReads(m[HOURS], 1, 12, 2);
    AfternoonStays(r, m[HOURS]);
    if v <= 10 {
      UnitsStay(m[HOURS], v + 1);
    } else if v == 12 {
      LastHour(m, r);
    }
  }

  lemma UnitsStay(r: uint8, x: nat)
    requires x < 20
    ensures WithDigits(r, 2, x) % 16 < 10
  {
    DigitsStay(r, 2, x);
  }

  /** From 12 AM the tick shows 1 PM; from 12 PM it clears the register, which is midnight in 24-hour mode. */
  lemma LastHour(m: seq<uint8>, r: uint8)
    requires |m| == CELLS && TwelveHourReading(m[HOURS]) && Value(m[HOURS], 2) == 12
    requires TickBcd(m[HOURS], 1, 12, 2) == (r, true) && Value(r, 2) == 1 && Afternoon(r) == Afternoon(m[HOURS])
    ensures var q := TickHours(m)[HOURS]; if Afternoon(m[HOURS]) then q == 0 else Value(q, 2) == 1 && Afternoon(q)
    ensures !HourAdvances(m, TickHours(m))
  {
    hide TickDay, TickBcd, Flags, TensDigit, Value, SetAfternoon;
    if Afternoon(m[HOURS]) {
      DayKeepsHours(m[HOURS := 0]);
    } else {
      AfternoonSet(r);
      assert HourOfDay(m[HOURS]) == 0 && HourOfDay(SetAfternoon(r)) == 13;
    }
  }

  lemma DayKeepsHours(m: seq<uint8>)
    requires |m| == CELLS
    ensures TickDay(m)[HOURS] == m[HOURS]
  {
    hide TickBcd;
  }

  lemma AfternoonSet(r: uint8)
    requires !Afternoon(r)
    ensures Afternoon(SetAfternoon(r)) && Value(SetAfternoon(r), 2) == Value(r, 2)
  {
    var n, q := r as int, SetAfternoon(r) as int;
    assert q == n + 32 && q / 16 == n / 16 + 2 && q % 16 == n % 16 && q / 32 == n / 32 + 1;
  }

  /** In particular the mode does not survive an afternoon. */
  lemma AfternoonForgets(m: seq<uint8>)
    requires |m| == CELLS && TwelveHours(m[HOURS]) && Afternoon(m[HOURS]) && Value(m[HOURS], 2) == 12
    ensures TickHours(m) == TickDay(m[HOURS := 0]) && !TwelveHours(TickHours(m)[HOURS]) && TickHours(m)[HOURS] == 0
  {
    hide TickBcd, Value;
    TickReads(m[HOURS], 1, 12, 2);
  }
}
