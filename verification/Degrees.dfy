/** Latitude and longitude fields: the digit-by-digit parser `parseDDDMM`, which keeps degrees and
    minutes in BCD until the decimal point and ends with degrees times 10^7 as an integer. */
module Degrees {
  import opened Widths

  type schar = x: int | -128 <= x < 128

  const ZERO: schar := 48
  const DOT: schar := 46
  const COMMA: schar := 44

  /** `divu3`: division by 3 with shifts and adds. That the body is well-formed in 32 bits is part of
      what is proved: nothing wraps, and the remainder estimate stays within 0..15. */
  function Divu3(n: uint32): (r: uint32)
    ensures r as int == n as int / 3
  {
    var q0 := n / 4 + n / 16;
    var q1 := q0 + q0 / 16;
    var q2 := q1 + q1 / 256;
    ThirdEstimate(n as int);
    var q := q2 + q2 / 65536;
    var rem := n - q * 3;
    assert 11 * rem / 32 == rem / 3;
    q + 11 * rem / 32
  }

  function Third(n: int): int {
    var q0 := n / 4 + n / 16;
    var q1 := q0 + q0 / 16;
    var q2 := q1 + q1 / 256;
    q2 + q2 / 65536
  }

  lemma ThirdEstimate(n: int)
    requires 0 <= n < 0x1_0000_0000
    ensures 0 <= n - 3 * Third(n) <= 15
  {
    var q0 := n / 4 + n / 16;
    var q1 := q0 + q0 / 16;
    var q2 := q1 + q1 / 256;
    var q := q2 + q2 / 65536;
    assert 5 * n - 27 <= 16 * q0 <= 5 * n;
    assert 85 * n - 699 <= 256 * q1 <= 85 * n;
    assert 21845 * n - 244923 <= 65536 * q2 <= 21845 * n;
    assert 65537 * q2 - 65535 <= 65536 * q <= 65537 * q2;
  }

  /** Conversion to `int32_t` and to `uint32_t`. */
  function I32(x: int): (r: int)
    ensures -0x8000_0000 <= r < 0x8000_0000
    ensures -0x8000_0000 <= x < 0x8000_0000 ==> r == x
  {
    (x + 0x8000_0000) % 0x1_0000_0000 - 0x8000_0000
  }

  function U32(x: int): (r: uint32)
    ensures 0 <= x < 0x1_0000_0000 ==> r as int == x
  {
    (x % 0x1_0000_0000) as uint32
  }

  /** `(val << 4) | (chr - '0')`. For a digit the two parts do not overlap. */
  function ShiftIn(val: int, d: int): int {
    if 0 <= d < 10 then I32(val * 16) + d
    else I32((U32(val * 16) as bv32 | U32(d) as bv32) as int)
  }

  /** `to_binary`, on one byte of two BCD digits. */
  function ToBinary(value: uint8): (r: uint8)
    ensures r == value / 16 * 10 + value % 16
  {
    var high, low := value / 16, value % 16;
    high * 8 + high * 2 + low
  }

  /** Byte `k` of the value as it lies in memory on a little-endian target. */
  function ByteOf(val: int, k: nat): uint8
    requires k < 3
  {
    var u := U32(val) as int;
    ((if k == 0 then u else if k == 1 then u / 256 else u / 65536) % 256) as uint8
  }

  /** The value being parsed, the digits seen since the point (plus one), and the parser's count of
      characters in the field. */
  datatype Field = Field(val: int, decimal: uint8, chrCount: uint8)

  /** `val` from degrees and minutes in BCD to minutes in binary. */
  function ToMinutes(val: int): int {
    var hundreds := if ByteOf(val, 2) != 0 then 100 else 0;
    var deg := (ToBinary(ByteOf(val, 1)) as int + hundreds) % 256;
    deg * 60 + ToBinary(ByteOf(val, 0)) as int
  }

  /** From minutes times 10^5 to degrees times 10^7. */
  function Convert(val: int): (r: int)
    ensures -0x8000_0000 <= r < 0x8000_0000
  {
    I32(val + Divu3(U32(val * 2 + 1)) as int)
  }

  /** What the terminating comma scales by, given the count of decimals. */
  function Scale(decimal: uint8): int {
    if decimal == 4 then 100 else if decimal == 5 then 10 else if decimal == 3 then 1000
    else if decimal == 2 then 10000 else if decimal == 1 then 100000 else 1
  }

  /** One character of the field, and whether it finished the value. */
  function Step(f: Field, chr: schar): (r: (Field, bool)) {
    var g := if f.chrCount == 0 then f.(val := 0, decimal := 0) else f;
    var count := if chr == COMMA then 0 else Incremented(f.chrCount);
    var h := if chr == DOT || (chr == COMMA && g.decimal == 0)
             then Field(ToMinutes(g.val), 1, count) else g.(chrCount := count);
    if chr == DOT then (h, false)
    else if chr == COMMA then
      if h.decimal > 6 then (h, true)
      else (h.(val := Convert(I32(h.val * Scale(h.decimal)))), true)
    else if h.decimal == 0 then (h.(val := ShiftIn(h.val, chr - ZERO)), false)
    else
      var k := Incremented(h.decimal);
      if k <= 6 then (h.(val := I32(h.val * 10 + (chr - ZERO)), decimal := k), false)
      else if k == 7 then
        var bump := if chr >= ZERO + 9 then 2 else if chr >= ZERO + 4 then 1 else 0;
        (h.(val := I32(Convert(h.val) + bump), decimal := k), false)
      else (h.(decimal := k), false)
  }

  class DegreeField {
    var val: int
    var decimal: uint8
    var chrCount: uint8

    function State(): Field
      reads this
    {
      Field(val, decimal, chrCount)
    }

    /** `parseDDDMM`, followed by what `decode` does to the character count. */
    method ParseDDDMM(chr: schar) returns (done: bool)
      modifies this
      ensures (State(), done) == Step(old(State()), chr)
    {
      hide ShiftIn, Convert, ToMinutes, Scale;
      done := false;
      if chrCount == 0 {
        val, decimal := 0, 0;
      }
      chrCount := if chr == COMMA then 0 else Incremented(chrCount);
      if chr == DOT || (chr == COMMA && decimal == 0) {
        decimal := 1;
        val := ToMinutes(val);
        if chr == DOT {
          return false;
        }
      }
      if chr == COMMA {
        if decimal > 6 {
          return true;
        }
        val := I32(val * Scale(decimal));
        val := Convert(val);
        done := true;
      } else if decimal == 0 {
        val := ShiftIn(val, chr - ZERO);
      } else {
        decimal := Incremented(decimal);
        if decimal <= 6 {
          val := I32(val * 10 + (chr - ZERO));
        } else if decimal == 7 {
          val := Convert(val);
          if chr >= ZERO + 9 {
            val := I32(val + 2);
          } else if chr >= ZERO + 4 {
            val := I32(val + 1);
          }
        }
      }
    }
  }

  // ---- Whole fields ----

  function Feed(f: Field, text: seq<schar>): Field {
    if text == [] then f else Step(Feed(f, text[..|text| - 1]), text[|text| - 1]).0
  }

  type digits = d: seq<int> | forall i :: 0 <= i < |d| ==> 0 <= d[i] < 10

  function Chars(d: digits): (t: seq<schar>)
    ensures |t| == |d|
  {
    seq(|d|, i requires 0 <= i < |d| => ZERO + d[i])
  }

  function Number(d: digits): nat {
    if d == [] then 0 else 10 * Number(d[..|d| - 1]) + d[|d| - 1]
  }

  function Pow10(k: nat): (p: nat)
    ensures p > 0
  {
    if k == 0 then 1 else 10 * Pow10(k - 1)
  }

  /** Minutes of arc written by the digits before the point. */
  function Minutes(whole: nat): nat { whole / 100 * 60 + whole % 100 }

  /** The BCD image of a number below 20000. */
  function Bcd(n: nat): nat
    requires n < 20000
  {
    n % 10 + 16 * (n / 10 % 10) + 256 * (n / 100 % 10) + 4096 * (n / 1000 % 10) + 65536 * (n / 10000)
  }

  lemma Nested(n: nat)
    ensures n / 100 == n / 10 / 10 && n / 1000 == n / 100 / 10 && n / 10000 == n / 1000 / 10
  {}

  lemma BcdStep(m: nat, d: nat)
    requires m < 2000 && d < 10
    ensures Bcd(10 * m + d) == 16 * Bcd(m) + d < 0x2_0000
  {
    var n := 10 * m + d;
    assert n / 10 == m && n % 10 == d;
    Nested(n);
    Nested(m);
    var m1, m2, m3 := m / 10, m / 100, m / 1000;
    assert n / 100 == m1 && n / 1000 == m2 && n / 10000 == m3;
    assert m3 < 2 && m / 10000 == 0 && m3 % 10 == m3;
  }

  lemma BytesOf(low: nat, mid: nat, top: nat)
    requires low < 256 && mid < 256 && top < 2
    ensures var v := low + 256 * mid + 65536 * top;
            ByteOf(v, 0) as int == low && ByteOf(v, 1) as int == mid && ByteOf(v, 2) as int == top
  {
    var w := mid + 256 * top;
    var v := low + 256 * w;
    assert v / 256 == w && v % 256 == low;
    assert w % 256 == mid && w / 256 == top;
    assert v / 65536 == w / 256;
    assert U32(v) as int == v;
  }

  /** The bytes of a packed number, each two digits. */
  lemma BytesOfBcd(a: nat, b: nat, c: nat, d: nat, e: nat)
    requires a < 10 && b < 10 && c < 10 && d < 10 && e <= 1
    ensures ToMinutes(a + 16 * b + 256 * c + 4096 * d + 65536 * e) == (100 * e + 10 * d + c) * 60 + 10 * b + a
  {
    hide ByteOf;
    var low, mid := a + 16 * b, c + 16 * d;
    BytesOf(low, mid, e);
    assert low / 16 == b && low % 16 == a && mid / 16 == d && mid % 16 == c;
  }

  lemma DecimalDigits(n: nat)
    requires n < 20000
    ensures var low := n % 10 + 10 * (n / 10 % 10);
            var high := n / 100 % 10 + 10 * (n / 1000 % 10) + 100 * (n / 10000);
            n % 100 == low && n / 100 == high
  {
    Nested(n);
    var p, q := n / 10, n / 100;
    assert n == 10 * p + n % 10 && p == 10 * q + p % 10;
  }

  lemma BcdMinutes(n: nat)
    requires n < 20000
    ensures ToMinutes(Bcd(n)) == Minutes(n)
  {
    DecimalDigits(n);
    BytesOfBcd(n % 10, n / 10 % 10, n / 100 % 10, n / 1000 % 10, n / 10000);
  }

  /** `text` then one more character. */
  lemma FeedMore(f: Field, text: seq<schar>, c: schar)
    ensures Feed(f, text + [c]) == Step(Feed(f, text), c).0
  {
    assert (text + [c])[..|text|] == text;
  }

  lemma CharsSnoc(d: digits)
    requires d != []
    ensures Chars(d) == Chars(d[..|d| - 1]) + [ZERO + d[|d| - 1]]
  {}

  /** The digits before the point, kept in BCD. */
  lemma {:induction false} WholeState(f: Field, w: digits)
    requires f.chrCount == 0 && 1 <= |w| <= 255 && Number(w) < 20000
    ensures Feed(f, Chars(w)) == Field(Bcd(Number(w)), 0, |w| as uint8)
    decreases |w|
  {
    hide Bcd;
    var front, d := w[..|w| - 1], w[|w| - 1];
    CharsSnoc(w);
    FeedMore(f, Chars(front), ZERO + d);
    BcdStep(Number(front), d);
    if front == [] {
      assert Number(front) == 0 && Chars(front) == [];
      BcdZero();
    } else {
      WholeState(f, front);
    }
  }

  lemma BcdZero()
    ensures Bcd(0) == 0
  {}

  lemma PointState(f: Field, w: digits)
    requires f.chrCount == 0 && 1 <= |w| < 255 && Number(w) < 20000
    ensures Feed(f, Chars(w) + [DOT]) == Field(Minutes(Number(w)), 1, (|w| + 1) as uint8)
  {
    hide Bcd, ToMinutes;
    WholeState(f, w);
    FeedMore(f, Chars(w), DOT);
    BcdMinutes(Number(w));
  }

  function Text(w: digits, fr: digits): seq<schar> { Chars(w) + [DOT] + Chars(fr) }

  lemma TextSnoc(w: digits, fr: digits)
    requires fr != []
    ensures Text(w, fr) == Text(w, fr[..|fr| - 1]) + [ZERO + fr[|fr| - 1]]
  {
    CharsSnoc(fr);
  }

  lemma MinutesBound(n: nat)
    requires n < 20000
    ensures Minutes(n) < 12040
  {}

  lemma {:induction false} NumberBound(d: digits)
    ensures Number(d) < Pow10(|d|)
  {
    if d != [] {
      NumberBound(d[..|d| - 1]);
    }
  }

  lemma SmallPowers()
    ensures Pow10(0) == 1 && Pow10(1) == 10 && Pow10(2) == 100 && Pow10(3) == 1000 && Pow10(4) == 10000
    ensures Pow10(5) == 100000
  {
    assert Pow10(2) == 10 * Pow10(1) && Pow10(3) == 10 * Pow10(2) && Pow10(4) == 10 * Pow10(3);
  }

  /** Up to five decimals the value is minutes scaled by the decimals read. */
  lemma {:induction false} ShortFraction(f: Field, w: digits, fr: digits)
    requires f.chrCount == 0 && 1 <= |w| && Number(w) < 20000 && |w| + 1 + |fr| <= 255 && |fr| <= 5
    ensures Feed(f, Text(w, fr)) ==
            Field(Minutes(Number(w)) * Pow10(|fr|) + Number(fr), 1 + |fr| as uint8, (|w| + 1 + |fr|) as uint8)
    decreases |fr|
  {
    hide Convert, ToMinutes, Minutes, ShiftIn;
    if fr == [] {
      PointState(f, w);
      assert Text(w, fr) == Chars(w) + [DOT];
    } else {
      var front, d := fr[..|fr| - 1], fr[|fr| - 1];
      ShortFraction(f, w, front);
      TextSnoc(w, fr);
      FeedMore(f, Text(w, front), ZERO + d);
      MinutesBound(Number(w));
      NumberBound(front);
      SmallPowers();
      ScaledStep(Minutes(Number(w)), |front|, Number(front), d);
    }
  }

  lemma ScaledStep(m: nat, k: nat, n: nat, d: nat)
    requires m < 12040 && k < 5 && n < Pow10(k) && d < 10
    ensures var v := m * Pow10(k) + n;
            10 * v + d == m * Pow10(k + 1) + (10 * n + d) && 0 <= 10 * v + d < 1204000000
  {
    SmallPowers();
  }

  /** The conversion from minutes times 10^5 rounds to the nearest, and 32 bits are enough. */
  lemma ConvertRounds(v: int)
    requires 0 <= v < 1204000000
    ensures var r := Convert(v); r == v + (2 * v + 1) / 3 && -1 <= 3 * r - 5 * v <= 1 && 0 <= r < 2006666668
  {}

  /** Five decimals, and the sixth decides the adjustment. */
  function Adjusted(v: int, sixth: int): int {
    Convert(v) + if sixth >= 9 then 2 else if sixth >= 4 then 1 else 0
  }

  lemma {:induction false} LongFraction(f: Field, w: digits, fr: digits)
    requires f.chrCount == 0 && 1 <= |w| && Number(w) < 20000 && |w| + 1 + |fr| <= 255 && |fr| >= 6
    ensures Feed(f, Text(w, fr)) ==
            Field(Adjusted(Minutes(Number(w)) * 100000 + Number(fr[..5]), fr[5]),
                  (1 + |fr|) as uint8, (|w| + 1 + |fr|) as uint8)
    decreases |fr|
  {
    hide Feed, Step, Text, Adjusted, Minutes, Number;
    var front, d := fr[..|fr| - 1], fr[|fr| - 1];
    TextSnoc(w, fr);
    FeedMore(f, Text(w, front), ZERO + d);
    var m := Minutes(Number(w));
    if |fr| == 6 {
      ShortFraction(f, w, front);
      SmallPowers();
      MinutesBound(Number(w));
      NumberBound(front);
      assert fr[..5] == front && fr[5] == d;
      SixthDecimal(Field(m * 100000 + Number(front), 6, (|w| + 6) as uint8), d);
    } else {
      LongFraction(f, w, front);
      assert front[..5] == fr[..5] && front[5] == fr[5];
      MoreDecimals(Field(Adjusted(m * 100000 + Number(front[..5]), fr[5]), |fr| as uint8, (|w| + |fr|) as uint8), d);
    }
  }

  /** The sixth decimal converts the value, and decides the adjustment. */
  lemma SixthDecimal(f: Field, d: nat)
    requires d < 10 && 1 <= f.chrCount < 255 && f.decimal == 6 && 0 <= f.val < 1204000000
    ensures Step(f, ZERO + d) == (Field(Adjusted(f.val as int, d), 7, f.chrCount + 1), false)
  {
    hide ToMinutes, ShiftIn;
    ConvertRounds(f.val as int);
  }

  lemma MoreDecimals(f: Field, d: nat)
    requires d < 10 && 1 <= f.chrCount < 255 && 7 <= f.decimal < 255
    ensures Step(f, ZERO + d) == (f.(decimal := f.decimal + 1, chrCount := f.chrCount + 1), false)
  {
    hide Convert, ToMinutes, ShiftIn;
  }

  /** Six times the power of ten of the decimals, times the error in units of 10^-7 degrees: zero when
      `r` is exactly degrees times 10^7. */
  function Error(r: int, w: digits, fr: digits): int {
    6 * Pow10(|fr|) * r - 1000000 * (Minutes(Number(w)) * Pow10(|fr|) + Number(fr))
  }

  lemma CommaScales(f: Field)
    requires f.chrCount != 0 && 1 <= f.decimal <= 6
    ensures Step(f, COMMA) == (Field(Convert(I32(f.val * Scale(f.decimal))), f.decimal, 0), true)
  {
    hide Convert, ToMinutes, I32;
  }

  lemma NearestArithmetic(p: int, r: int, scaled: int, v: int)
    requires 0 < p && -1 <= 3 * r - 5 * scaled <= 1 && scaled * p == 100000 * v
    ensures -3 * p <= 6 * p * r - 1000000 * v <= 3 * p
  {
    var e := 3 * r - 5 * scaled;
    Between(p, e, -1, 1);
    assert 6 * p * r - 10 * (scaled * p) == 2 * (p * e);
  }

  /** At most five decimals: the value is the nearest integer to degrees times 10^7. */
  lemma NearestUpToFive(f: Field, w: digits, fr: digits)
    requires f.chrCount == 0 && 1 <= |w| && Number(w) < 20000 && |w| + 1 + |fr| <= 255 && |fr| <= 5
    ensures var (g, done) := Step(Feed(f, Text(w, fr)), COMMA);
            done && -3 * Pow10(|fr|) <= Error(g.val, w, fr) <= 3 * Pow10(|fr|)
  {
    hide Convert, ToMinutes, Minutes, Feed, Text, Step, Scale, Pow10, Number;
    ShortFraction(f, w, fr);
    CommaScales(Feed(f, Text(w, fr)));
    MinutesBound(Number(w));
    NumberBound(fr);
    var v := Minutes(Number(w)) * Pow10(|fr|) + Number(fr);
    var scaled := v * Scale((1 + |fr|) as uint8);
    ScaledBound(Minutes(Number(w)), |fr|, Number(fr));
    ConvertRounds(scaled);
    NearestArithmetic(Pow10(|fr|), Convert(scaled), scaled, v);
  }

  lemma ScaledBound(m: nat, k: nat, n: nat)
    requires m < 12040 && k <= 5 && n < Pow10(k)
    ensures var s := (m * Pow10(k) + n) * Scale((1 + k) as uint8);
            0 <= s < 1204000000 && s * Pow10(k) == 100000 * (m * Pow10(k) + n)
  {
    SmallPowers();
  }

  lemma CommaSwitches(f: Field)
    requires f.chrCount != 0 && f.decimal == 0
    ensures Step(f, COMMA) == (Field(Convert(I32(ToMinutes(f.val) * 100000)), 1, 0), true)
  {
    hide Convert, ToMinutes, I32;
  }

  /** Without a decimal point the comma does the switch to minutes itself. */
  lemma NearestWithoutPoint(f: Field, w: digits)
    requires f.chrCount == 0 && 1 <= |w| <= 255 && Number(w) < 20000
    ensures var (g, done) := Step(Feed(f, Chars(w)), COMMA);
            done && -3 <= Error(g.val, w, []) <= 3
  {
    hide Convert, ToMinutes, Minutes, Bcd, Feed, Step;
    WholeState(f, w);
    CommaSwitches(Feed(f, Chars(w)));
    BcdMinutes(Number(w));
    MinutesBound(Number(w));
    var m := Minutes(Number(w));
    ConvertRounds(m * 100000);
    NearestArithmetic(1, Convert(m * 100000), m * 100000, m);
  }

  lemma {:induction false} NumberSplit(fr: digits)
    requires |fr| >= 6
    ensures var q := Pow10(|fr| - 6); var rest := Number(fr) - 10 * q * Number(fr[..5]) - q * fr[5];
            0 <= rest < q && Pow10(|fr|) == 1000000 * q
    decreases |fr|
  {
    var front := fr[..|fr| - 1];
    if |fr| == 6 {
      assert front == fr[..5];
      SmallPowers();
    } else {
      NumberSplit(front);
      assert front[..5] == fr[..5];
      var p, a, b := Pow10(|fr| - 7), Number(fr[..5]), fr[5];
      TenTimes(p, a, b, Number(front));
    }
  }

  lemma TenTimes(p: int, a: int, b: int, n: int)
    ensures 10 * (n - 10 * p * a - p * b) == 10 * n - 10 * (10 * p) * a - (10 * p) * b
  {}

  lemma AdjustmentBound(q: int, v: int, r: int, sixth: int, rest: int)
    requires 0 <= rest < q && 0 <= sixth < 10 && -1 <= 3 * r - 5 * v <= 1
    ensures var t := r + if sixth >= 9 then 2 else if sixth >= 4 then 1 else 0;
            -6 * q < q * (6 * t - 10 * v - sixth) - rest < 6 * q
  {
    var t := r + if sixth >= 9 then 2 else if sixth >= 4 then 1 else 0;
    var e := 6 * t - 10 * v - sixth;
    assert -5 <= e <= 5;
    Between(q, e, -5, 5);
  }

  lemma Between(q: int, e: int, lo: int, hi: int)
    requires 0 <= q && lo <= e <= hi
    ensures q * lo <= q * e <= q * hi
  {}

  /** Six decimals or more: the value is less than one unit of 10^-7 degrees off. */
  lemma WithinOneUnit(f: Field, w: digits, fr: digits)
    requires f.chrCount == 0 && 1 <= |w| && Number(w) < 20000 && |w| + 1 + |fr| <= 255 && |fr| >= 6
    ensures var (g, done) := Step(Feed(f, Text(w, fr)), COMMA);
            done && -6 * Pow10(|fr|) < Error(g.val, w, fr) < 6 * Pow10(|fr|)
  {
    hide Convert, ToMinutes, Minutes, Text, Feed, Number, Pow10;
    LongFraction(f, w, fr);
    NumberSplit(fr);
    NumberBound(fr[..5]);
    MinutesBound(Number(w));
    SmallPowers();
    var m, q := Minutes(Number(w)), Pow10(|fr| - 6);
    var v := m * 100000 + Number(fr[..5]);
    var rest := Number(fr) - 10 * q * Number(fr[..5]) - q * fr[5];
    ConvertRounds(v);
    AdjustmentBound(q, v, Convert(v), fr[5], rest);
    ErrorSplit(q, m, Number(fr[..5]), fr[5], rest, Adjusted(v, fr[5]));
    assert Step(Feed(f, Text(w, fr)), COMMA).0.val == Adjusted(v, fr[5]);
  }

  lemma ErrorSplit(q: int, m: int, n5: int, sixth: int, rest: int, t: int)
    ensures 6 * (1000000 * q) * t - 1000000 * (m * (1000000 * q) + (10 * q * n5 + q * sixth + rest))
            == 1000000 * (q * (6 * t - 10 * (m * 100000 + n5) - sixth) - rest)
  {}

  lemma {:induction false} CountsCharacters(f: Field, text: seq<schar>)
    requires COMMA !in text
    ensures Feed(f, text).chrCount as int == (f.chrCount as int + |text|) % 256
    decreases |text|
  {
    hide Convert, ToMinutes, ShiftIn;
    if text != [] {
      CountsCharacters(f, text[..|text| - 1]);
    }
  }

  lemma CommaFirst(f: Field)
    requires f.chrCount == 0
    ensures Step(f, COMMA) == (Field(Convert(I32(ToMinutes(0) * Scale(1))), 1, 0), true)
  {
    hide Convert, ToMinutes, I32, Scale;
  }

  lemma ZeroConverts()
    ensures Convert(I32(ToMinutes(0) * Scale(1))) == 0
  {
    hide Convert, ToMinutes, Bcd;
    BcdZero();
    BcdMinutes(0);
    assert ToMinutes(0) == 0;
    ConvertRounds(0);
  }

  lemma CommaRestarts(f: Field)
    requires f.chrCount == 0
    ensures Step(f, COMMA).0.val == 0 && Step(f, COMMA).1
  {
    hide Convert, ToMinutes, I32, Scale;
    CommaFirst(f);
    ZeroConverts();
  }

  /** The character count is eight bits wide, and after a multiple of 256 characters the comma is taken for
      a first character. Whatever the field said, the value is 0. */
  lemma LongFieldForgotten(f: Field, w: digits, fr: digits)
    requires f.chrCount == 0 && (|w| + 1 + |fr|) % 256 == 0
    ensures Result(f, Text(w, fr)) == 0
  {
    hide Step, Feed;
    var text := Text(w, fr);
    assert |text| == |w| + 1 + |fr| && COMMA !in text;
    CountsCharacters(f, text);
    CommaRestarts(Feed(f, text));
  }

  // ---- Which lengths are parsed accurately ----

  /** The value when the comma after the field has come in. */
  function Result(f: Field, text: seq<schar>): int { Step(Feed(f, text), COMMA).0.val }

  /** The nearest integer for up to five decimals, less than one unit off for more. */
  predicate Accurate(r: int, w: digits, fr: digits) {
    var p, e := Pow10(|fr|), Error(r, w, fr);
    if |fr| <= 5 then -3 * p <= e <= 3 * p else -6 * p < e < 6 * p
  }

  /** Every field of `n` characters, with a point or without, is parsed accurately. */
  ghost predicate AccurateAt(f: Field, n: nat) {
    && (forall w: digits, fr: digits | w != [] && Number(w) < 20000 && |w| + 1 + |fr| == n ::
          Accurate(Result(f, Text(w, fr)), w, fr))
    && (forall w: digits | w != [] && Number(w) < 20000 && |w| == n :: Accurate(Result(f, Chars(w)), w, []))
  }

  function Zeros(n: nat): (d: digits)
    ensures |d| == n
  {
    seq(n, _ => 0)
  }

  /** Forgotten: the next character starts the field anew, or everything since was zero. */
  predicate Forgotten(f: Field) { f.chrCount == 0 || (f.val == 0 && f.decimal == 0) }

  lemma ZeroForgets(f: Field)
    requires Forgotten(f)
    ensures Forgotten(Step(f, ZERO).0)
  {
    hide Convert, ToMinutes;
  }

  lemma CommaAfterForgetting(f: Field)
    requires Forgotten(f)
    ensures Step(f, COMMA).0.val == 0
  {
    hide Convert, ToMinutes, I32, Scale, Step;
    if f.chrCount == 0 {
      CommaRestarts(f);
    } else {
      CommaSwitches(f);
      ZeroConverts();
      assert Scale(1) == 100000 by { ScaleOfOne(); }
    }
  }

  lemma ScaleOfOne()
    ensures Scale(1) == 100000
  {}

  /** One degree, a point, and zeros up to and past the 256th character. */
  lemma {:induction false} ZerosForget(f: Field, k: nat)
    requires f.chrCount == 0 && k >= 252
    ensures Forgotten(Feed(f, Text([1, 0, 0], Zeros(k))))
    decreases k
  {
    hide Step, Feed;
    var w: digits := [1, 0, 0];
    var text := Text(w, Zeros(k));
    if k == 252 {
      assert |text| == 256 && COMMA !in text;
      CountsCharacters(f, text);
    } else {
      ZerosForget(f, k - 1);
      assert Zeros(k)[..k - 1] == Zeros(k - 1);
      TextSnoc(w, Zeros(k));
      FeedMore(f, Text(w, Zeros(k - 1)), ZERO);
      ZeroForgets(Feed(f, Text(w, Zeros(k - 1))));
    }
  }

  lemma OneDegree()
    ensures Number([1, 0, 0]) == 100 && Minutes(100) == 60
  {
    hide Number;
    assert [1] + [0] == [1, 0] && [1, 0] + [0] == [1, 0, 0];
    OneDigit(1);
    NumberSnoc([1], 0);
    NumberSnoc([1, 0], 0);
  }

  lemma OneDigit(d: nat)
    requires d < 10
    ensures Number([d]) == d
  {}

  lemma NumberSnoc(n: digits, d: nat)
    requires d < 10
    ensures Number(n + [d]) == 10 * Number(n) + d
  {
    assert (n + [d])[..|n|] == n;
  }

  /** The accuracy results hold for every field of a length exactly when it is at most 255: each wrap of the
      eight-bit character count starts the value anew. */
  lemma AccurateExactlyUpTo255(f: Field, n: nat)
    requires f.chrCount == 0
    ensures AccurateAt(f, n) <==> n <= 255
  {
    hide Step, Feed, Error, Text, Number;
    if n <= 255 {
      forall w: digits, fr: digits | w != [] && Number(w) < 20000 && |w| + 1 + |fr| == n
        ensures Accurate(Result(f, Text(w, fr)), w, fr)
      {
        if |fr| <= 5 { NearestUpToFive(f, w, fr); } else { WithinOneUnit(f, w, fr); }
      }
      forall w: digits | w != [] && Number(w) < 20000 && |w| == n
        ensures Accurate(Result(f, Chars(w)), w, [])
      {
        NearestWithoutPoint(f, w);
      }
    } else {
      OneDegreeLost(f, n - 4);
    }
  }

  lemma OneDegreeLost(f: Field, k: nat)
    requires f.chrCount == 0 && k >= 252
    ensures var w: digits := [1, 0, 0]; Number(w) < 20000 && !Accurate(Result(f, Text(w, Zeros(k))), w, Zeros(k))
  {
    hide Step, Feed, Text, Number, Minutes, Pow10;
    var w: digits, fr := [1, 0, 0], Zeros(k);
    OneDegree();
    ZerosForget(f, k);
    CommaAfterForgetting(Feed(f, Text(w, fr)));
    var p := Pow10(k);
    assert Error(0, w, fr) == -1000000 * (60 * p + Number(fr));
  }
}
