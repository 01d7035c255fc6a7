/** Dates as text: what `operator<<` writes and how `parse` reads it back with `strtoul`. */
module DateText {
  import opened Options
  import opened Gregorian

  const NUL := '\0'

  /** `s[i]` of a C string, which ends in a NUL. */
  function At(s: string, i: nat): char { if i < |s| then s[i] else NUL }

  predicate IsDigit(c: char) { '0' <= c <= '9' }

  function DigitOf(c: char): (n: nat)
    requires IsDigit(c)
    ensures n < 10
  {
    c as int - '0' as int
  }

  function DigitFor(n: nat): (c: char)
    requires n < 10
    ensures IsDigit(c) && DigitOf(c) == n
  {
    "0123456789"[n]
  }

  predicate IsSpace(c: char) { c == ' ' || '\t' <= c <= '\r' }

  function SkipSpace(s: string, i: nat): (j: nat)
    requires i <= |s|
    ensures i <= j <= |s|
    decreases |s| - i
  {
    if i < |s| && IsSpace(s[i]) then SkipSpace(s, i + 1) else i
  }

  function DigitsEnd(s: string, i: nat): (j: nat)
    requires i <= |s|
    ensures i <= j <= |s|
    decreases |s| - i
  {
    if i < |s| && IsDigit(s[i]) then DigitsEnd(s, i + 1) else i
  }

  /** The decimal number written in `s[i..j]`. */
  function Value(s: string, i: nat, j: nat): nat
    requires i <= j <= |s| && forall k :: i <= k < j ==> IsDigit(s[k])
    decreases j
  {
    if i == j then 0 else assert IsDigit(s[j - 1]); 10 * Value(s, i, j - 1) + DigitOf(s[j - 1])
  }

  lemma {:induction false} AllDigits(s: string, i: nat)
    requires i <= |s|
    ensures forall k :: i <= k < DigitsEnd(s, i) ==> IsDigit(s[k])
    decreases |s| - i
  {
    if i < |s| && IsDigit(s[i]) {
      AllDigits(s, i + 1);
    }
  }

  /** `strtoul(&s[i], &end, 10)`: saturates at the top whatever the sign, negates after a minus sign, and
      leaves `end` at `i` when there is no digit. */
  function Strtoul(s: string, i: nat): (r: (nat, nat))
    requires i <= |s|
    ensures r.0 < 0x1_0000_0000 && i <= r.1 <= |s|
  {
    var j := SkipSpace(s, i);
    var k := if At(s, j) == '-' || At(s, j) == '+' then j + 1 else j;
    var end := DigitsEnd(s, k);
    AllDigits(s, k);
    if end == k then (0, i)
    else
      var v := Value(s, k, end);
      (if v >= 0x1_0000_0000 then 0xFFFF_FFFF
       else if At(s, j) == '-' then (0x1_0000_0000 - v) % 0x1_0000_0000 else v, end)
  }

  /** One field: the number at `i`, and where the expected separator was found. */
  function Scan(s: string, i: nat, separator: char): (r: Option<(nat, nat)>)
    requires i <= |s|
    ensures r.Some? && separator != NUL ==> r.value.1 < |s|
  {
    var r := Strtoul(s, i);
    if At(s, r.1) == separator then Some((r.0 % 0x1_0000, r.1)) else None
  }

  /** The fields after the year and what must follow each of them; the last ends the string. */
  const SEPARATORS := ['-', ' ', ':', ':', NUL]

  /** Separators are not digits, and only the last may be the end of the string. */
  ghost predicate Separate(separators: string) {
    && separators != []
    && (forall k :: 0 <= k < |separators| ==> !IsDigit(separators[k]))
    && (forall k :: 0 <= k < |separators| - 1 ==> separators[k] != NUL)
  }

  function ScanAll(s: string, i: nat, separators: string): (r: Option<seq<nat>>)
    requires i <= |s| && Separate(separators)
    ensures r.Some? ==> |r.value| == |separators|
    decreases |separators|
  {
    var f :- Scan(s, i, separators[0]);
    if |separators| == 1 then Some([f.0])
    else
      var rest :- ScanAll(s, f.1 + 1, separators[1..]);
      Some([f.0] + rest)
  }

  /** The six fields of "YYYY-MM-DD HH:MM:SS", cut to the width they are stored in. */
  function ParseFields(s: string): (r: Option<Civil>) {
    var y :- Scan(s, 0, '-');
    if 2000 + y.0 % 100 != y.0 then None
    else
      var f :- ScanAll(s, y.1 + 1, SEPARATORS);
      Some(Civil(y.0, f[0] % 256, f[1] % 256, f[2] % 256, f[3] % 256, f[4] % 256))
  }

  // ---- The printer ----

  function Decimal(n: nat): (d: string)
    ensures d != []
  {
    if n < 10 then [DigitFor(n)] else Decimal(n / 10) + [DigitFor(n % 10)]
  }

  function Padded(n: nat): string { if n < 10 then "0" + Decimal(n) else Decimal(n) }

  /** Fields with the separators between them; the last separator ends the string and is not written. */
  function Joined(ds: seq<string>, separators: string): string
    requires |ds| == |separators| > 0
    decreases |ds|
  {
    ds[0] + if |ds| == 1 then [] else [separators[0]] + Joined(ds[1..], separators[1..])
  }

  /** The characters `operator<<` writes. */
  function Text(t: Civil): string
    requires t.Valid()
  {
    Decimal(t.year) +
    ("-" + Joined([Padded(t.month), Padded(t.date), Padded(t.hours), Padded(t.minutes), Padded(t.seconds)], SEPARATORS))
  }

  /** Two digits at `i` that denote `n`. */
  predicate TwoDigits(s: string, i: nat, n: nat) {
    i + 1 < |s| && IsDigit(s[i]) && IsDigit(s[i + 1]) && 10 * DigitOf(s[i]) + DigitOf(s[i + 1]) == n
  }

  lemma PaddedTwo(n: nat)
    requires n < 100
    ensures var d := Padded(n); |d| == 2 && TwoDigits(d, 0, n)
  {
    if n >= 10 {
      assert Decimal(n / 10) == [DigitFor(n / 10)];
    }
  }

  lemma DecimalFour(n: nat)
    requires 1000 <= n < 10000
    ensures var d := Decimal(n); |d| == 4 && TwoDigits(d, 0, n / 100) && TwoDigits(d, 2, n % 100)
  {
    var a, b, c := n / 10, n / 100, n / 1000;
    assert a / 10 == b && b / 10 == c && a % 10 == n % 100 / 10 && n % 10 == n % 100 % 10;
    assert Decimal(c) == [DigitFor(c)];
    assert Decimal(b) == Decimal(c) + [DigitFor(b % 10)];
    assert Decimal(a) == Decimal(b) + [DigitFor(a % 10)];
  }

  lemma TwoDigitsAt(front: string, d: string, rest: string, i: nat, n: nat)
    requires TwoDigits(d, i, n)
    ensures TwoDigits(front + d + rest, |front| + i, n)
  {
    var s := front + d + rest;
    assert s[|front| + i] == d[i] && s[|front| + i + 1] == d[i + 1];
  }

  /** The shape of the text, "YYYY-MM-DD HH:MM:SS", for every year of four digits. */
  lemma TextShape(t: Civil)
    requires t.Valid() && t.year <= 9999
    ensures var s := Text(t);
            && |s| == 19 && s[4] == '-' && s[7] == '-' && s[10] == ' ' && s[13] == ':' && s[16] == ':'
            && TwoDigits(s, 0, t.year / 100) && TwoDigits(s, 2, t.year % 100)
            && TwoDigits(s, 5, t.month) && TwoDigits(s, 8, t.date)
            && TwoDigits(s, 11, t.hours) && TwoDigits(s, 14, t.minutes) && TwoDigits(s, 17, t.seconds)
  {
    hide Padded, Decimal, TwoDigits, Text;
    DecimalFour(t.year);
    PaddedTwo(t.month); PaddedTwo(t.date); PaddedTwo(t.hours); PaddedTwo(t.minutes); PaddedTwo(t.seconds);
    TextParts(t);
    ShapeOf(Decimal(t.year), Padded(t.month), Padded(t.date), Padded(t.hours), Padded(t.minutes), Padded(t.seconds));
    YearAt(Text(t), Decimal(t.year), t.year);
    FieldAt(Text(t), Padded(t.month), 5, t.month);
    FieldAt(Text(t), Padded(t.date), 8, t.date);
    FieldAt(Text(t), Padded(t.hours), 11, t.hours);
    FieldAt(Text(t), Padded(t.minutes), 14, t.minutes);
    FieldAt(Text(t), Padded(t.seconds), 17, t.seconds);
  }

  lemma YearAt(s: string, y: string, n: nat)
    requires |s| >= 4 && s == s[..0] + y + s[4..] && TwoDigits(y, 0, n / 100) && TwoDigits(y, 2, n % 100)
    ensures TwoDigits(s, 0, n / 100) && TwoDigits(s, 2, n % 100)
  {
    TwoDigitsAt(s[..0], y, s[4..], 0, n / 100);
    TwoDigitsAt(s[..0], y, s[4..], 2, n % 100);
  }

  lemma FieldAt(s: string, d: string, i: nat, n: nat)
    requires i + 2 <= |s| && s == s[..i] + d + s[i + 2..] && TwoDigits(d, 0, n)
    ensures TwoDigits(s, i, n)
  {
    TwoDigitsAt(s[..i], d, s[i + 2..], 0, n);
  }

  lemma TextParts(t: Civil)
    requires t.Valid()
    ensures Text(t) == Decimal(t.year) + "-" + Padded(t.month) + "-" + Padded(t.date) + " " + Padded(t.hours) + ":"
                       + Padded(t.minutes) + ":" + Padded(t.seconds)
  {
    hide Padded, Decimal, Joined;
    var (mo, d, h) := (Padded(t.month), Padded(t.date), Padded(t.hours));
    var (mi, se) := (Padded(t.minutes), Padded(t.seconds));
    assert SEPARATORS[1..] == [' ', ':', ':', NUL] && SEPARATORS[1..][1..] == [':', ':', NUL];
    assert [mo, d, h, mi, se][1..] == [d, h, mi, se] && [d, h, mi, se][1..] == [h, mi, se];
    JoinedTime(h, mi, se);
    JoinedFirst([d, h, mi, se], SEPARATORS[1..]);
    JoinedFirst([mo, d, h, mi, se], SEPARATORS);
  }

  lemma JoinedTime(h: string, mi: string, se: string)
    ensures Joined([h, mi, se], [':', ':', NUL]) == h + ":" + mi + ":" + se
  {
    assert Joined([se], [NUL]) == se;
    assert [mi, se][1..] == [se] && [h, mi, se][1..] == [mi, se];
    assert [':', NUL][1..] == [NUL] && [':', ':', NUL][1..] == [':', NUL];
    JoinedFirst([mi, se], [':', NUL]);
    JoinedFirst([h, mi, se], [':', ':', NUL]);
  }

  lemma JoinedFirst(ds: seq<string>, separators: string)
    requires |ds| == |separators| > 1
    ensures Joined(ds, separators) == ds[0] + ([separators[0]] + Joined(ds[1..], separators[1..]))
  {}

  lemma ShapeOf(y: string, mo: string, d: string, h: string, mi: string, se: string)
    requires |y| == 4 && |mo| == |d| == |h| == |mi| == |se| == 2
    ensures var s := y + "-" + mo + "-" + d + " " + h + ":" + mi + ":" + se;
            && |s| == 19 && s[4] == '-' && s[7] == '-' && s[10] == ' ' && s[13] == ':' && s[16] == ':'
            && s == s[..0] + y + s[4..] && s == s[..5] + mo + s[7..] && s == s[..8] + d + s[10..]
            && s == s[..11] + h + s[13..] && s == s[..14] + mi + s[16..] && s == s[..17] + se + s[19..]
  {
    var s := y + "-" + mo + "-" + d + " " + h + ":" + mi + ":" + se;
    assert s[..4] == y && s[5..7] == mo && s[8..10] == d && s[11..13] == h && s[14..16] == mi && s[17..19] == se;
  }

  /** `d` is a numeral for `n`. */
  ghost predicate Numeral(d: string, n: nat) {
    d != [] && (forall k :: 0 <= k < |d| ==> IsDigit(d[k])) && Value(d, 0, |d|) == n
  }

  lemma {:induction false} ValueShift(front: string, d: string, rest: string, j: nat)
    requires j <= |d| && forall k :: 0 <= k < |d| ==> IsDigit(d[k])
    ensures var s := front + (d + rest); var i := |front|;
            (forall k :: i <= k < i + j ==> IsDigit(s[k])) && Value(s, i, i + j) == Value(d, 0, j)
    decreases j
  {
    if j > 0 {
      ValueShift(front, d, rest, j - 1);
    }
  }

  lemma {:induction false} DecimalIsNumeral(n: nat)
    ensures Numeral(Decimal(n), n)
  {
    if n >= 10 {
      DecimalIsNumeral(n / 10);
      var d, last := Decimal(n / 10), [DigitFor(n % 10)];
      ValueShift([], d, last, |d|);
      assert [] + (d + last) == Decimal(n);
    }
  }

  lemma PaddedIsNumeral(n: nat)
    ensures Numeral(Padded(n), n)
  {
    DecimalIsNumeral(n);
    if n < 10 {
      var d := Padded(n);
      assert d == ['0', DigitFor(n)];
      assert Value(d, 0, 1) == 10 * Value(d, 0, 0) + 0;
      assert Value(d, 0, 2) == 10 * Value(d, 0, 1) + n;
    }
  }

  lemma {:induction false} DigitsEndAt(s: string, i: nat, j: nat)
    requires i <= j <= |s| && (forall k :: i <= k < j ==> IsDigit(s[k])) && !IsDigit(At(s, j))
    ensures DigitsEnd(s, i) == j
    decreases j - i
  {
    if i < j {
      DigitsEndAt(s, i + 1, j);
    }
  }

  predicate Spaces(w: string) { forall k | 0 <= k < |w| :: IsSpace(w[k]) }

  lemma {:induction false} SkipSpaceAt(s: string, i: nat, j: nat)
    requires i <= j <= |s| && Spaces(s[i..j]) && !IsSpace(At(s, j))
    ensures SkipSpace(s, i) == j
    decreases j - i
  {
    if i < j {
      assert IsSpace(s[i..j][0]) && s[i..j][1..] == s[i + 1..j];
      SkipSpaceAt(s, i + 1, j);
    }
  }

  /** The number `strtoul` reads: spaces, a sign or none, and digits up to the first character that is not one. */
  lemma StrtoulMeans(front: string, spaces: string, sign: string, d: string, n: nat, rest: string)
    requires Spaces(spaces) && (sign == "" || sign == "+" || sign == "-")
    requires Numeral(d, n) && !IsDigit(At(rest, 0))
    ensures var s := front + spaces + sign + d + rest;
            Strtoul(s, |front|) ==
            (if n >= 0x1_0000_0000 then 0xFFFF_FFFF
             else if sign == "-" && n > 0 then 0x1_0000_0000 - n else n, |s| - |rest|)
  {
    var s, i := front + spaces + sign + d + rest, |front|;
    hide DigitsEnd, SkipSpace, Value;
    var j, before := i + |spaces|, front + spaces + sign;
    NumberAt(before, d, n, rest);
    assert s == before + (d + rest);
    assert s[i..j] == spaces && At(s, j) == (if sign == "" then d[0] else sign[0]);
    SkipSpaceAt(s, i, j);
  }

  lemma NumberAt(front: string, d: string, n: nat, rest: string)
    requires Numeral(d, n) && !IsDigit(At(rest, 0))
    ensures var s := front + (d + rest); var i, j := |front|, |front| + |d|;
            && DigitsEnd(s, i) == j && d != [] && IsDigit(d[0])
            && (forall k | i <= k < j :: IsDigit(s[k])) && Value(s, i, j) == n
  {
    var s, i := front + (d + rest), |front|;
    ValueShift(front, d, rest, |d|);
    assert At(s, i + |d|) == At(rest, 0);
    DigitsEndAt(s, i, i + |d|);
  }

  /** Without a digit there it reads zero and stays where it was. */
  lemma StrtoulNone(front: string, spaces: string, sign: string, rest: string)
    requires Spaces(spaces) && (sign == "" || sign == "+" || sign == "-") && !IsDigit(At(rest, 0))
    requires sign == "" ==> !IsSpace(At(rest, 0)) && At(rest, 0) != '+' && At(rest, 0) != '-'
    ensures Strtoul(front + spaces + sign + rest, |front|) == (0, |front|)
  {
    var s, i := front + spaces + sign + rest, |front|;
    var j, k := i + |spaces|, i + |spaces| + |sign|;
    assert s[i..j] == spaces && At(s, j) == (if sign == "" then At(rest, 0) else sign[0]);
    SkipSpaceAt(s, i, j);
    assert At(s, k) == At(rest, 0);
    DigitsEndAt(s, k, k);
  }

  /** A numeral followed by its separator is read back, cut to 16 bits, wherever it stands in the text. */
  lemma ScanNumeral(front: string, d: string, n: nat, rest: string, separator: char)
    requires Numeral(d, n) && n < 0x1_0000_0000 && !IsDigit(separator) && At(rest, 0) == separator
    ensures Scan(front + (d + rest), |front|, separator) == Some((n % 0x1_0000, |front| + |d|))
  {
    var s, i := front + (d + rest), |front|;
    ValueShift(front, d, rest, |d|);
    assert At(s, i + |d|) == separator;
    assert IsDigit(s[i]);
    DigitsEndAt(s, i, i + |d|);
  }

  lemma ScanStep(s: string, i: nat, separators: string, n: nat, e: nat, rest: seq<nat>)
    requires i <= |s| && Separate(separators) && |separators| > 1
    requires Scan(s, i, separators[0]) == Some((n, e))
    requires e + 1 <= |s| && Separate(separators[1..]) && ScanAll(s, e + 1, separators[1..]) == Some(rest)
    ensures ScanAll(s, i, separators) == Some([n] + rest)
  {}

  ghost predicate Numerals(ds: seq<string>, ns: seq<nat>) {
    |ds| == |ns| && forall k | 0 <= k < |ds| :: Numeral(ds[k], ns[k]) && ns[k] < 0x1_0000_0000
  }

  /** The numbers cut to 16 bits. */
  function Words(ns: seq<nat>): (ws: seq<nat>)
    ensures |ws| == |ns| && forall k | 0 <= k < |ns| :: ws[k] == ns[k] % 0x1_0000
  {
    seq(|ns|, k requires 0 <= k < |ns| => ns[k] % 0x1_0000)
  }

  lemma {:induction false} ScanJoined(s: string, front: string, ds: seq<string>, ns: seq<nat>, separators: string)
    requires Numerals(ds, ns) && |ns| == |separators| && Separate(separators)
    requires separators[|separators| - 1] == NUL
    requires s == front + Joined(ds, separators)
    ensures ScanAll(s, |front|, separators) == Some(Words(ns))
    decreases |ns|
  {
    hide Scan, Numeral, IsDigit;
    var d, c := ds[0], separators[0];
    if |ns| == 1 {
      assert Joined(ds, separators) == d + [];
      ScanNumeral(front, d, ns[0], [], c);
      assert [ns[0] % 0x1_0000] == Words(ns);
    } else {
      var rest := Joined(ds[1..], separators[1..]);
      ScanNumeral(front, d, ns[0], [c] + rest, c);
      JoinedStep(s, front, d, [c], rest);
      ScanJoined(s, front + d + [c], ds[1..], ns[1..], separators[1..]);
      ScanStep(s, |front|, separators, ns[0] % 0x1_0000, |front| + |d|, Words(ns[1..]));
      assert [ns[0] % 0x1_0000] + Words(ns[1..]) == Words(ns);
    }
  }

  lemma JoinedStep(s: string, front: string, d: string, c: string, rest: string)
    requires s == front + (d + (c + rest))
    ensures s == front + d + c + rest
  {}

  /** What the parser makes of any six numerals below 2^32 with the right separators: the year cut to 16 bits must
      be one of this century, the other fields are cut to eight. */
  lemma ParseNumerals(d: string, y: nat, ds: seq<string>, ns: seq<nat>)
    requires Numeral(d, y) && y < 0x1_0000_0000 && |ds| == 5 && Numerals(ds, ns)
    ensures ParseFields(d + ("-" + Joined(ds, SEPARATORS))) ==
            if 2000 <= y % 0x1_0000 <= 2099
            then Some(Civil(y % 0x1_0000, ns[0] % 256, ns[1] % 256, ns[2] % 256, ns[3] % 256, ns[4] % 256))
            else None
  {
    hide Scan, Numeral, Joined, ScanAll;
    var rest := Joined(ds, SEPARATORS);
    var s := d + ("-" + rest);
    ScanNumeral([], d, y, "-" + rest, '-');
    assert [] + (d + ("-" + rest)) == s;
    JoinedStep(s, [], d, "-", rest);
    ScanJoined(s, [] + d + "-", ds, ns, SEPARATORS);
    forall k | 0 <= k < 5 ensures ns[k] % 0x1_0000 % 256 == ns[k] % 256 {
      ByteOfWord(ns[k]);
    }
  }

  lemma ByteOfWord(n: nat)
    ensures n % 0x1_0000 % 256 == n % 256
  {
    assert n == 256 * (256 * (n / 0x1_0000)) + n % 0x1_0000;
  }

  /** Printing and parsing undo each other, for every date the two-digit year can hold: all six
      fields come back, and the printed year passes the parser's own check. */
  lemma ParseOfText(t: Civil)
    requires t.Valid() && t.year <= 2099
    ensures ParseFields(Text(t)) == Some(t)
  {
    hide Padded, Numeral, Decimal, Joined, ParseFields;
    var ns := [t.month, t.date, t.hours, t.minutes, t.seconds];
    var ds := [Padded(ns[0]), Padded(ns[1]), Padded(ns[2]), Padded(ns[3]), Padded(ns[4])];
    DecimalIsNumeral(t.year);
    forall k | 0 <= k < 5 ensures Numeral(ds[k], ns[k]) {
      PaddedIsNumeral(ns[k]);
    }
    ParseNumerals(Decimal(t.year), t.year, ds, ns);
  }
}
