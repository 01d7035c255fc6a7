/** Sender and receiver together: what `send` writes, `decode` completes; a corrupted sentence it
    does not. */
module NmeaLink {
  import opened Widths
  import opened NmeaTable
  import opened NmeaDecoder

  predicate Plain(c: code) { Printable(c) && c != DOLLAR && c != STAR }

  /** A table a build can use: alphabetical names of moderate length, of printable characters other
      than the three with a meaning of their own. */
  ghost predicate Usable(g: Config, length: nat) {
    && Alphabetical(g.names, length) && 1 <= length <= 250
    && (forall i, j :: 0 <= i < |g.names| && 0 <= j < length ==> Plain(g.names[i][j]) && g.names[i][j] != COMMA)
  }

  /** A sentence without its '$' and checksum: two talker characters, a name, a comma, the fields. */
  datatype Payload = Payload(talker: seq<code>, k: nat, fields: seq<code>)

  ghost predicate Sendable(g: Config, p: Payload) {
    && p.k < |g.names| && |p.talker| == 2
    && (forall i :: 0 <= i < 2 ==> Plain(p.talker[i]) && p.talker[i] != COMMA)
    && (forall i :: 0 <= i < |p.fields| ==> Plain(p.fields[i]))
  }

  ghost function Message(g: Config, p: Payload): seq<code>
    requires p.k < |g.names|
  {
    p.talker + g.names[p.k] + [COMMA] + p.fields
  }

  lemma MessageAt(g: Config, length: nat, p: Payload, i: nat)
    requires Usable(g, length) && Sendable(g, p)
    ensures var m := Message(g, p);
            && |m| == length + 3 + |p.fields|
            && (i < |m| ==> Plain(m[i]))
            && (i < 2 ==> m[i] == p.talker[i])
            && (2 <= i < length + 2 ==> m[i] == g.names[p.k][i - 2])
            && (i == length + 2 ==> m[i] == COMMA)
  {}

  /** The state after the first `i` characters of a message. */
  ghost function Expected(g: Config, length: nat, p: Payload, i: nat): (e: (RxState, nat, nat))
    requires Usable(g, length) && Sendable(g, p)
  {
    if i <= 2 then (Header, i, 0)
    else if i <= length + 2 then (Header, i, First(g.names, g.names[p.k][..i - 2], 0) + 1)
    else (Data, 0, p.k + 1)
  }

  ghost predicate Shaped(g: Config, length: nat, p: Payload, i: nat, t: Rx)
    requires Usable(g, length) && Sendable(g, p)
  {
    var (state, count, msg) := Expected(g, length, p, i);
    t.state == state && t.msg == msg && (state.Header? ==> t.chrCount as int == count)
  }

  ghost predicate AsExpected(g: Config, length: nat, p: Payload, i: nat, t: Rx)
    requires Usable(g, length) && Sendable(g, p) && i <= |Message(g, p)|
  {
    Shaped(g, length, p, i, t) && t.crc == Xor(Message(g, p)[..i])
  }

  lemma TalkerAdvance(g: Config, length: nat, p: Payload, i: nat, t: Rx, c: code)
    requires Usable(g, length) && Sendable(g, p) && Sane(g, t) && i < 2 && Shaped(g, length, p, i, t)
    requires c == p.talker[i]
    ensures Shaped(g, length, p, i + 1, HeaderStep(g, t, c))
  {
    hide Search, First;
  }

  lemma NameAdvance(g: Config, length: nat, p: Payload, i: nat, t: Rx, c: code)
    requires Usable(g, length) && Sendable(g, p) && Sane(g, t) && 2 <= i < length + 2 && Shaped(g, length, p, i, t)
    requires c == g.names[p.k][i - 2] && c != COMMA
    ensures Shaped(g, length, p, i + 1, HeaderStep(g, t, c))
  {
    hide Search;
    var n := g.names[p.k];
    var q := n[..i - 2];
    SearchExtends(g.names, length, q, p.k);
    assert n[..i - 1] == q + [c];
    if i == 2 {
      assert HasPrefix(g.names[0], q);
    }
  }

  lemma CommaAdvance(g: Config, length: nat, p: Payload, t: Rx)
    requires Usable(g, length) && Sendable(g, p) && Sane(g, t) && Shaped(g, length, p, length + 2, t)
    ensures Shaped(g, length, p, length + 3, HeaderStep(g, t, COMMA))
  {
    hide Search, First;
    var n := g.names[p.k];
    assert n[..length] == n;
    FirstOfWholeName(g.names, length, p.k);
  }

  lemma DecodeDataIs(g: Config, t: Rx, c: code)
    requires Sane(g, t) && t.state.Data? && Plain(c)
    ensures Decode(g, t, c) == (t.(crc := t.crc ^ c, chrCount := if c == COMMA then 0 else Incremented(t.chrCount)), Ok)
  {}

  lemma HeaderAdvance(g: Config, length: nat, p: Payload, i: nat, t: Rx)
    requires Usable(g, length) && Sendable(g, p) && Sane(g, t)
    requires i <= length + 2 && i < |Message(g, p)| && Shaped(g, length, p, i, t)
    ensures Message(g, p)[i] != DOLLAR
    ensures Shaped(g, length, p, i + 1, HeaderStep(g, t, Message(g, p)[i]))
  {
    hide HeaderStep, Message, Shaped;
    MessageAt(g, length, p, i);
    var c := Message(g, p)[i];
    if i < 2 {
      TalkerAdvance(g, length, p, i, t, c);
    } else if i < length + 2 {
      NameAdvance(g, length, p, i, t, c);
    } else {
      CommaAdvance(g, length, p, t);
    }
  }

  lemma StepExpected(g: Config, length: nat, p: Payload, i: nat, t: Rx, c: code)
    requires Usable(g, length) && Sendable(g, p) && Sane(g, t)
    requires i < |Message(g, p)| && Shaped(g, length, p, i, t) && c == Message(g, p)[i]
    ensures Decode(g, t, c).1.Ok? && Decode(g, t, c).0.crc == t.crc ^ c
    ensures Shaped(g, length, p, i + 1, Decode(g, t, c).0)
  {
    if i <= length + 2 {
      HeaderAdvance(g, length, p, i, t.(crc := t.crc ^ c));
      DecodeHeaderIs(g, t, c);
    } else {
      MessageAt(g, length, p, i);
      DecodeDataIs(g, t, c);
    }
  }

  lemma RunSnoc(g: Config, s: Rx, a: seq<code>, c: code)
    requires Sane(g, s)
    ensures Run(g, s, a + [c]) == Decode(g, Run(g, s, a), c).0
  {
    assert (a + [c])[..|a|] == a;
  }

  /** The state after every prefix of a message, whatever the parser was doing before the '$'. */
  lemma {:induction false} MessageState(g: Config, length: nat, s: Rx, p: Payload, i: nat)
    requires Usable(g, length) && Sendable(g, p) && Sane(g, s) && i <= |Message(g, p)|
    ensures AsExpected(g, length, p, i, Run(g, s, [DOLLAR] + Message(g, p)[..i]))
    decreases i
  {
    hide Message, Expected, Run, Decode, Usable, Xor;
    var m := Message(g, p);
    if i == 0 {
      StartExpected(g, length, s, p);
    } else {
      var front, c := [DOLLAR] + m[..i - 1], m[i - 1];
      MessageState(g, length, s, p, i - 1);
      assert m[..i] == m[..i - 1] + [c] && [DOLLAR] + m[..i] == front + [c];
      RunSnoc(g, s, front, c);
      StepExpected(g, length, p, i - 1, Run(g, s, front), c);
      XorSnoc(m[..i - 1], c);
    }
  }

  /** Every character of a message is accepted. */
  lemma CharAccepted(g: Config, length: nat, s: Rx, p: Payload, n: nat)
    requires Usable(g, length) && Sendable(g, p) && Sane(g, s) && n <= |Message(g, p)|
    ensures ResultAt(g, s, [DOLLAR] + Message(g, p), n).Ok?
  {
    hide Message, Expected, Run;
    var m := Message(g, p);
    var input := [DOLLAR] + m;
    if n > 0 {
      MessageState(g, length, s, p, n - 1);
      assert input[..n] == [DOLLAR] + m[..n - 1] && input[n] == m[n - 1];
      StepExpected(g, length, p, n - 1, Run(g, s, input[..n]), m[n - 1]);
    }
  }

  lemma StartExpected(g: Config, length: nat, s: Rx, p: Payload)
    requires Usable(g, length) && Sendable(g, p) && Sane(g, s)
    ensures var input := [DOLLAR] + Message(g, p)[..0];
            input == [DOLLAR] && AsExpected(g, length, p, 0, Run(g, s, input))
  {
    var input := [DOLLAR] + Message(g, p)[..0];
    assert input == [DOLLAR] && input[..0] == [];
  }

  /** What `send` writes for a message without a checksum of its own. */
  function Framed(m: seq<code>): seq<code> { [DOLLAR] + m + Trailer(Xor(m)) }

  /** The same with two digits of any kind. */
  function FramedBy(m: seq<code>, h: code, l: code): seq<code> { [DOLLAR] + m + [STAR, h, l, CR, LF] }

  lemma Appended(a: seq<code>, b: seq<code>, i: nat)
    requires i < |b|
    ensures (a + b)[|a| + i] == b[i]
  {}

  lemma TrailerAt(a: seq<code>, h: code, l: code)
    ensures var f := a + [STAR, h, l, CR, LF]; var n := |a|;
            && f[n] == STAR && f[n + 1] == h && f[n + 2] == l && f[n + 3] == CR && f[n + 4] == LF
  {
    var tr := [STAR, h, l, CR, LF];
    Appended(a, tr, 0);
    Appended(a, tr, 1);
    Appended(a, tr, 2);
    Appended(a, tr, 3);
    Appended(a, tr, 4);
  }

  lemma RunNext(g: Config, s: Rx, f: seq<code>, i: nat)
    requires Sane(g, s) && i < |f|
    ensures Run(g, s, f[..i + 1]) == Decode(g, Run(g, s, f[..i]), f[i]).0
  {
    assert f[..i + 1][..i] == f[..i];
  }

  lemma TrailerStates(g: Config, t: Rx, h: code, l: code)
    requires Sane(g, t) && t.state.Data? && Denotes(h, t.crc >> 4) && Denotes(l, t.crc & 0x0F)
    ensures var t0 := t.(state := Crc, chrCount := 0); var t1 := t.(state := Crc, chrCount := 1);
            var t2 := Rx(Idle, t.crc, 1, t.msg, t.msg == g.last);
            && Decode(g, t, STAR) == (t0, Ok)
            && Decode(g, t0, h) == (t1, Ok)
            && Decode(g, t1, l) == (t2, Completed)
  {
    hide ParseHex, Denotes;
    ParseHexMeans(h, t.crc >> 4);
    ParseHexMeans(l, t.crc & 0x0F);
    DollarDenotesNothing();
  }

  lemma DollarDenotesNothing()
    ensures forall v :: !Denotes(DOLLAR, v)
  {}

  /** With any other two characters after the star nothing completes at the second. */
  lemma OtherDigits(g: Config, t: Rx, h: code, l: code)
    requires Sane(g, t) && t.state.Data? && !(Denotes(h, t.crc >> 4) && Denotes(l, t.crc & 0x0F))
    ensures !Decode(g, Decode(g, Decode(g, t, STAR).0, h).0, l).1.Completed?
  {
    hide ParseHex, Denotes, HeaderStep;
    HighNibble(t.crc);
    ParseHexMeans(h, t.crc >> 4);
    ParseHexMeans(l, t.crc & 0x0F);
  }

  lemma IdleIgnores(g: Config, t: Rx, c: code)
    requires Sane(g, t) && t.state.Idle? && c != DOLLAR
    ensures Decode(g, t, c) == (t.(msg := 0), Invalid)
  {}

  lemma StepAt(g: Config, s: Rx, f: seq<code>, i: nat, t: Rx, c: code, u: Rx, r: Result)
    requires Sane(g, s) && Sane(g, t) && i < |f| && Run(g, s, f[..i]) == t && f[i] == c && Decode(g, t, c) == (u, r)
    ensures ResultAt(g, s, f, i) == r && Run(g, s, f[..i + 1]) == u
  {
    hide Decode;
    RunNext(g, s, f, i);
  }

  lemma TrailerSteps(g: Config, s: Rx, f: seq<code>, n: nat, t: Rx)
    requires Sane(g, s) && |f| == n + 5 && t == Run(g, s, f[..n]) && t.state.Data?
    requires f[n] == STAR && Denotes(f[n + 1], t.crc >> 4) && Denotes(f[n + 2], t.crc & 0x0F)
    requires f[n + 3] == CR && f[n + 4] == LF
    ensures ResultAt(g, s, f, n).Ok? && ResultAt(g, s, f, n + 1).Ok? && ResultAt(g, s, f, n + 2).Completed?
    ensures ResultAt(g, s, f, n + 3).Invalid? && ResultAt(g, s, f, n + 4).Invalid?
    ensures Run(g, s, f[..n + 3]) == Rx(Idle, t.crc, 1, t.msg, t.msg == g.last)
  {
    hide Decode, Run, Denotes, ResultAt;
    var t0, t1 := t.(state := Crc, chrCount := 0), t.(state := Crc, chrCount := 1);
    var t2 := Rx(Idle, t.crc, 1, t.msg, t.msg == g.last);
    TrailerStates(g, t, f[n + 1], f[n + 2]);
    StepAt(g, s, f, n, t, STAR, t0, Ok);
    StepAt(g, s, f, n + 1, t0, f[n + 1], t1, Ok);
    StepAt(g, s, f, n + 2, t1, f[n + 2], t2, Completed);
    IdleIgnores(g, t2, CR);
    IdleIgnores(g, t2.(msg := 0), LF);
    StepAt(g, s, f, n + 3, t2, CR, t2.(msg := 0), Invalid);
    StepAt(g, s, f, n + 4, t2.(msg := 0), LF, t2.(msg := 0), Invalid);
  }

  lemma NoStar(g: Config, length: nat, p: Payload)
    requires Usable(g, length) && Sendable(g, p)
    ensures STAR !in Message(g, p)
  {
    forall i | 0 <= i < |Message(g, p)|
      ensures Message(g, p)[i] != STAR
    {
      MessageAt(g, length, p, i);
    }
  }

  lemma FramedPrefix(m: seq<code>, h: code, l: code)
    ensures var f := FramedBy(m, h, l);
            |f| == |m| + 6 && f[..|m| + 1] == [DOLLAR] + m && forall i :: 0 <= i <= |m| ==> f[i] == ([DOLLAR] + m)[i]
  {
    assert FramedBy(m, h, l) == [DOLLAR] + m + [STAR, h, l, CR, LF];
  }

  lemma SentAccepted(g: Config, length: nat, s: Rx, p: Payload, h: code, l: code)
    requires Usable(g, length) && Sendable(g, p) && Sane(g, s)
    ensures var m := Message(g, p); var f := FramedBy(m, h, l); var t := Run(g, s, f[..|m| + 1]);
            && |f| == |m| + 6
            && (forall i :: 0 <= i <= |m| ==> ResultAt(g, s, f, i).Ok?)
            && t.state.Data? && t.crc == Xor(m) && t.msg == p.k + 1
  {
    hide Message, Xor, Decode, Run;
    var m := Message(g, p);
    var a, f := [DOLLAR] + m, FramedBy(m, h, l);
    assert m[..|m|] == m;
    MessageAt(g, length, p, 0);
    MessageState(g, length, s, p, |m|);
    FramedPrefix(m, h, l);
    forall i | 0 <= i <= |m|
      ensures ResultAt(g, s, f, i).Ok?
    {
      assert f[..i] == a[..i];
      CharAccepted(g, length, s, p, i);
    }
  }

  /** From any parser state, for any payload and any usable table: a framed message gives Ok for every character,
      Completed exactly at the second checksum digit with the right sentence type, and the line end is ignored,
      whichever characters stand for the two digits. */
  lemma FramedIsCompleted(g: Config, length: nat, s: Rx, p: Payload, h: code, l: code)
    requires Usable(g, length) && Sendable(g, p) && Sane(g, s)
    requires var x := Xor(Message(g, p)); Denotes(h, x >> 4) && Denotes(l, x & 0x0F)
    ensures Accepted(g, s, p, FramedBy(Message(g, p), h, l))
  {
    hide Message, Xor, Decode, Run, ResultAt, Denotes;
    var m := Message(g, p);
    var f, n := FramedBy(m, h, l), |m| + 1;
    NoStar(g, length, p);
    SentAccepted(g, length, s, p, h, l);
    TrailerAt([DOLLAR] + m, h, l);
    TrailerSteps(g, s, f, n, Run(g, s, f[..n]));
  }

  ghost predicate Accepted(g: Config, s: Rx, p: Payload, f: seq<code>)
    requires Sane(g, s) && p.k < |g.names|
  {
    var m := Message(g, p); var n := |m| + 3;
    && STAR !in m && |f| == n + 3
    && (forall i :: 0 <= i < n ==> ResultAt(g, s, f, i).Ok?)
    && ResultAt(g, s, f, n).Completed?
    && ResultAt(g, s, f, n + 1).Invalid? && ResultAt(g, s, f, n + 2).Invalid?
    && var t := Run(g, s, f[..n + 1]);
       t.state.Idle? && t.msg == p.k + 1 && (t.intervalComplete <==> t.msg == g.last)
  }

  /** And no other two characters complete it. */
  lemma ChecksumAcceptedExactly(g: Config, length: nat, s: Rx, p: Payload, h: code, l: code)
    requires Usable(g, length) && Sendable(g, p) && Sane(g, s)
    ensures var m := Message(g, p); var f := FramedBy(m, h, l);
            && |f| == |m| + 6
            && (ResultAt(g, s, f, |m| + 3).Completed? <==> Denotes(h, Xor(m) >> 4) && Denotes(l, Xor(m) & 0x0F))
  {
    hide Message, Xor, Decode, Run, ResultAt, Denotes, Usable;
    var m := Message(g, p);
    var f, n := FramedBy(m, h, l), |m| + 1;
    if Denotes(h, Xor(m) >> 4) && Denotes(l, Xor(m) & 0x0F) {
      FramedIsCompleted(g, length, s, p, h, l);
    } else {
      SentAccepted(g, length, s, p, h, l);
      TrailerAt([DOLLAR] + m, h, l);
      OtherDigitsAt(g, s, f, n, Run(g, s, f[..n]));
    }
  }

  lemma OtherDigitsAt(g: Config, s: Rx, f: seq<code>, n: nat, t: Rx)
    requires Sane(g, s) && |f| == n + 5 && t == Run(g, s, f[..n]) && t.state.Data? && f[n] == STAR
    requires !(Denotes(f[n + 1], t.crc >> 4) && Denotes(f[n + 2], t.crc & 0x0F))
    ensures !ResultAt(g, s, f, n + 2).Completed?
  {
    hide Decode, Run, ResultAt, Denotes;
    var t0 := Decode(g, t, STAR);
    var t1 := Decode(g, t0.0, f[n + 1]);
    var t2 := Decode(g, t1.0, f[n + 2]);
    OtherDigits(g, t, f[n + 1], f[n + 2]);
    StepAt(g, s, f, n, t, STAR, t0.0, t0.1);
    StepAt(g, s, f, n + 1, t0.0, f[n + 1], t1.0, t1.1);
    StepAt(g, s, f, n + 2, t1.0, f[n + 2], t2.0, t2.1);
  }

  /** Sender to receiver: so for what `send` writes. */
  lemma SentIsCompleted(g: Config, length: nat, s: Rx, p: Payload)
    requires Usable(g, length) && Sendable(g, p) && Sane(g, s)
    ensures Accepted(g, s, p, Framed(Message(g, p))) && Framed(Message(g, p)) == Sent(Message(g, p))
  {
    hide Message, Xor, FormatHex, Denotes, Accepted, Counter, Summed;
    var m := Message(g, p);
    var x := Xor(m);
    FormatHexMeans(x >> 4);
    FormatHexMeans(x);
    HighNibble(x);
    FramedIsCompleted(g, length, s, p, FormatHex(x >> 4), FormatHex(x));
    NoStar(g, length, p);
    CountsFromStar(m);
  }

  // ---- Corruption ----

  /** No character of the input completes a sentence. */
  ghost predicate Silent(g: Config, s: Rx, input: seq<code>)
    requires Sane(g, s)
    decreases |input|
  {
    input != [] ==>
      var front := input[..|input| - 1];
      Silent(g, s, front) && !Decode(g, Run(g, s, front), input[|input| - 1]).1.Completed?
  }

  lemma {:induction false} SilentMeans(g: Config, s: Rx, input: seq<code>, i: nat)
    requires Sane(g, s) && Silent(g, s, input) && i < |input|
    ensures !ResultAt(g, s, input, i).Completed?
    decreases |input|
  {
    hide Decode;
    if i < |input| - 1 {
      var front := input[..|input| - 1];
      SilentMeans(g, s, front, i);
      assert front[..i] == input[..i];
    }
  }

  lemma {:induction false} SilentAppend(g: Config, s: Rx, a: seq<code>, b: seq<code>)
    requires Sane(g, s) && Silent(g, s, a) && Silent(g, Run(g, s, a), b)
    ensures Silent(g, s, a + b)
    decreases |b|
  {
    hide Decode;
    if b == [] {
      assert a + b == a;
    } else {
      var front := b[..|b| - 1];
      SilentAppend(g, s, a, front);
      RunAppend(g, s, a, front);
      assert (a + b)[..|a + b| - 1] == a + front;
    }
  }

  /** An idle parser stays idle until the next '$'. */
  lemma {:induction false} IdleStays(g: Config, t: Rx, rest: seq<code>)
    requires Sane(g, t) && t.state.Idle? && DOLLAR !in rest
    ensures Silent(g, t, rest) && Run(g, t, rest).state.Idle?
    decreases |rest|
  {
    hide Decode;
    if rest != [] {
      var front, c := rest[..|rest| - 1], rest[|rest| - 1];
      IdleStays(g, t, front);
      IdleIgnores(g, Run(g, t, front), c);
    }
  }

  lemma {:induction false} PastTheNames(table: seq<name>, length: nat, i: nat, at: nat, c: code)
    requires i < |table| && at >= length && c != 0
    requires forall k :: 0 <= k < |table| ==> |table[k]| == length
    ensures Search(table, i, at, c).None?
    decreases |table| - i
  {
    if i + 1 < |table| {
      PastTheNames(table, length, i + 1, at, c);
    }
  }

  /** Where the parser can be after a '$' and some characters without a '$' or a '*': never at the
      checksum, with the checksum of exactly those characters, and in the header only while they fit. */
  ghost predicate Wandering(length: nat, t: Rx, q: seq<code>) {
    && !t.state.Crc?
    && (!t.state.Idle? ==> t.crc == Xor(q))
    && (t.state.Header? ==> t.chrCount as int == |q| <= length + 2)
  }

  lemma HeaderWanders(g: Config, length: nat, t: Rx, n: nat, c: code)
    requires Usable(g, length) && Sane(g, t) && t.state.Header? && t.chrCount as int == n <= length + 2 && c != 0
    ensures var u := HeaderStep(g, t, c); u.state.Header? ==> u.chrCount as int == n + 1 <= length + 2
  {
    hide Search, Plain, Printable;
    if n == length + 2 {
      PastTheNames(g.names, length, if t.msg == 0 then 0 else t.msg - 1, length, c);
    }
  }

  lemma HeaderWanderStep(g: Config, length: nat, t: Rx, q: seq<code>, c: code)
    requires Usable(g, length) && Sane(g, t) && Wandering(length, t, q) && t.state.Header? && Plain(c)
    ensures Wandering(length, HeaderStep(g, t.(crc := t.crc ^ c), c), q + [c])
  {
    hide Xor, Usable, ParseCommand;
    XorSnoc(q, c);
    HeaderWanders(g, length, t.(crc := t.crc ^ c), |q|, c);
  }

  lemma DataWanderStep(g: Config, length: nat, t: Rx, q: seq<code>, c: code)
    requires Sane(g, t) && Wandering(length, t, q) && t.state.Data? && Plain(c)
    ensures var (u, r) := Decode(g, t, c); r.Ok? && Wandering(length, u, q + [c])
  {
    hide Decode, Xor, Plain;
    DecodeDataIs(g, t, c);
    XorSnoc(q, c);
  }

  lemma IdleWanderStep(g: Config, length: nat, t: Rx, q: seq<code>, c: code)
    requires Sane(g, t) && t.state.Idle? && c != DOLLAR
    ensures var (u, r) := Decode(g, t, c); r.Invalid? && Wandering(length, u, q + [c])
  {
    hide Decode, Xor;
    IdleIgnores(g, t, c);
  }

  lemma WanderStep(g: Config, length: nat, t: Rx, q: seq<code>, c: code, u: Rx, r: Result)
    requires Usable(g, length) && Sane(g, t) && Wandering(length, t, q) && Plain(c) && Decode(g, t, c) == (u, r)
    ensures !r.Completed? && Wandering(length, u, q + [c])
  {
    hide HeaderStep, Decode, Xor, Usable;
    if t.state.Header? {
      hide Wandering;
      DecodeHeaderIs(g, t, c);
      HeaderWanderStep(g, length, t, q, c);
    } else if t.state.Data? {
      hide Wandering;
      DataWanderStep(g, length, t, q, c);
    } else {
      IdleWanderStep(g, length, t, q, c);
    }
  }

  lemma SilentSnoc(g: Config, s: Rx, a: seq<code>, c: code)
    requires Sane(g, s) && Silent(g, s, a) && !Decode(g, Run(g, s, a), c).1.Completed?
    ensures Silent(g, s, a + [c])
  {
    hide Decode, Run;
    assert (a + [c])[..|a|] == a;
  }

  lemma {:induction false} Wander(g: Config, length: nat, s: Rx, q: seq<code>)
    requires Usable(g, length) && Sane(g, s) && forall i :: 0 <= i < |q| ==> Plain(q[i])
    ensures Silent(g, s, [DOLLAR] + q) && Wandering(length, Run(g, s, [DOLLAR] + q), q)
    decreases |q|
  {
    hide Usable, Plain, Xor;
    if q == [] {
      assert [DOLLAR] + q == [DOLLAR] && [DOLLAR][..0] == [];
      WanderStart(g, length, s);
    } else {
      hide Decode, Run, Silent, Wandering;
      var front, c := q[..|q| - 1], q[|q| - 1];
      Wander(g, length, s, front);
      assert front + [c] == q && [DOLLAR] + q == ([DOLLAR] + front) + [c];
      var t := Run(g, s, [DOLLAR] + front);
      RunSnoc(g, s, [DOLLAR] + front, c);
      SilentSnoc(g, s, [DOLLAR] + front, c);
      WanderStep(g, length, t, front, c, Decode(g, t, c).0, Decode(g, t, c).1);
    }
  }

  lemma WanderStart(g: Config, length: nat, s: Rx)
    requires Sane(g, s)
    ensures [DOLLAR][..0] == []
    ensures Decode(g, s, DOLLAR) == (Rx(Header, 0, 0, 0, false), Ok)
    ensures Wandering(length, Rx(Header, 0, 0, 0, false), [])
  {}

  /** The checksum as it is sent. */
  function Digits(v: code): seq<code> { [STAR, FormatHex(v >> 4), FormatHex(v)] }

  /** A checksum that does not match leaves the parser idle, with nothing completed. */
  lemma WrongChecksum(g: Config, t: Rx, x: code)
    requires Sane(g, t) && (t.state.Idle? || (t.state.Data? && t.crc != x))
    ensures Silent(g, t, Digits(x)) && Run(g, t, Digits(x)).state.Idle?
  {
    hide FormatHex;
    HexRoundTrip(x >> 4);
    HexRoundTrip(x);
    HighNibble(x);
    var h, l := FormatHex(x >> 4), FormatHex(x);
    if t.state.Idle? {
      IdleStays(g, t, [STAR, h, l]);
    } else {
      NibblesDiffer(t.crc, x);
      var (t0, r0) := Decode(g, t, STAR);
      var (t1, r1) := Decode(g, t0, h);
      var (t2, r2) := Decode(g, t1, l);
      assert t0.state.Crc? && t0.chrCount == 0 && t0.crc == t.crc && !r0.Completed?;
      ThreeSteps(g, t, STAR, h, l, t0, t1, t2, r0, r1, r2);
    }
  }

  lemma ThreeSteps(g: Config, t: Rx, a: code, b: code, c: code,
                   t0: Rx, t1: Rx, t2: Rx, r0: Result, r1: Result, r2: Result)
    requires Sane(g, t) && Sane(g, t0) && Sane(g, t1)
    requires Decode(g, t, a) == (t0, r0) && Decode(g, t0, b) == (t1, r1) && Decode(g, t1, c) == (t2, r2)
    requires !r0.Completed? && !r1.Completed? && !r2.Completed?
    ensures Run(g, t, [a, b, c]) == t2 && Silent(g, t, [a, b, c])
  {
    hide Decode, Run, Silent;
    assert [] + [a] == [a] && [a] + [b] == [a, b] && [a, b] + [c] == [a, b, c];
    OneStep(g, t, [], a, t, t0, r0);
    OneStep(g, t, [a], b, t0, t1, r1);
    OneStep(g, t, [a, b], c, t1, t2, r2);
  }

  lemma OneStep(g: Config, s: Rx, input: seq<code>, c: code, t: Rx, u: Rx, r: Result)
    requires Sane(g, s) && Sane(g, t) && (if input == [] then t == s else Run(g, s, input) == t && Silent(g, s, input))
    requires Decode(g, t, c) == (u, r) && !r.Completed?
    ensures Run(g, s, input + [c]) == u && Silent(g, s, input + [c])
  {
    hide Decode;
    SilentSnoc(g, s, input, c);
    RunSnoc(g, s, input, c);
  }

  lemma {:induction false} XorReplaced(m: seq<code>, i: nat, x: code)
    requires i < |m|
    ensures Xor(m[i := x]) == Xor(m) ^ (m[i] ^ x)
    decreases |m|
  {
    var n := |m| - 1;
    var r := m[i := x];
    if i == n {
      assert r[..n] == m[..n];
      CancelReplaced(Xor(m[..n]), m[i], x);
    } else {
      assert r[..n] == m[..n][i := x];
      XorReplaced(m[..n], i, x);
      SwapXor(Xor(m[..n]), m[i] ^ x, m[n]);
    }
  }

  lemma CancelReplaced(a: code, y: code, x: code)
    ensures a ^ x == (a ^ y) ^ (y ^ x)
  {}

  lemma SwapXor(a: code, d: code, c: code)
    ensures (a ^ d) ^ c == (a ^ c) ^ d
  {}

  lemma Changes(a: code, y: code, x: code)
    requires y != x
    ensures a ^ (y ^ x) != a
  {}

  /** A long enough text with the wrong checksum completes nothing and leaves the parser idle. */
  lemma MismatchSilent(g: Config, length: nat, s: Rx, q: seq<code>, v: code)
    requires Usable(g, length) && Sane(g, s) && |q| >= length + 3 && Xor(q) != v
    requires forall i :: 0 <= i < |q| ==> Plain(q[i])
    ensures var f := [DOLLAR] + q + Digits(v);
            Silent(g, s, f) && Run(g, s, f).state.Idle?
  {
    hide Xor, Decode, Plain, FormatHex;
    var a := [DOLLAR] + q;
    Wander(g, length, s, q);
    WrongChecksum(g, Run(g, s, a), v);
    SilentAppend(g, s, a, Digits(v));
    RunAppend(g, s, a, Digits(v));
  }

  lemma ReplacedPlain(g: Config, length: nat, p: Payload, i: nat, x: code)
    requires Usable(g, length) && Sendable(g, p) && i < |Message(g, p)| && Plain(x) && x != Message(g, p)[i]
    ensures var m := Message(g, p); var q := m[i := x];
            |q| >= length + 3 && Xor(q) != Xor(m) && forall n :: 0 <= n < |q| ==> Plain(q[n])
  {
    hide Message, Xor, Plain;
    var m := Message(g, p);
    forall n | 0 <= n < |m|
      ensures Plain(m[n])
    {
      MessageAt(g, length, p, n);
    }
    MessageAt(g, length, p, 0);
    XorReplaced(m, i, x);
    Changes(Xor(m), m[i], x);
  }

  /** Error detection, for every position of the message, its header included: when one character is
      replaced by any other printable character that is not '$' or '*', no character of the sentence,
      and none after it up to the next '$', completes a sentence. */
  lemma CorruptionDetected(g: Config, length: nat, s: Rx, p: Payload, i: nat, x: code, rest: seq<code>)
    requires Usable(g, length) && Sendable(g, p) && Sane(g, s) && DOLLAR !in rest
    requires i < |Message(g, p)| && Plain(x) && x != Message(g, p)[i]
    ensures var m := Message(g, p); Silent(g, s, [DOLLAR] + m[i := x] + Digits(Xor(m)) + rest)
  {
    hide Message, Xor, Decode, Plain, Digits;
    var m := Message(g, p);
    var f := [DOLLAR] + m[i := x] + Digits(Xor(m));
    ReplacedPlain(g, length, p, i, x);
    MismatchSilent(g, length, s, m[i := x], Xor(m));
    IdleStays(g, Run(g, s, f), rest);
    SilentAppend(g, s, f, rest);
  }

  /** The build's own table, with RMC ending an interval, is usable. */
  const BUILD := Config(NAMES, 6)

  lemma BuildUsable()
    ensures Usable(BUILD, 3)
    ensures NAMES[BUILD.last - 1] == [0x52, 0x4D, 0x43]
  {
    NamesAlphabetical();
    forall i, j | 0 <= i < |NAMES| && 0 <= j < 3
      ensures Plain(NAMES[i][j]) && NAMES[i][j] != COMMA
    {
      assert NAMES[i] == NAMES[0] || NAMES[i] == NAMES[1] || NAMES[i] == NAMES[2] || NAMES[i] == NAMES[3]
          || NAMES[i] == NAMES[4] || NAMES[i] == NAMES[5] || NAMES[i] == NAMES[6] || NAMES[i] == NAMES[7];
    }
  }
}
