/** The receiver's character-at-a-time state machine (`NMEAGPS::decode`), and the sender (`send`). */
module NmeaDecoder {
  import opened Widths
  import opened Options
  import opened NmeaTable

  const DOLLAR: code := 0x24
  const STAR: code := 0x2A
  const COMMA: code := 0x2C
  const CR: code := 0x0D
  const LF: code := 0x0A

  predicate Printable(c: code) { 0x20 <= c <= 0x7E }

  /** `parseHEX`: case is folded by setting bit 5; nothing checks that the character is a hex digit. */
  function ParseHex(c: code): code {
    var a := c | 0x20;
    if 0x61 <= a <= 0x66 then a - 0x61 + 10 else a - 0x30
  }

  /** `formatHex`. */
  function FormatHex(v: code): code {
    var n := v & 0x0F;
    if n >= 10 then n - 10 + 0x41 else n + 0x30
  }

  /** The characters that stand for a digit of the checksum: '0' to '9', 'A' to 'F' and 'a' to 'f', and besides
      them ':' to '?', which follow '9' up to 15, and the control characters 0x10 to 0x1F. */
  predicate Denotes(c: code, v: code) {
    || (0x30 <= c <= 0x39 && v == c - 0x30)
    || (0x41 <= c <= 0x46 && v == c - 0x37)
    || (0x61 <= c <= 0x66 && v == c - 0x57)
    || (0x3A <= c <= 0x3F && v == c - 0x30)
    || (0x10 <= c <= 0x1F && v == c - 0x10)
  }

  /** No other character comes out at 15 or less. */
  lemma ParseHexMeans(c: code, v: code)
    ensures Denotes(c, v) <==> ParseHex(c) == v && v <= 15
  {}

  /** What is sent is a decimal digit or a capital letter, and stands for the low nibble. */
  lemma FormatHexMeans(v: code)
    ensures var c := FormatHex(v); (0x30 <= c <= 0x39 || 0x41 <= c <= 0x46) && Denotes(c, v & 0x0F)
  {}

  lemma HexRoundTrip(v: code)
    ensures ParseHex(FormatHex(v)) == v & 0x0F
    ensures Printable(FormatHex(v)) && FormatHex(v) != DOLLAR
  {}

  lemma NibblesDiffer(a: code, b: code)
    requires a != b
    ensures a >> 4 != b >> 4 || a & 0x0F != b & 0x0F
  {}

  lemma HighNibble(x: code)
    ensures (x >> 4) & 0x0F == x >> 4 && x >> 4 <= 15 && x & 0x0F <= 15
  {}

  /** The checksum. */
  function Xor(p: seq<code>): code {
    if p == [] then 0 else Xor(p[..|p| - 1]) ^ p[|p| - 1]
  }

  datatype RxState = Idle | Header | Data | Crc
  datatype Result = Invalid | Ok | Completed

  /** The parser's state. `msg` is 0 while the sentence type is unknown, else one more than the index
      of a name. What the field parsers keep is not part of it: in this build (no validation) they
      accept every character and never touch these members. */
  datatype Rx = Rx(state: RxState, crc: code, chrCount: uint8, msg: nat, intervalComplete: bool)

  /** The names, and the message that ends an interval. */
  datatype Config = Config(names: seq<name>, last: nat)

  ghost predicate Sane(g: Config, s: Rx) { 0 < |g.names| < 256 && s.msg <= |g.names| }

  /** `parseCommand`: Ok with the message so far, Completed at the comma, or Invalid. */
  function ParseCommand(g: Config, s: Rx, c: code): (r: (Result, nat))
    requires 0 < |g.names| && s.msg <= |g.names|
    ensures r.1 <= |g.names| && (r.0.Completed? ==> r.1 == s.msg > 0)
  {
    if c == COMMA then (if s.msg == 0 then Invalid else Completed, s.msg)
    else if s.chrCount < 2 then (Ok, s.msg)
    else
      match Search(g.names, if s.msg == 0 then 0 else s.msg - 1, s.chrCount as int - 2, c)
      case Some(entry) => (Ok, entry + 1)
      case None => (Invalid, s.msg)
  }

  /** What becomes of the header after one more character, already in the checksum. */
  function HeaderStep(g: Config, s: Rx, c: code): (t: Rx)
    requires Sane(g, s) && s.state.Header?
    ensures Sane(g, t) && !t.state.Crc? && t.crc == s.crc
  {
    var (res, msg) := ParseCommand(g, s, c);
    match res
    case Ok => s.(chrCount := Incremented(s.chrCount), msg := msg)
    case Completed => s.(state := Data, chrCount := 0)
    case Invalid => s.(state := Idle, msg := 0)
  }

  /** `decode`. */
  function Decode(g: Config, s: Rx, c: code): (r: (Rx, Result))
    requires Sane(g, s)
    ensures Sane(g, r.0)
  {
    if c == DOLLAR then (Rx(Header, 0, 0, 0, false), Ok)
    else
      match s.state
      case Data =>
        if c == STAR then (s.(state := Crc, chrCount := 0), Ok)
        else if Printable(c) then
          (s.(crc := s.crc ^ c, chrCount := if c == COMMA then 0 else Incremented(s.chrCount)), Ok)
        else (s.(state := Idle, msg := 0), Invalid)
      case Header =>
        (HeaderStep(g, s.(crc := s.crc ^ c), c), Ok)
      case Crc =>
        if s.chrCount == 0 then
          if s.crc >> 4 == ParseHex(c) then (s.(chrCount := 1), Ok)
          else (s.(state := Idle, chrCount := 1, msg := 0), Ok)
        else if s.crc & 0x0F == ParseHex(c) then
          (s.(state := Idle, intervalComplete := s.msg == g.last), Completed)
        else (s.(state := Idle, msg := 0), Ok)
      case Idle => (s.(msg := 0), Invalid)
  }

  /** In the fields a character is refused exactly when it is not a printable one, and that drops the sentence. */
  lemma FieldCharacters(g: Config, s: Rx, c: code)
    requires Sane(g, s) && s.state.Data?
    ensures var (t, r) := Decode(g, s, c);
            && (c < 0x20 || c > 0x7E <==> r.Invalid?) && (r.Invalid? <==> t.state.Idle?)
            && (t.state.Crc? <==> c == 0x2A) && (t.state.Header? <==> c == 0x24)
  {}

  /** A sentence that is dropped leaves no sentence type behind. */
  lemma DroppedForgets(g: Config, s: Rx, c: code)
    requires Sane(g, s)
    ensures var (t, r) := Decode(g, s, c); t.state.Idle? && !r.Completed? ==> t.msg == 0
  {
    hide Search, ParseHex;
  }

  /** The receiver object. */
  class Receiver {
    const config: Config
    var rxState: RxState
    var crc: code
    var chrCount: uint8
    var nmeaMessage: nat
    var intervalComplete: bool

    function State(): Rx
      reads this
    {
      Rx(rxState, crc, chrCount, nmeaMessage, intervalComplete)
    }

    constructor (config: Config)
      ensures this.config == config && rxState.Idle? && nmeaMessage == 0
    {
      this.config := config;
      rxState, crc, chrCount, nmeaMessage, intervalComplete := Idle, 0, 0, 0, false;
    }

    method SentenceBegin()
      modifies this
      ensures State() == Rx(Header, 0, 0, 0, false)
    {
      if intervalComplete {
        intervalComplete := false;
      }
      crc, nmeaMessage, rxState, chrCount := 0, 0, Header, 0;
    }

    method SentenceInvalid()
      modifies this`nmeaMessage, this`rxState
      ensures State() == old(State()).(state := Idle, msg := 0)
    {
      nmeaMessage, rxState := 0, Idle;
    }

    /** The search stores the entry it stops at. */
    method ParseCommandChar(c: code) returns (res: Result)
      requires Sane(config, State())
      modifies this`nmeaMessage
      ensures res == ParseCommand(config, old(State()), c).0 && nmeaMessage == ParseCommand(config, old(State()), c).1
    {
      if c == COMMA {
        return if nmeaMessage == 0 then Invalid else Completed;
      }
      if chrCount < 2 {
        return Ok;
      }
      var entry: uint8 := 0;
      if nmeaMessage != 0 {
        entry := (nmeaMessage - 1) as uint8;
      }
      var found := SearchLoop(config.names, entry, chrCount as int - 2, c);
      if found.None? {
        return Invalid;
      }
      nmeaMessage := found.value + 1;
      res := Ok;
    }

    /** The branches of `decode`, one for each state. */
    method DataChar(c: code) returns (res: Result)
      requires Sane(config, State()) && rxState.Data? && c != DOLLAR
      modifies this
      ensures State() == Decode(config, old(State()), c).0 && res == Decode(config, old(State()), c).1
    {
      hide ParseHex, Printable, ParseCommand;
      res := Ok;
      if c == STAR {
        rxState, chrCount := Crc, 0;
      } else if Printable(c) {
        crc := crc ^ c;
        chrCount := if c == COMMA then 0 else Incremented(chrCount);
      } else {
        SentenceInvalid();
        res := Invalid;
      }
    }

    method HeaderChar(c: code) returns (res: Result)
      requires Sane(config, State()) && rxState.Header? && c != DOLLAR
      modifies this
      ensures State() == Decode(config, old(State()), c).0 && res == Decode(config, old(State()), c).1
    {
      hide HeaderStep;
      res := Ok;
      crc := crc ^ c;
      NameChar(c);
    }

    method NameChar(c: code)
      requires Sane(config, State()) && rxState.Header?
      modifies this
      ensures State() == HeaderStep(config, old(State()), c)
    {
      hide ParseCommand;
      var cmd := ParseCommandChar(c);
      if cmd.Ok? {
        chrCount := Incremented(chrCount);
      } else if cmd.Completed? {
        chrCount, rxState := 0, Data;
      } else {
        SentenceInvalid();
      }
    }

    method CrcChar(c: code) returns (res: Result)
      requires Sane(config, State()) && rxState.Crc? && c != DOLLAR
      modifies this
      ensures State() == Decode(config, old(State()), c).0 && res == Decode(config, old(State()), c).1
    {
      hide ParseHex, Printable, ParseCommand;
      res := Ok;
      var nybble := ParseHex(c);
      var err: bool;
      if chrCount == 0 {
        chrCount := 1;
        err := crc >> 4 != nybble;
      } else {
        err := crc & 0x0F != nybble;
        if !err {
          intervalComplete := nmeaMessage == config.last;
          rxState := Idle;
          res := Completed;
        }
      }
      if err {
        SentenceInvalid();
      }
    }

    /** `decode`: a '$' restarts from any state. */
    method DecodeChar(c: code) returns (res: Result)
      requires Sane(config, State())
      modifies this
      ensures State() == Decode(config, old(State()), c).0 && res == Decode(config, old(State()), c).1
      ensures Sane(config, State())
    {
      if c == DOLLAR {
        SentenceBegin();
        res := Ok;
      } else if rxState.Data? {
        res := DataChar(c);
      } else if rxState.Header? {
        res := HeaderChar(c);
      } else if rxState.Crc? {
        res := CrcChar(c);
      } else {
        res := Invalid;
        nmeaMessage := 0;
      }
    }
  }

  // ---- Whole inputs ----

  function Run(g: Config, s: Rx, input: seq<code>): (t: Rx)
    requires Sane(g, s)
    ensures Sane(g, t)
  {
    if input == [] then s else Decode(g, Run(g, s, input[..|input| - 1]), input[|input| - 1]).0
  }

  /** What `decode` returns for character `i` of the input. */
  function ResultAt(g: Config, s: Rx, input: seq<code>, i: nat): Result
    requires Sane(g, s) && i < |input|
  {
    Decode(g, Run(g, s, input[..i]), input[i]).1
  }

  lemma {:induction false} RunAppend(g: Config, s: Rx, a: seq<code>, b: seq<code>)
    requires Sane(g, s)
    ensures Run(g, s, a + b) == Run(g, Run(g, s, a), b)
    decreases |b|
  {
    if b == [] {
      assert a + b == a;
    } else {
      var front := b[..|b| - 1];
      assert (a + b)[..|a + b| - 1] == a + front;
      RunAppend(g, s, a, front);
    }
  }

  lemma RunOne(g: Config, s: Rx, c: code)
    requires Sane(g, s)
    ensures Run(g, s, [c]) == Decode(g, s, c).0
  {
    assert [c][..0] == [];
  }

  lemma {:induction false} XorAppend(a: seq<code>, b: seq<code>)
    ensures Xor(a + b) == Xor(a) ^ Xor(b)
    decreases |b|
  {
    if b == [] {
      assert a + b == a;
    } else {
      var front := b[..|b| - 1];
      assert (a + b)[..|a + b| - 1] == a + front;
      XorAppend(a, front);
      XorGroup(Xor(a), Xor(front), b[|b| - 1]);
    }
  }

  lemma XorSnoc(p: seq<code>, c: code)
    ensures Xor(p + [c]) == Xor(p) ^ c
  {
    assert (p + [c])[..|p|] == p;
  }

  lemma XorGroup(x: code, y: code, z: code)
    ensures (x ^ y) ^ z == x ^ (y ^ z)
  {}

  /** What has come in since the last '$'. */
  function Tail(input: seq<code>): (t: seq<code>)
    ensures |t| <= |input| && input[|input| - |t|..] == t
    ensures DOLLAR !in t
  {
    if input == [] || input[|input| - 1] == DOLLAR then []
    else
      var t := Tail(input[..|input| - 1]) + [input[|input| - 1]];
      t
  }

  lemma TailSnoc(front: seq<code>, c: code)
    requires c != DOLLAR
    ensures Tail(front + [c]) == Tail(front) + [c]
  {
    assert (front + [c])[..|front|] == front;
  }

  ghost predicate Started(input: seq<code>) { DOLLAR in input }

  lemma {:induction false} TailStart(input: seq<code>)
    requires Started(input)
    ensures var t := Tail(input);
            |t| < |input| && input[|input| - |t| - 1] == DOLLAR
  {
    var n := |input| - 1;
    if input[n] != DOLLAR {
      var front := input[..n];
      assert input == front + [input[n]];
      TailStart(front);
      TailSnoc(front, input[n]);
    }
  }

  /** How many characters have come in since the last comma. */
  function SinceComma(t: seq<code>): (n: nat)
    ensures n <= |t|
  {
    if t == [] || t[|t| - 1] == COMMA then 0 else 1 + SinceComma(t[..|t| - 1])
  }

  lemma SinceCommaSnoc(t: seq<code>, c: code)
    ensures SinceComma(t + [c]) == if c == COMMA then 0 else 1 + SinceComma(t)
  {
    assert (t + [c])[..|t|] == t;
  }

  /** What the state says about the input since the last '$': its checksum, and the place in the header or in the
      field, counted in eight bits. */
  ghost predicate Tracks(s: Rx, t: seq<code>) {
    match s.state
    case Idle => true
    case Header => s.crc == Xor(t) && s.chrCount as int == |t| % 256
    case Data => s.crc == Xor(t) && s.chrCount as int == SinceComma(t) % 256
    case Crc =>
      if s.chrCount == 0 then
        |t| >= 1 && t[|t| - 1] == STAR && s.crc == Xor(t[..|t| - 1])
      else
        |t| >= 2 && t[|t| - 2] == STAR && s.crc == Xor(t[..|t| - 2]) && Denotes(t[|t| - 1], s.crc >> 4)
  }

  lemma DecodeHeaderIs(g: Config, t: Rx, c: code)
    requires Sane(g, t) && t.state.Header? && c != DOLLAR
    ensures Decode(g, t, c) == (HeaderStep(g, t.(crc := t.crc ^ c), c), Ok)
  {
    hide HeaderStep;
  }

  lemma HeaderTracks(g: Config, s: Rx, t: seq<code>, c: code)
    requires Sane(g, s) && Tracks(s, t) && c != DOLLAR && s.state.Header?
    ensures Tracks(Decode(g, s, c).0, t + [c])
  {
    hide Decode, HeaderStep, Xor, SinceComma, Incremented;
    DecodeHeaderIs(g, s, c);
    HeaderOutcome(g, s.(crc := s.crc ^ c), c);
    XorSnoc(t, c);
    SinceCommaSnoc(t, c);
    CountUp(|t|, s.chrCount);
  }

  lemma CountUp(n: nat, k: uint8)
    requires k as int == n % 256
    ensures Incremented(k) as int == (n + 1) % 256
  {}

  lemma HeaderOutcome(g: Config, s: Rx, c: code)
    requires Sane(g, s) && s.state.Header?
    ensures var u := HeaderStep(g, s, c);
            && u.crc == s.crc && !u.state.Crc?
            && (u.state.Header? ==> u.chrCount == Incremented(s.chrCount))
            && (u.state.Data? ==> c == COMMA && u.chrCount == 0)
  {
    hide Search;
  }

  lemma DataTracks(g: Config, s: Rx, t: seq<code>, c: code)
    requires Sane(g, s) && Tracks(s, t) && c != DOLLAR && s.state.Data?
    ensures Tracks(Decode(g, s, c).0, t + [c])
  {
    hide Printable, Xor, SinceComma, Incremented;
    SinceCommaSnoc(t, c);
    CountUp(SinceComma(t), s.chrCount);
    if c == STAR {
      assert (t + [c])[..|t|] == t;
    } else if Printable(c) {
      XorSnoc(t, c);
    }
  }

  lemma CrcTracks(g: Config, s: Rx, t: seq<code>, c: code)
    requires Sane(g, s) && Tracks(s, t) && c != DOLLAR && s.state.Crc?
    ensures Tracks(Decode(g, s, c).0, t + [c])
  {
    hide ParseHex, Denotes, Xor;
    ParseHexMeans(c, s.crc >> 4);
    HighNibble(s.crc);
    if s.chrCount == 0 {
      assert (t + [c])[..|t| - 1] == t[..|t| - 1];
    }
  }

  lemma TracksStep(g: Config, s: Rx, t: seq<code>, c: code)
    requires Sane(g, s) && Tracks(s, t) && c != DOLLAR
    ensures Tracks(Decode(g, s, c).0, t + [c])
  {
    match s.state
    case Idle =>
    case Header => HeaderTracks(g, s, t, c);
    case Data => DataTracks(g, s, t, c);
    case Crc => CrcTracks(g, s, t, c);
  }

  lemma NothingTracked(g: Config, s0: Rx)
    requires Sane(g, s0) && s0.state.Idle?
    ensures Run(g, s0, []) == s0 && Tracks(s0, Tail([]))
  {}

  lemma RunLast(g: Config, s0: Rx, input: seq<code>)
    requires Sane(g, s0) && input != []
    ensures var n := |input| - 1; Run(g, s0, input) == Decode(g, Run(g, s0, input[..n]), input[n]).0
  {
    hide Decode;
  }

  lemma DollarTracks(g: Config, s: Rx, front: seq<code>)
    requires Sane(g, s)
    ensures Tracks(Decode(g, s, DOLLAR).0, Tail(front + [DOLLAR]))
  {}

  lemma IdleUntilDollar(g: Config, s: Rx, c: code)
    requires Sane(g, s) && c != DOLLAR && s.state.Idle?
    ensures Decode(g, s, c).0.state.Idle?
  {}

  lemma TracksSnoc(g: Config, s: Rx, front: seq<code>, c: code)
    requires Sane(g, s) && Tracks(s, Tail(front)) && (!s.state.Idle? ==> Started(front))
    ensures var u := Decode(g, s, c).0;
            Tracks(u, Tail(front + [c])) && (!u.state.Idle? ==> Started(front + [c]))
  {
    hide Tracks, Decode, Tail;
    if c == DOLLAR {
      DollarTracks(g, s, front);
    } else {
      TailSnoc(front, c);
      TracksStep(g, s, Tail(front), c);
      if s.state.Idle? {
        IdleUntilDollar(g, s, c);
      }
    }
  }

  /** Over every run from an idle parser: outside a sentence nothing is claimed, inside one a '$' has
      come in and the state describes exactly what followed it. */
  lemma {:induction false} RunTracks(g: Config, s0: Rx, input: seq<code>)
    requires Sane(g, s0) && s0.state.Idle?
    ensures var s := Run(g, s0, input);
            Tracks(s, Tail(input)) && (!s.state.Idle? ==> Started(input))
  {
    hide Tracks, Decode, Tail, Run, Started;
    if input == [] {
      NothingTracked(g, s0);
    } else {
      var n := |input| - 1;
      var front, c := input[..n], input[n];
      RunTracks(g, s0, front);
      RunLast(g, s0, input);
      TracksSnoc(g, Run(g, s0, front), front, c);
      assert front + [c] == input;
    }
  }

  /** Safety over every run: whenever `decode` reports a completed sentence, the input so far ends in
      '$' p '*' h1 h2 with no '$' in p, and h1 and h2 stand for the two halves of the checksum of p. */
  lemma CompletedMeans(g: Config, s0: Rx, input: seq<code>)
    requires Sane(g, s0) && s0.state.Idle? && input != []
    requires ResultAt(g, s0, input, |input| - 1).Completed?
    ensures var t := Tail(input); var n := |t| - 3;
            && n >= 0 && |t| < |input| && input[|input| - |t| - 1] == DOLLAR && input[|input| - |t|..] == t
            && DOLLAR !in t && t[n] == STAR
            && Denotes(t[n + 1], Xor(t[..n]) >> 4) && Denotes(t[n + 2], Xor(t[..n]) & 0x0F)
  {
    hide Denotes, Decode, Run, Tail, Tracks, Xor;
    var front, c := input[..|input| - 1], input[|input| - 1];
    RunTracks(g, s0, front);
    CompletedFrom(g, Run(g, s0, front), Tail(front), c);
    assert input == front + [c];
    TailStart(input);
    TailSnoc(front, c);
  }

  lemma CompletedFrom(g: Config, s: Rx, t: seq<code>, c: code)
    requires Sane(g, s) && Tracks(s, t) && Decode(g, s, c).1.Completed?
    ensures c != DOLLAR && !s.state.Idle? && |t| >= 2
    ensures var u := t + [c]; var n := |u| - 3;
            && u[n] == STAR && Denotes(u[n + 1], Xor(u[..n]) >> 4) && Denotes(u[n + 2], Xor(u[..n]) & 0x0F)
  {
    hide ParseHex, Denotes, Printable, ParseCommand, Xor;
    assert s.state.Crc? && s.chrCount != 0;
    assert (t + [c])[..|t| - 2] == t[..|t| - 2];
    HighNibble(s.crc);
    ParseHexMeans(c, s.crc & 0x0F);
  }

  // ---- The sender ----

  function Trailer(crc: code): (t: seq<code>)
    ensures |t| == 5
  {
    [STAR, FormatHex(crc >> 4), FormatHex(crc), CR, LF]
  }

  function FirstStar(m: seq<code>): (i: nat)
    ensures i <= |m| && STAR !in m[..i] && (i < |m| ==> m[i] == STAR)
  {
    if m == [] || m[0] == STAR then 0 else
      var i := 1 + FirstStar(m[1..]);
      assert m[..i] == [m[0]] + m[1..][..i - 1];
      i
  }

  /** The sender's eight-bit counter at the end of a message: it counts the characters from the first star on,
      and after 256 of them it is back at zero, waiting for another star. */
  function Counter(m: seq<code>): (n: nat)
    ensures n < 256
    decreases |m|
  {
    var i := FirstStar(m);
    if i == |m| then 0 else if |m| - i < 256 then |m| - i else Counter(m[i + 256..])
  }

  /** The checksum of the characters it does not count. */
  function Summed(m: seq<code>): code
    decreases |m|
  {
    var i := FirstStar(m);
    if i == |m| || |m| - i < 256 then Xor(m[..i]) else Xor(m[..i]) ^ Summed(m[i + 256..])
  }

  /** What goes out for a message, its optional '$' taken off. */
  function Sent(m: seq<code>): seq<code> {
    [DOLLAR] + m + if Counter(m) == 0 then Trailer(Summed(m)) else []
  }

  lemma {:induction false} FirstStarIs(m: seq<code>, i: nat)
    requires i <= |m| && STAR !in m[..i] && (i < |m| ==> m[i] == STAR)
    ensures FirstStar(m) == i
    decreases i
  {
    if i > 0 {
      assert m[0] == m[..i][0] && m[1..][..i - 1] == m[..i][1..];
      FirstStarIs(m[1..], i - 1);
    }
  }

  lemma FirstStarSnoc(m: seq<code>, c: code)
    ensures var i := FirstStar(m); FirstStar(m + [c]) == if i < |m| || c == STAR then i else |m| + 1
  {
    var i := FirstStar(m);
    if i < |m| || c == STAR {
      assert (m + [c])[..i] == m[..i];
      FirstStarIs(m + [c], i);
    } else {
      assert m[..|m|] == m && (m + [c])[..|m| + 1] == m + [c];
      FirstStarIs(m + [c], |m| + 1);
    }
  }

  /** How the definitions go on from the first star. */
  lemma CountsFrom(m: seq<code>)
    ensures var i := FirstStar(m);
            if |m| - i < 256 then Counter(m) == |m| - i && Summed(m) == Xor(m[..i])
            else Counter(m) == Counter(m[i + 256..]) && Summed(m) == Xor(m[..i]) ^ Summed(m[i + 256..])
  {
    hide FirstStar, Xor;
  }

  lemma CounterAtStar(m: seq<code>, c: code)
    requires FirstStar(m) == |m|
    ensures Counter(m) == 0 && Counter(m + [c]) == if c == STAR then 1 else 0
    ensures Summed(m + [c]) == if c == STAR then Summed(m) else Summed(m) ^ c
  {
    hide FirstStar, Xor, Counter, Summed;
    FirstStarSnoc(m, c);
    CountsFrom(m);
    CountsFrom(m + [c]);
    XorSnoc(m, c);
    assert m[..|m|] == m && (m + [c])[..|m|] == m && (m + [c])[..|m| + 1] == m + [c];
  }

  lemma CounterWraps(m: seq<code>, c: code)
    requires |m| - FirstStar(m) == 255
    ensures Counter(m + [c]) == 0 && Summed(m + [c]) == Summed(m)
  {
    hide FirstStar, Xor, Counter, Summed;
    var i := FirstStar(m);
    FirstStarSnoc(m, c);
    CountsFrom(m);
    CountsFrom(m + [c]);
    assert (m + [c])[..i] == m[..i] && (m + [c])[i + 256..] == [];
    NothingCounted();
    XorZero(Xor(m[..i]));
  }

  /** One more character: the source's step. */
  lemma {:induction false} CounterSnoc(m: seq<code>, c: code)
    ensures var n := Counter(m); var counts := c == STAR || n > 0;
            && Counter(m + [c]) == (if counts then (n + 1) % 256 else 0)
            && Summed(m + [c]) == (if counts then Summed(m) else Summed(m) ^ c)
    decreases |m|
  {
    hide FirstStar, Xor, Counter, Summed;
    var i := FirstStar(m);
    FirstStarSnoc(m, c);
    CountsFrom(m);
    if i == |m| {
      CounterAtStar(m, c);
    } else if |m| - i == 255 {
      CounterWraps(m, c);
    } else {
      CountsFrom(m + [c]);
      assert (m + [c])[..i] == m[..i];
      if |m| - i > 255 {
        assert (m + [c])[i + 256..] == m[i + 256..] + [c];
        CounterSnoc(m[i + 256..], c);
        XorGroup(Xor(m[..i]), Summed(m[i + 256..]), c);
      }
    }
  }

  lemma NothingCounted()
    ensures Counter([]) == 0 && Summed([]) == 0
  {}

  lemma XorZero(x: code)
    ensures x ^ 0 == x
  {}

  /** `send`: the '$' is optional, and what goes out depends on the rest alone. */
  method Send(msg: seq<code>) returns (out: seq<code>)
    ensures out == if msg == [] then [] else Sent(if msg[0] == DOLLAR then msg[1..] else msg)
  {
    hide Counter, Summed, Trailer;
    if msg == [] {
      return [];
    }
    var m := if msg[0] == DOLLAR then msg[1..] else msg;
    out := [DOLLAR];
    var sentTrailer: uint8 := 0;
    var crc: code := 0;
    var i := 0;
    NothingCounted();
    assert m[..0] == [];
    while i < |m|
      invariant i <= |m| && out == [DOLLAR] + m[..i]
      invariant sentTrailer as int == Counter(m[..i]) && crc == Summed(m[..i])
    {
      assert m[..i + 1] == m[..i] + [m[i]];
      CounterSnoc(m[..i], m[i]);
      if m[i] == STAR || sentTrailer > 0 {
        sentTrailer := Incremented(sentTrailer);
      } else {
        crc := crc ^ m[i];
      }
      out := out + [m[i]];
      i := i + 1;
    }
    assert m[..|m|] == m;
    if sentTrailer == 0 {
      out := out + Trailer(crc);
    }
  }

  lemma {:induction false} CountsFromStar(m: seq<code>)
    ensures STAR !in m ==> Counter(m) == 0 && Summed(m) == Xor(m)
    ensures Counter(m) != 0 ==> STAR in m
    decreases |m|
  {
    var i := FirstStar(m);
    assert m[..|m|] == m;
    if i < |m| {
      assert m[i] in m;
    }
  }

  /** A message goes out as it is, with no trailer added, exactly when it brings a star and the counter does not
      end at zero; one without a star gets its checksum. */
  lemma SentAsItIsExactly(m: seq<code>)
    ensures Sent(m) == [DOLLAR] + m <==> STAR in m && Counter(m) != 0
    ensures STAR !in m ==> Sent(m) == [DOLLAR] + m + Trailer(Xor(m))
  {
    hide Counter, Summed, Trailer;
    CountsFromStar(m);
    if Counter(m) == 0 {
      assert |Sent(m)| == |[DOLLAR] + m| + 5;
    }
  }

  /** So a message with its own checksum is sent as it is for up to 255 characters from the star on. */
  lemma ShortTailSentAsItIs(m: seq<code>)
    requires STAR in m && |m| - FirstStar(m) < 256
    ensures Sent(m) == [DOLLAR] + m
  {
    assert FirstStar(m) < |m| by {
      assert m[..|m|] == m;
    }
  }

  /** With exactly 256 it gets a second checksum, of the characters before the star. */
  lemma SecondTrailer(front: seq<code>, rest: seq<code>)
    requires STAR !in front && |rest| == 255
    ensures var m := front + [STAR] + rest; Sent(m) == [DOLLAR] + m + Trailer(Xor(front))
  {
    hide Xor;
    var m := front + [STAR] + rest;
    var i := |front|;
    assert m[..i] == front && m[i + 256..] == [];
    FirstStarIs(m, i);
    NothingCounted();
    XorZero(Xor(front));
  }
}
