/** The four messages the emulator sends to the server: their layout on the sender's side
    (`fuzz_server_notify.c`) and how the server takes them apart (`parser.py`, `handle_body`). */
module Messages {
  import opened Options
  import opened Wire
  import opened Unicode

  /** One call into the message processor, with the arguments the body carries. */
  datatype Event =
    | Target(path: seq<byte>)
    | Coverage(from: word, to: word, input: seq<byte>)
    | Crash(kind: byte, addr: word, origin: word, input: seq<byte>, frames: seq<word>)
    | Stats(executed: word, crashes: word, depth: word)

  function Id(e: Event): byte {
    match e
    case Target(_) => 0
    case Coverage(_, _, _) => 1
    case Crash(_, _, _, _, _) => 2
    case Stats(_, _, _) => 3
  }

  function FramesToBytes(order: ByteOrder, frames: seq<word>): (b: seq<byte>)
    ensures |b| == 4 * |frames|
  {
    if frames == [] then [] else ToBytes(order, frames[0]) + FramesToBytes(order, frames[1..])
  }

  /** The list comprehension over `range(i, len(body_raw), 4)`. */
  function FramesFrom(b: seq<byte>): (frames: seq<word>)
    requires |b| % 4 == 0
    ensures |b| == 4 * |frames|
  {
    if b == [] then []
    else
      ShortLittle(b[..4]);
      [FromLittle(b[..4])] + FramesFrom(b[4..])
  }

  /** Every length the sender writes into a `uint32_t` fits, and so does the whole body. */
  predicate Sendable(e: Event) {
    match e
    case Target(path) => Utf8(path) && |path| < 0x1_0000_0000
    case Coverage(_, _, input) => 12 + |input| < 0x1_0000_0000
    case Crash(_, _, _, input, frames) => 17 + |input| + 4 * |frames| < 0x1_0000_0000
    case Stats(_, _, _) => true
  }

  /** The body bytes in the order of the sender's `send_raw` calls. Every integer goes out as it lies in
      memory, in the byte order of the sender's host. */
  function BodyOf(order: ByteOrder, e: Event): (b: seq<byte>)
    requires Sendable(e)
    ensures |b| < 0x1_0000_0000
  {
    match e
    case Target(path) => path
    case Coverage(from, to, input) =>
      ToBytes(order, from) + (ToBytes(order, to) + (ToBytes(order, |input|) + input))
    case Crash(kind, addr, origin, input, frames) =>
      [kind] + (ToBytes(order, addr) + (ToBytes(order, origin) + (ToBytes(order, |input|) + (input
      + (ToBytes(order, |frames|) + FramesToBytes(order, frames))))))
    case Stats(executed, crashes, depth) =>
      ToBytes(order, executed) + (ToBytes(order, crashes) + ToBytes(order, depth))
  }

  /** Where everything lies in a body, byte by byte, for a sender of either order. */
  lemma BodyLayout(order: ByteOrder, e: Event)
    requires Sendable(e)
    ensures var b := BodyOf(order, e);
            match e
            case Target(path) => Id(e) == 0 && b == path
            case Coverage(from, to, input) =>
              && Id(e) == 1 && |b| == 12 + |input| && b[12..] == input
              && WordAt(order, b, 0, from) && WordAt(order, b, 4, to) && WordAt(order, b, 8, |input|)
            case Crash(kind, addr, origin, input, frames) => Id(e) == 2 && CrashLayout(order, e, b)
            case Stats(executed, crashes, depth) =>
              && Id(e) == 3 && |b| == 12
              && WordAt(order, b, 0, executed) && WordAt(order, b, 4, crashes) && WordAt(order, b, 8, depth)
  {
    hide ToBytes, WordAt, CrashLayout;
    match e
    case Target(path) =>
    case Coverage(from, to, input) => ThreeLaidOut(order, from, to, |input|, input);
    case Crash(_, _, _, _, _) => CrashLaidOut(order, e);
    case Stats(executed, crashes, depth) =>
      ThreeLaidOut(order, executed, crashes, depth, []);
      assert ToBytes(order, depth) + [] == ToBytes(order, depth);
  }

  ghost predicate CrashLayout(order: ByteOrder, e: Event, b: seq<byte>)
    requires e.Crash?
  {
    var i := 13 + |e.input|;
    && |b| == i + 4 + 4 * |e.frames| && b[0] == e.kind && b[13..i] == e.input
    && WordAt(order, b, 1, e.addr) && WordAt(order, b, 5, e.origin) && WordAt(order, b, 9, |e.input|)
    && WordAt(order, b, i, |e.frames|)
    && forall k | 0 <= k < |e.frames| :: WordAt(order, b, i + 4 + 4 * k, e.frames[k])
  }

  lemma ThreeLaidOut(order: ByteOrder, x: word, y: word, z: word, rest: seq<byte>)
    ensures var b := ToBytes(order, x) + (ToBytes(order, y) + (ToBytes(order, z) + rest));
            && |b| == 12 + |rest| && b[12..] == rest
            && WordAt(order, b, 0, x) && WordAt(order, b, 4, y) && WordAt(order, b, 8, z)
  {
    hide ToBytes, WordAt;
    var p, q, r := ToBytes(order, x), ToBytes(order, y), ToBytes(order, z);
    var b := p + (q + (r + rest));
    WordWritten(order, [], x, q + (r + rest));
    WordWritten(order, p, y, r + rest);
    WordWritten(order, p + q, z, rest);
    assert [] + b == b && b == (p + q) + (r + rest);
  }

  lemma {:induction false} FramesLayout(order: ByteOrder, front: seq<byte>, frames: seq<word>, k: nat)
    requires k < |frames|
    ensures WordAt(order, front + FramesToBytes(order, frames), |front| + 4 * k, frames[k])
    decreases |frames|
  {
    hide ToBytes, WordAt;
    var w, rest := ToBytes(order, frames[0]), FramesToBytes(order, frames[1..]);
    if k == 0 {
      WordWritten(order, front, frames[0], rest);
    } else {
      FramesLayout(order, front + w, frames[1..], k - 1);
      assert (front + w) + rest == front + FramesToBytes(order, frames);
    }
  }

  lemma CrashLaidOut(order: ByteOrder, e: Event)
    requires Sendable(e) && e.Crash?
    ensures CrashLayout(order, e, BodyOf(order, e))
  {
    hide ToBytes, WordAt, FramesToBytes;
    var fs := FramesToBytes(order, e.frames);
    var count := ToBytes(order, |e.frames|);
    var head := [e.kind] + (ToBytes(order, e.addr) + (ToBytes(order, e.origin) + ToBytes(order, |e.input|)));
    var b := BodyOf(order, e);
    HeadLaidOut(order, e, e.input + (count + fs));
    assert b == (head + e.input) + (count + fs) && |head| == 13;
    WordWritten(order, head + e.input, |e.frames|, fs);
    forall k | 0 <= k < |e.frames|
      ensures WordAt(order, b, 13 + |e.input| + 4 + 4 * k, e.frames[k])
    {
      FramesLayout(order, head + e.input + count, e.frames, k);
      assert b == (head + e.input + count) + fs;
    }
  }

  lemma HeadLaidOut(order: ByteOrder, e: Event, rest: seq<byte>)
    requires Sendable(e) && e.Crash?
    ensures var b := [e.kind] + (ToBytes(order, e.addr) + (ToBytes(order, e.origin)
                     + (ToBytes(order, |e.input|) + rest)));
            b[0] == e.kind && WordAt(order, b, 1, e.addr) && WordAt(order, b, 5, e.origin)
            && WordAt(order, b, 9, |e.input|)
  {
    hide ToBytes, WordAt;
    var k, p, q, r := [e.kind], ToBytes(order, e.addr), ToBytes(order, e.origin), ToBytes(order, |e.input|);
    WordWritten(order, k, e.addr, q + (r + rest));
    WordWritten(order, k + p, e.origin, r + rest);
    WordWritten(order, k + p + q, |e.input|, rest);
    var b := k + (p + (q + (r + rest)));
    assert b == (k + p) + (q + (r + rest)) && b == (k + p + q) + (r + rest);
  }

  /** `int.from_bytes(b[at:at+4], 'little')`, where the slice may come out short. */
  function Int(b: seq<byte>, at: nat): word {
    ShortLittle(Slice(b, at, at + 4));
    FromLittle(Slice(b, at, at + 4))
  }

  /** `handle_body`: None stands for the exception that ends the server process (a failed assert,
      an index past the end of the body, or a path that is not UTF-8). Slices clip as in Python. */
  function HandleBody(id: byte, body: seq<byte>): (r: Option<Event>) {
    if id == 0 then
      if Utf8(body) then Some(Target(body)) else None
    else if id == 1 then
      var inputLen := Int(body, 8);
      if |body| - 12 != inputLen then None
      else Some(Coverage(Int(body, 0), Int(body, 4), body[12..]))
    else if id == 2 then
      HandleCrash(body)
    else if id == 3 then
      if |body| != 12 then None
      else Some(Stats(Int(body, 0), Int(body, 4), Int(body, 8)))
    else None
  }

  /** The branch for message ID 2, which advances an index over the variable-length parts. */
  function HandleCrash(body: seq<byte>): (r: Option<Event>) {
    if body == [] then None
    else
      var i := 13 + Int(body, 9);
      var frameCount := Int(body, i);
      if |body| - (i + 4) != 4 * frameCount then None
      else Some(Crash(body[0], Int(body, 1), Int(body, 5), Slice(body, 13, i), FramesFrom(body[i + 4..])))
  }

  lemma {:induction false} FramesRoundTrip(frames: seq<word>)
    ensures FramesFrom(FramesToBytes(Little, frames)) == frames
  {
    if frames != [] {
      var b := FramesToBytes(Little, frames);
      assert b[..4] == ToLittle(frames[0]) && b[4..] == FramesToBytes(Little, frames[1..]);
      LittleRoundTrip(frames[0]);
      FramesRoundTrip(frames[1..]);
    }
  }

  lemma {:induction false} FramesCanonical(b: seq<byte>)
    requires |b| % 4 == 0
    ensures FramesToBytes(Little, FramesFrom(b)) == b
  {
    if b != [] {
      LittleCanonical(b[..4]);
      FramesCanonical(b[4..]);
      assert FramesFrom(b)[1..] == FramesFrom(b[4..]);
      assert b == b[..4] + b[4..];
    }
  }

  /** Reading past a prefix is reading the rest. */
  lemma IntSkip(front: seq<byte>, rest: seq<byte>, at: nat)
    ensures Int(front + rest, |front| + at) == Int(rest, at)
  {
    assert Slice(front + rest, |front| + at, |front| + at + 4) == Slice(rest, at, at + 4);
  }

  lemma IntFirst(n: word, rest: seq<byte>)
    ensures Int(ToLittle(n) + rest, 0) == n
  {
    LittleRoundTrip(n);
    assert Slice(ToLittle(n) + rest, 0, 4) == ToLittle(n);
  }

  lemma ThreeWords(n: word, m: word, k: word, rest: seq<byte>)
    ensures var b := ToLittle(n) + (ToLittle(m) + (ToLittle(k) + rest));
            Int(b, 0) == n && Int(b, 4) == m && Int(b, 8) == k && b[12..] == rest
  {
    var t := ToLittle(k) + rest;
    IntFirst(n, ToLittle(m) + t);
    IntSkip(ToLittle(n), ToLittle(m) + t, 0);
    IntFirst(m, t);
    IntSkip(ToLittle(n), ToLittle(m) + t, 4);
    IntSkip(ToLittle(m), t, 0);
    IntFirst(k, rest);
  }

  lemma CrashHead(kind: byte, addr: word, origin: word, len: word, t: seq<byte>)
    ensures var b := [kind] + (ToLittle(addr) + (ToLittle(origin) + (ToLittle(len) + t)));
            Int(b, 1) == addr && Int(b, 5) == origin && Int(b, 9) == len && b[0] == kind
            && |b| == 13 + |t| && b[13..] == t
  {
    var r := ToLittle(addr) + (ToLittle(origin) + (ToLittle(len) + t));
    ThreeWords(addr, origin, len, t);
    IntSkip([kind], r, 0);
    IntSkip([kind], r, 4);
    IntSkip([kind], r, 8);
    assert ([kind] + r)[13..] == r[12..];
  }

  lemma CrashTail(b: seq<byte>, input: seq<byte>, count: word, fs: seq<byte>)
    requires |b| >= 13 && b[13..] == input + (ToLittle(count) + fs)
    ensures var i := 13 + |input|;
            Slice(b, 13, i) == input && Int(b, i) == count && |b| == i + 4 + |fs| && b[i + 4..] == fs
  {
    var c := ToLittle(count) + fs;
    assert b == b[..13] + (input + c);
    IntSkip(b[..13], input + c, |input|);
    IntSkip(input, c, 0);
    IntFirst(count, fs);
    assert b[17 + |input|..] == b[13..][|input| + 4..];
    assert Slice(b, 13, 13 + |input|) == b[13..][..|input|];
  }

  lemma CrashRoundTrip(kind: byte, addr: word, origin: word, input: seq<byte>, frames: seq<word>)
    requires Sendable(Crash(kind, addr, origin, input, frames))
    ensures HandleCrash(BodyOf(Little, Crash(kind, addr, origin, input, frames)))
            == Some(Crash(kind, addr, origin, input, frames))
  {
    var fs := FramesToBytes(Little, frames);
    var b := BodyOf(Little, Crash(kind, addr, origin, input, frames));
    CrashHead(kind, addr, origin, |input|, input + (ToLittle(|frames|) + fs));
    CrashTail(b, input, |frames|, fs);
    FramesRoundTrip(frames);
  }

  /** What a little-endian sender packs, the server unpacks to the same event. */
  lemma LittleBodyRoundTrip(e: Event)
    requires Sendable(e)
    ensures HandleBody(Id(e), BodyOf(Little, e)) == Some(e)
  {
    match e
    case Target(path) =>
    case Coverage(from, to, input) => ThreeWords(from, to, |input|, input);
    case Crash(kind, addr, origin, input, frames) => CrashRoundTrip(kind, addr, origin, input, frames);
    case Stats(x, c, d) =>
      ThreeWords(x, c, d, []);
      assert ToLittle(d) + [] == ToLittle(d);
  }

  lemma IntBack(b: seq<byte>, at: nat)
    requires at + 4 <= |b|
    ensures ToLittle(Int(b, at)) == b[at..at + 4]
  {
    LittleCanonical(b[at..at + 4]);
    assert Slice(b, at, at + 4) == b[at..at + 4];
  }

  lemma CutWords(b: seq<byte>)
    requires |b| >= 12
    ensures b == b[0..4] + (b[4..8] + (b[8..12] + b[12..]))
  {
    assert b[8..] == b[8..12] + b[12..];
    assert b[4..] == b[4..8] + b[8..];
  }

  lemma CoverageCanonical(body: seq<byte>)
    requires HandleBody(1, body).Some? && |body| < 0x1_0000_0000
    ensures var e := HandleBody(1, body).value; Sendable(e) && e.Coverage? && BodyOf(Little, e) == body
  {
    hide Int, ToLittle;
    IntBack(body, 0);
    IntBack(body, 4);
    IntBack(body, 8);
    CutWords(body);
  }

  lemma CrashShape(body: seq<byte>)
    requires HandleCrash(body).Some?
    ensures var i := 13 + Int(body, 9);
            i + 4 <= |body| && Slice(body, 13, i) == body[13..i] && |body[i + 4..]| == 4 * Int(body, i)
  {}

  lemma CrashCanonical(body: seq<byte>)
    requires HandleCrash(body).Some? && |body| < 0x1_0000_0000
    ensures var e := HandleCrash(body).value; Sendable(e) && e.Crash? && BodyOf(Little, e) == body
  {
    hide Int, ToLittle, FramesFrom;
    CrashShape(body);
    var i := 13 + Int(body, 9);
    IntBack(body, 1);
    IntBack(body, 5);
    IntBack(body, 9);
    IntBack(body, i);
    FramesCanonical(body[i + 4..]);
    CutFront(body, i);
  }

  lemma CutFront(b: seq<byte>, i: nat)
    requires 13 <= i && i + 4 <= |b|
    ensures b == [b[0]] + (b[1..5] + (b[5..9] + (b[9..13] + (b[13..i] + (b[i..i + 4] + b[i + 4..])))))
  {
    assert b[i..] == b[i..i + 4] + b[i + 4..];
    assert b[13..] == b[13..i] + b[i..];
    assert b[9..] == b[9..13] + b[13..];
    assert b[5..] == b[5..9] + b[9..];
    assert b[1..] == b[1..5] + b[5..];
  }

  lemma StatsCanonical(body: seq<byte>)
    requires HandleBody(3, body).Some?
    ensures var e := HandleBody(3, body).value; Sendable(e) && e.Stats? && BodyOf(Little, e) == body
  {
    IntBack(body, 0);
    IntBack(body, 4);
    IntBack(body, 8);
    assert body[8..12] == body[8..] && body[4..] == body[4..8] + body[8..12];
    assert body == body[0..4] + body[4..];
  }

  /** The server accepts nothing else: whenever `handle_body` does not raise, the body is exactly what a
      little-endian sender writes for the event delivered, so no byte is skipped or read twice. */
  lemma BodyCanonical(id: byte, body: seq<byte>)
    requires HandleBody(id, body).Some? && |body| < 0x1_0000_0000
    ensures var e := HandleBody(id, body).value; Sendable(e) && Id(e) == id && BodyOf(Little, e) == body
  {
    if id == 1 {
      CoverageCanonical(body);
    } else if id == 2 {
      CrashCanonical(body);
    } else if id == 3 {
      StatsCanonical(body);
    }
  }

  // ---- The sender's byte order ----

  /** The integer is the same number read from either end, or need not be. */
  predicate Same(order: ByteOrder, n: word) { order.Little? || FromBytes(Big, ToLittle(n)) == n }

  /** The integers of the body, its counts included, are the same from either end. */
  predicate Symmetric(order: ByteOrder, e: Event)
    requires Sendable(e)
  {
    match e
    case Target(_) => true
    case Coverage(from, to, input) => Same(order, from) && Same(order, to) && Same(order, |input|)
    case Crash(_, addr, origin, input, frames) =>
      && Same(order, addr) && Same(order, origin) && Same(order, |input|) && Same(order, |frames|)
      && forall i | 0 <= i < |frames| :: Same(order, frames[i])
    case Stats(executed, crashes, depth) => Same(order, executed) && Same(order, crashes) && Same(order, depth)
  }

  lemma SameBytes(order: ByteOrder, n: word)
    ensures ToBytes(order, n) == ToLittle(n) <==> Same(order, n)
  {
    hide ToLittle, FromLittle, Reverse;
    IntegersRoundTrip(order, n, ToLittle(n));
  }

  /** Equal parts of equal lengths. */
  lemma Parts<T>(a: seq<T>, b: seq<T>, x: seq<T>, y: seq<T>)
    requires |a| == |b|
    ensures a + x == b + y <==> a == b && x == y
  {
    if a + x == b + y {
      assert (a + x)[..|a|] == a && (b + y)[..|a|] == b;
      assert (a + x)[|a|..] == x && (b + y)[|a|..] == y;
    }
  }

  /** One more integer in front. */
  lemma WordInFront(order: ByteOrder, n: word, x: seq<byte>, y: seq<byte>)
    ensures ToBytes(order, n) + x == ToBytes(Little, n) + y <==> Same(order, n) && x == y
  {
    hide ToLittle, FromLittle, Reverse;
    SameBytes(order, n);
    Parts(ToBytes(order, n), ToBytes(Little, n), x, y);
  }

  lemma {:induction false} FramesAgree(order: ByteOrder, frames: seq<word>)
    ensures FramesToBytes(order, frames) == FramesToBytes(Little, frames)
            <==> forall i | 0 <= i < |frames| :: Same(order, frames[i])
  {
    hide Same, ToBytes;
    if frames != [] {
      FramesAgree(order, frames[1..]);
      WordInFront(order, frames[0], FramesToBytes(order, frames[1..]), FramesToBytes(Little, frames[1..]));
      assert frames == [frames[0]] + frames[1..];
    }
  }

  lemma CrashAgrees(order: ByteOrder, kind: byte, addr: word, origin: word, input: seq<byte>, frames: seq<word>)
    requires Sendable(Crash(kind, addr, origin, input, frames))
    ensures var e := Crash(kind, addr, origin, input, frames);
            BodyOf(order, e) == BodyOf(Little, e) <==> Symmetric(order, e)
  {
    hide Same, ToBytes;
    FramesAgree(order, frames);
    var (x5, y5) := (FramesToBytes(order, frames), FramesToBytes(Little, frames));
    WordInFront(order, |frames|, x5, y5);
    var (x4, y4) := (ToBytes(order, |frames|) + x5, ToBytes(Little, |frames|) + y5);
    Parts(input, input, x4, y4);
    WordInFront(order, |input|, input + x4, input + y4);
    var (x3, y3) := (ToBytes(order, |input|) + (input + x4), ToBytes(Little, |input|) + (input + y4));
    WordInFront(order, origin, x3, y3);
    var (x2, y2) := (ToBytes(order, origin) + x3, ToBytes(Little, origin) + y3);
    WordInFront(order, addr, x2, y2);
    Parts([kind], [kind], ToBytes(order, addr) + x2, ToBytes(Little, addr) + y2);
  }

  lemma BodyLength(order: ByteOrder, e: Event)
    requires Sendable(e)
    ensures |BodyOf(order, e)| == |BodyOf(Little, e)|
  {}

  /** A sender writes what the server reads exactly when all integers are the same from either end. */
  lemma BodiesAgree(order: ByteOrder, e: Event)
    requires Sendable(e)
    ensures BodyOf(order, e) == BodyOf(Little, e) <==> Symmetric(order, e)
  {
    hide Same, ToBytes;
    match e
    case Target(_) =>
    case Coverage(from, to, input) =>
      var (x, y) := (ToBytes(order, |input|) + input, ToBytes(Little, |input|) + input);
      WordInFront(order, |input|, input, input);
      WordInFront(order, to, x, y);
      WordInFront(order, from, ToBytes(order, to) + x, ToBytes(Little, to) + y);
    case Crash(kind, addr, origin, input, frames) => CrashAgrees(order, kind, addr, origin, input, frames);
    case Stats(executed, crashes, depth) =>
      WordInFront(order, depth, [], []);
      assert ToBytes(order, depth) + [] == ToBytes(order, depth);
      assert ToBytes(Little, depth) + [] == ToBytes(Little, depth);
      WordInFront(order, crashes, ToBytes(order, depth), ToBytes(Little, depth));
      WordInFront(order, executed, ToBytes(order, crashes) + ToBytes(order, depth),
                  ToBytes(Little, crashes) + ToBytes(Little, depth));
  }

  /** The server unpacks a body to the event it was packed from exactly when the sender's host is
      little-endian, or every integer in the body is the same from either end. */
  lemma BodyRoundTrip(order: ByteOrder, e: Event)
    requires Sendable(e)
    ensures HandleBody(Id(e), BodyOf(order, e)) == Some(e) <==> Symmetric(order, e)
  {
    hide BodyOf, HandleBody, Symmetric;
    BodiesAgree(order, e);
    LittleBodyRoundTrip(e);
    if HandleBody(Id(e), BodyOf(order, e)) == Some(e) {
      BodyCanonical(Id(e), BodyOf(order, e));
    }
  }

  /** A coverage record of one byte from a big-endian host: its count reads as 16777216. */
  lemma BigCoverageRefused(from: word, to: word, b: byte)
    ensures HandleBody(1, BodyOf(Big, Coverage(from, to, [b]))) == None
  {
    hide ToBytes;
    var body := BodyOf(Big, Coverage(from, to, [b]));
    assert Slice(body, 8, 12) == ToBytes(Big, 1);
    ReversedOne();
  }

  lemma ReversedOne()
    ensures FromLittle(ToBytes(Big, 1)) == 16777216
  {
    assert ToLittle(1) == [1, 0, 0, 0];
    ReversedFour(1, 0, 0, 0);
    FromLittle4([0, 0, 0, 1]);
  }

  lemma ReversedFour(a: byte, b: byte, c: byte, d: byte)
    ensures Reverse([a, b, c, d]) == [d, c, b, a]
  {}
}
