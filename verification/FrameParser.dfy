/** The server's stream reassembler (`Parser.read_from_queue`): packets of any size come in, whole
    messages go to `handle_body`. What it does depends only on the bytes, never on the packets. */
module FrameParser {
  import opened Options
  import opened Wire
  import opened Messages
  import opened Unicode

  datatype Waiting = Header | Body

  /** The loop's local variables, plus the calls made so far. `Dead` is the process after
      `handle_body` raised: it reads nothing more. */
  datatype Server =
    | Running(buffer: seq<byte>, waiting: Waiting, need: nat, id: int, calls: seq<Event>)
    | Dead(calls: seq<Event>)
  {
    ghost predicate Valid() {
      Running? ==> if waiting.Header? then need == 5 else 0 <= id < 256 && need < 0x1_0000_0000
    }

    predicate Ready() { Running? && |buffer| >= need }
  }

  const START := Running([], Header, 5, -1, [])

  function Append(v: Server, chunk: seq<byte>): Server {
    if v.Running? then v.(buffer := v.buffer + chunk) else v
  }

  function DeserializeHeader(order: ByteOrder, h: seq<byte>): (r: (byte, word))
    requires |h| == 5
  {
    IntegersRoundTrip(order, 0, h[1..5]);
    (h[0], FromBytes(order, h[1..5]))
  }

  /** One turn of the inner loop. */
  function Step(order: ByteOrder, v: Server): (w: Server)
    requires v.Valid() && v.Ready()
    ensures w.Valid()
    ensures w.Running? ==> |w.buffer| < |v.buffer| || (|w.buffer| == |v.buffer| && v.waiting.Body? && w.waiting.Header?)
  {
    if v.waiting.Header? then
      var (id, need) := DeserializeHeader(order, v.buffer[..5]);
      Running(v.buffer[5..], Body, need, id as int, v.calls)
    else
      match HandleBody(v.id as byte, v.buffer[..v.need])
      case Some(e) => Running(v.buffer[v.need..], Header, 5, v.id, v.calls + [e])
      case None => Dead(v.calls)
  }

  ghost function Measure(v: Server): nat {
    if v.Running? then 2 * |v.buffer| + (if v.waiting.Body? then 1 else 0) + 1 else 0
  }

  /** The inner loop, run until it waits for the next packet. It terminates although a body of
      length zero consumes nothing: the turn after it is a header. */
  ghost function Drain(order: ByteOrder, v: Server): (w: Server)
    requires v.Valid()
    ensures w.Valid() && !w.Ready()
    decreases Measure(v)
  {
    if v.Ready() then Drain(order, Step(order, v)) else v
  }

  /** One packet arrives. */
  ghost function Feed(order: ByteOrder, v: Server, chunk: seq<byte>): Server
    requires v.Valid()
  {
    Drain(order, Append(v, chunk))
  }

  ghost function FeedAll(order: ByteOrder, v: Server, packets: seq<seq<byte>>): (w: Server)
    requires v.Valid()
    ensures w.Valid()
    decreases |packets|
  {
    if packets == [] then v
    else Feed(order, FeedAll(order, v, packets[..|packets| - 1]), packets[|packets| - 1])
  }

  function Concat(packets: seq<seq<byte>>): seq<byte>
    decreases |packets|
  {
    if packets == [] then [] else Concat(packets[..|packets| - 1]) + packets[|packets| - 1]
  }

  lemma StepAppend(order: ByteOrder, v: Server, b: seq<byte>)
    requires v.Valid() && v.Ready()
    ensures Append(v, b).Valid() && Append(v, b).Ready()
    ensures Step(order, Append(v, b)) == Append(Step(order, v), b)
  {
    var n := v.need;
    assert (v.buffer + b)[..n] == v.buffer[..n];
    assert (v.buffer + b)[n..] == v.buffer[n..] + b;
  }

  lemma {:induction false} DrainAppend(order: ByteOrder, v: Server, b: seq<byte>)
    requires v.Valid()
    ensures Append(v, b).Valid()
    ensures Drain(order, Append(v, b)) == Drain(order, Append(Drain(order, v), b))
    decreases Measure(v)
  {
    if v.Ready() {
      StepAppend(order, v, b);
      DrainAppend(order, Step(order, v), b);
    }
  }

  lemma AppendTwice(v: Server, a: seq<byte>, b: seq<byte>)
    ensures Append(Append(v, a), b) == Append(v, a + b)
  {
    if v.Running? {
      assert v.buffer + a + b == v.buffer + (a + b);
    }
  }

  /** Two packets are one: how the stream is cut between them leaves no trace. */
  lemma FeedTwice(order: ByteOrder, v: Server, a: seq<byte>, b: seq<byte>)
    requires v.Valid()
    ensures Feed(order, v, a).Valid()
    ensures Feed(order, Feed(order, v, a), b) == Feed(order, v, a + b)
  {
    DrainAppend(order, Append(v, a), b);
    AppendTwice(v, a, b);
  }

  /** Chunk invariance: from any waiting state, feeding packets one by one is feeding their
      concatenation, so two splits of one stream give the same calls and the same leftover. */
  lemma {:induction false} ChunkInvariance(order: ByteOrder, v: Server, packets: seq<seq<byte>>)
    requires v.Valid() && !v.Ready()
    ensures FeedAll(order, v, packets) == Feed(order, v, Concat(packets))
    decreases |packets|
  {
    if packets == [] {
      if v.Running? {
        assert v.buffer + [] == v.buffer;
      }
    } else {
      var front := packets[..|packets| - 1];
      ChunkInvariance(order, v, front);
      FeedTwice(order, v, Concat(front), packets[|packets| - 1]);
    }
  }

  lemma SplitsAgree(order: ByteOrder, v: Server, p: seq<seq<byte>>, q: seq<seq<byte>>)
    requires v.Valid() && !v.Ready() && Concat(p) == Concat(q)
    ensures FeedAll(order, v, p) == FeedAll(order, v, q)
  {
    ChunkInvariance(order, v, p);
    ChunkInvariance(order, v, q);
  }

  // ---- The sender ----

  /** `send_header` followed by the body. */
  function Frame(order: ByteOrder, id: byte, body: seq<byte>): seq<byte>
    requires |body| < 0x1_0000_0000
  {
    [id] + ToBytes(order, |body|) + body
  }

  /** A frame byte by byte: the identifier, the length in the host's order, the body. */
  lemma FrameLayout(order: ByteOrder, id: byte, body: seq<byte>)
    requires |body| < 0x1_0000_0000
    ensures var f := Frame(order, id, body);
            |f| == 5 + |body| && f[0] == id && WordAt(order, f, 1, |body|) && f[5..] == body
  {
    hide ToBytes, WordAt;
    WordWritten(order, [id], |body|, body);
    assert Frame(order, id, body) == [id] + (ToBytes(order, |body|) + body);
  }

  ghost predicate AllSendable(es: seq<Event>) { forall i :: 0 <= i < |es| ==> Sendable(es[i]) }

  /** What a sender writes: `order` is the byte order of the frame lengths, `body` that of the bodies. On a
      host both are the host's own; the server reads bodies low byte first. */
  function SendAll(order: ByteOrder, body: ByteOrder, es: seq<Event>): seq<byte>
    requires AllSendable(es)
  {
    if es == [] then []
    else SendAll(order, body, es[..|es| - 1]) + Frame(order, Id(es[|es| - 1]), BodyOf(body, es[|es| - 1]))
  }

  lemma Regroup(a: seq<byte>, b: seq<byte>, c: seq<byte>)
    ensures a + b + c == a + (b + c)
  {}

  lemma HeaderOf(order: ByteOrder, id: byte, body: seq<byte>, rest: seq<byte>)
    requires |body| < 0x1_0000_0000
    ensures var f := Frame(order, id, body) + rest;
            |f| >= 5 && DeserializeHeader(order, f[..5]) == (id, |body|)
            && f[5..] == body + rest && (body + rest)[..|body|] == body && (body + rest)[|body|..] == rest
  {
    var head := [id] + ToBytes(order, |body|);
    var f := Frame(order, id, body) + rest;
    Regroup(head, body, rest);
    IntegersRoundTrip(order, |body|, ToBytes(order, |body|));
    assert f[..5] == head && head[1..5] == ToBytes(order, |body|);
  }

  /** One whole frame at the front of the buffer is handled in exactly two turns. */
  lemma FrameStep(order: ByteOrder, v: Server, id: byte, body: seq<byte>, rest: seq<byte>)
    requires v.Valid() && v.Running? && v.waiting.Header? && |body| < 0x1_0000_0000
    requires v.buffer == Frame(order, id, body) + rest
    ensures Drain(order, v) ==
            match HandleBody(id, body)
            case Some(e) => Drain(order, Running(rest, Header, 5, id as int, v.calls + [e]))
            case None => Dead(v.calls)
  {
    HeaderOf(order, id, body, rest);
    var w := Step(order, v);
    assert w == Running(body + rest, Body, |body|, id as int, v.calls);
    assert Drain(order, v) == Drain(order, w) == Drain(order, Step(order, w));
  }

  lemma DeliverOne(order: ByteOrder, id: int, calls: seq<Event>, e: Event)
    requires Sendable(e)
    ensures Feed(order, Running([], Header, 5, id, calls), Frame(order, Id(e), BodyOf(Little, e)))
            == Running([], Header, 5, Id(e) as int, calls + [e])
  {
    var f := Frame(order, Id(e), BodyOf(Little, e));
    assert [] + f == f + [];
    LittleBodyRoundTrip(e);
    FrameStep(order, Running(f, Header, 5, id, calls), Id(e), BodyOf(Little, e), []);
  }

  /** The sender does not look at the path it sends: the server takes it exactly when it is UTF-8, and dies of
      any other. */
  lemma PathDeliveredExactly(order: ByteOrder, id: int, calls: seq<Event>, path: seq<byte>)
    requires |path| < 0x1_0000_0000
    ensures Feed(order, Running([], Header, 5, id, calls), Frame(order, 0, path)) ==
            if Utf8(path) then Running([], Header, 5, 0, calls + [Target(path)]) else Dead(calls)
  {
    var f := Frame(order, 0, path);
    assert [] + f == f + [];
    FrameStep(order, Running(f, Header, 5, id, calls), 0, path, []);
  }

  lemma SendSnoc(order: ByteOrder, body: ByteOrder, es: seq<Event>, e: Event)
    requires AllSendable(es) && Sendable(e)
    ensures AllSendable(es + [e])
    ensures SendAll(order, body, es + [e]) == SendAll(order, body, es) + Frame(order, Id(e), BodyOf(body, e))
  {
    var more := es + [e];
    assert more[..|more| - 1] == es && more[|more| - 1] == e;
  }

  lemma {:induction false} DeliverAll(order: ByteOrder, es: seq<Event>)
    requires AllSendable(es)
    ensures Feed(order, START, SendAll(order, Little, es)) ==
            Running([], Header, 5, if es == [] then -1 else Id(es[|es| - 1]) as int, es)
    decreases |es|
  {
    if es != [] {
      var front, e := es[..|es| - 1], es[|es| - 1];
      var sent, f := SendAll(order, Little, front), Frame(order, Id(e), BodyOf(Little, e));
      assert front + [e] == es;
      SendSnoc(order, Little, front, e);
      DeliverAll(order, front);
      FeedTwice(order, START, sent, f);
      DeliverOne(order, if front == [] then -1 else Id(front[|front| - 1]) as int, front, e);
    }
  }

  /** The bytes taken from the stream but not yet turned into a call. */
  function Unread(order: ByteOrder, v: Server): seq<byte>
    requires v.Running? && (v.waiting.Body? ==> 0 <= v.id < 256 && v.need < 0x1_0000_0000)
  {
    (if v.waiting.Body? then [v.id as byte] + ToBytes(order, v.need) else []) + v.buffer
  }

  /** The stream so far is what a sender with low-byte-first bodies writes for the calls made, followed by unread
      bytes; or by one frame whose body `handle_body` refuses. */
  ghost predicate Explains(order: ByteOrder, v: Server, stream: seq<byte>)
    requires v.Valid()
  {
    && AllSendable(v.calls)
    && (v.Running? ==> stream == SendAll(order, Little, v.calls) + Unread(order, v))
    && (v.Dead? ==>
          exists id: byte, body: seq<byte>, rest: seq<byte> :: Refused(order, v.calls, id, body, rest, stream))
  }

  ghost predicate Refused(order: ByteOrder, calls: seq<Event>,
                          id: byte, body: seq<byte>, rest: seq<byte>, stream: seq<byte>)
    requires AllSendable(calls)
  {
    |body| < 0x1_0000_0000 && HandleBody(id, body).None?
    && stream == SendAll(order, Little, calls) + (Frame(order, id, body) + rest)
  }

  lemma HeaderExplains(order: ByteOrder, v: Server, stream: seq<byte>)
    requires v.Valid() && v.Ready() && v.waiting.Header? && Explains(order, v, stream)
    ensures Explains(order, Step(order, v), stream)
  {
    var h := v.buffer[..5];
    IntegersRoundTrip(order, 0, h[1..5]);
    assert h == [h[0]] + h[1..5];
    assert v.buffer == h + v.buffer[5..];
    assert Unread(order, Step(order, v)) == Unread(order, v);
  }

  lemma BodyExplains(order: ByteOrder, v: Server, stream: seq<byte>)
    requires v.Valid() && v.Ready() && v.waiting.Body? && Explains(order, v, stream)
    ensures Explains(order, Step(order, v), stream)
  {
    var id, body, rest := v.id as byte, v.buffer[..v.need], v.buffer[v.need..];
    assert v.buffer == body + rest;
    assert Unread(order, v) == Frame(order, id, body) + rest;
    match HandleBody(id, body)
    case Some(e) =>
      BodyCanonical(id, body);
      SendSnoc(order, Little, v.calls, e);
      Regroup(SendAll(order, Little, v.calls), Frame(order, id, body), rest);
      assert Unread(order, Step(order, v)) == [] + rest == rest;
    case None =>
      assert Refused(order, v.calls, id, body, rest, stream);
  }

  lemma {:induction false} DrainExplains(order: ByteOrder, v: Server, stream: seq<byte>)
    requires v.Valid() && Explains(order, v, stream)
    ensures Explains(order, Drain(order, v), stream)
    decreases Measure(v)
  {
    if v.Ready() {
      if v.waiting.Header? {
        HeaderExplains(order, v, stream);
      } else {
        BodyExplains(order, v, stream);
      }
      DrainExplains(order, Step(order, v), stream);
    }
  }

  /** Conservation, for every byte stream and not only for well-formed ones: the calls made are
      exactly the whole messages at its front, re-sending them gives those bytes back, nothing is
      lost or invented, and the process dies only on a message whose body is malformed. */
  lemma Conservation(order: ByteOrder, packets: seq<seq<byte>>)
    ensures Explains(order, FeedAll(order, START, packets), Concat(packets))
  {
    ChunkInvariance(order, START, packets);
    var stream := Concat(packets);
    assert [] + stream == stream;
    DrainExplains(order, Append(START, stream), stream);
  }

  // ---- End to end ----

  /** Exactly those calls in that order, and back at a header with nothing left. */
  ghost predicate Delivered(order: ByteOrder, es: seq<Event>, packets: seq<seq<byte>>) {
    FeedAll(order, START, packets) == Running([], Header, 5, if es == [] then -1 else Id(es[|es| - 1]) as int, es)
  }

  lemma FrameAgrees(order: ByteOrder, body: ByteOrder, e: Event)
    requires Sendable(e)
    ensures var f, g := Frame(order, Id(e), BodyOf(body, e)), Frame(order, Id(e), BodyOf(Little, e));
            |f| == |g| && (f == g <==> Symmetric(body, e))
  {
    hide BodyOf, Symmetric, ToBytes;
    BodyLength(body, e);
    BodiesAgree(body, e);
    var head := [Id(e)] + ToBytes(order, |BodyOf(body, e)|);
    Parts(head, head, BodyOf(body, e), BodyOf(Little, e));
  }

  lemma {:induction false} StreamsAgree(order: ByteOrder, body: ByteOrder, es: seq<Event>)
    requires AllSendable(es)
    ensures |SendAll(order, body, es)| == |SendAll(order, Little, es)|
    ensures SendAll(order, body, es) == SendAll(order, Little, es)
            <==> forall i | 0 <= i < |es| :: Symmetric(body, es[i])
    decreases |es|
  {
    hide BodyOf, Symmetric, Frame;
    if es != [] {
      var front, e := es[..|es| - 1], es[|es| - 1];
      StreamsAgree(order, body, front);
      FrameAgrees(order, body, e);
      Parts(SendAll(order, body, front), SendAll(order, Little, front),
            Frame(order, Id(e), BodyOf(body, e)), Frame(order, Id(e), BodyOf(Little, e)));
      assert es == front + [e];
    }
  }

  /** End to end: whatever list of events the emulator sends, however the network cuts the bytes, the server
      makes exactly those calls in that order and is back at a header with nothing left, if and only if the
      host is little-endian or every integer sent is the same from either end. */
  lemma Delivery(order: ByteOrder, es: seq<Event>, packets: seq<seq<byte>>)
    requires AllSendable(es) && Concat(packets) == SendAll(order, order, es)
    ensures Delivered(order, es, packets) <==> forall i | 0 <= i < |es| :: Symmetric(order, es[i])
  {
    hide Symmetric;
    StreamsAgree(order, order, es);
    ChunkInvariance(order, START, packets);
    DeliverAll(order, es);
    if Delivered(order, es, packets) {
      Conservation(order, packets);
      assert SendAll(order, Little, es) + [] == SendAll(order, Little, es);
    }
  }

  lemma LittleIsSymmetric(e: Event)
    requires Sendable(e)
    ensures Symmetric(Little, e)
  {}

  lemma ConcatOne(stream: seq<byte>)
    ensures Concat([stream]) == stream
  {
    assert [stream][..0] == [] && Concat([]) + stream == stream;
  }

  /** So every list of events arrives exactly from a little-endian host. */
  lemma EveryListDeliveredExactly(order: ByteOrder)
    ensures (forall es, packets | AllSendable(es) && Concat(packets) == SendAll(order, order, es) ::
               Delivered(order, es, packets))
            <==> order.Little?
  {
    hide Delivered, Symmetric, Concat, BodyOf, SendAll, HandleBody;
    if order.Little? {
      forall es, packets | AllSendable(es) && Concat(packets) == SendAll(order, order, es)
        ensures Delivered(order, es, packets)
      {
        forall i | 0 <= i < |es| ensures Symmetric(order, es[i]) {
          LittleIsSymmetric(es[i]);
        }
        Delivery(order, es, packets);
      }
    } else {
      var e := Coverage(1, 2, [7]);
      BigCoverageRefused(1, 2, 7);
      BodyRoundTrip(Big, e);
      assert !Symmetric(order, [e][0]);
      var stream := SendAll(order, order, [e]);
      ConcatOne(stream);
      Delivery(order, [e], [stream]);
    }
  }

  // ---- The process ----

  class Parser {
    var recvBuffer: seq<byte>
    var waitingFor: Waiting
    var waitForNumBytes: nat
    var msgId: int
    var alive: bool
    var calls: seq<Event>
    const byteOrder: ByteOrder

    ghost function State(): Server
      reads this
    {
      if alive then Running(recvBuffer, waitingFor, waitForNumBytes, msgId, calls) else Dead(calls)
    }

    constructor (order: ByteOrder)
      ensures byteOrder == order && State() == START
    {
      recvBuffer, waitingFor, waitForNumBytes, msgId := [], Header, 5, -1;
      alive, calls, byteOrder := true, [], order;
    }

    /** One packet taken from the queue. */
    method Receive(msg: seq<byte>)
      requires State().Valid()
      modifies this
      ensures State().Valid() && State() == Feed(byteOrder, old(State()), msg)
    {
      if !alive {
        return;
      }
      recvBuffer := recvBuffer + msg;
      ghost var appended := State();
      while alive && |recvBuffer| >= waitForNumBytes
        invariant State().Valid()
        invariant Drain(byteOrder, State()) == Drain(byteOrder, appended)
        decreases Measure(State())
      {
        ghost var before := State();
        if waitingFor.Header? {
          var (id, need) := DeserializeHeader(byteOrder, recvBuffer[..5]);
          msgId, waitForNumBytes := id as int, need;
          recvBuffer := recvBuffer[5..];
          waitingFor := Body;
        } else {
          var r := HandleBody(msgId as byte, recvBuffer[..waitForNumBytes]);
          if r.None? {
            alive := false;
          } else {
            calls := calls + [r.value];
            recvBuffer := recvBuffer[waitForNumBytes..];
            waitingFor := Header;
            waitForNumBytes := 5;
          }
        }
        assert State() == Step(byteOrder, before);
      }
    }

    /** The outer loop over the packets of a connection. */
    method ReadFromQueue(packets: seq<seq<byte>>)
      requires State() == START
      modifies this
      ensures State() == Feed(byteOrder, START, Concat(packets))
      ensures State().Valid() && Explains(byteOrder, State(), Concat(packets))
    {
      for n := 0 to |packets|
        invariant State().Valid() && State() == FeedAll(byteOrder, START, packets[..n])
      {
        Receive(packets[n]);
        assert packets[..n + 1][..n] == packets[..n];
      }
      assert packets[..|packets|] == packets;
      ChunkInvariance(byteOrder, START, packets);
      Conservation(byteOrder, packets);
    }
  }
}
