/** The interrupt-driven I2C master: its interrupt routine, and what holds over every sequence of
    events the TWI hardware can report to it. */
module TwiMaster {
  import opened Widths
  import opened Options

  /** The status codes the routine distinguishes; every other one takes its default branch. */
  datatype Status =
    | START | REP_START | ARB_LOST
    | MTX_ADR_ACK | MTX_ADR_NACK | MTX_DATA_ACK | MTX_DATA_NACK
    | MRX_ADR_ACK | MRX_ADR_NACK | MRX_DATA_ACK | MRX_DATA_NACK
    | BUS_ERROR | NO_STATE

  /** A write to TWCR (TWEN is always set, TWWC never). */
  datatype Command = Command(twie: bool, twint: bool, twea: bool, twsta: bool, twsto: bool)

  /** The driver's static variables. `stray` records a store past the end of the message buffer. */
  datatype Master = Master(buf: seq<uint8>, msgSize: uint8, sendStop: bool, state: Status,
                           lastTransOK: bool, bufPtr: uint8, stray: bool)
  {
    ghost predicate Valid() { msgSize as int <= |buf| }
  }

  /** What one interrupt does: new variables, the byte put in TWDR if any, the command. */
  datatype Outcome = Outcome(m: Master, send: Option<uint8>, command: Command)

  function Transmit(m: Master): Outcome
    requires m.Valid()
  {
    if m.bufPtr < m.msgSize then
      Outcome(m.(bufPtr := m.bufPtr + 1), Some(m.buf[m.bufPtr]), Command(true, true, false, false, false))
    else
      Outcome(m.(lastTransOK := true), None, Command(false, true, false, false, m.sendStop))
  }

  /** The next byte is acknowledged unless it is the last one wanted. */
  function Receive(m: Master): Outcome {
    Outcome(m, None, Command(true, true, m.bufPtr as int < m.msgSize as int - 1, false, false))
  }

  function Put(m: Master, data: uint8): (r: Master)
    ensures |r.buf| == |m.buf| && r.msgSize == m.msgSize
  {
    if (m.bufPtr as int) < |m.buf| then m.(buf := m.buf[m.bufPtr := data]) else m.(stray := true)
  }

  /** `ISR( TWI_vect )`, for any status and data register. */
  function Isr(m: Master, status: Status, twdr: uint8): (o: Outcome)
    requires m.Valid()
    ensures o.m.Valid() && o.m.msgSize == m.msgSize && |o.m.buf| == |m.buf| && o.m.sendStop == m.sendStop
  {
    match status
    case START => Transmit(m.(bufPtr := 0))
    case REP_START => Transmit(m.(bufPtr := 0))
    case MTX_ADR_ACK => Transmit(m)
    case MTX_DATA_ACK => Transmit(m)
    case MRX_DATA_ACK => var p := Put(m, twdr); Receive(p.(bufPtr := Incremented(p.bufPtr)))
    case MRX_ADR_ACK => Receive(m)
    case MRX_DATA_NACK => Outcome(Put(m, twdr).(lastTransOK := true), None, Command(false, true, false, false, true))
    case ARB_LOST => Outcome(m, None, Command(true, true, false, true, false))
    case _ => Outcome(m.(state := status), None, Command(false, false, false, false, false))
  }

  class TwiDriver {
    var buf: array<uint8>
    var msgSize: uint8
    var sendStop: bool
    var state: Status
    var lastTransOK: bool
    var bufPtr: uint8
    ghost var stray: bool

    ghost function State(): Master
      reads this, buf
    {
      Master(buf[..], msgSize, sendStop, state, lastTransOK, bufPtr, stray)
    }

    constructor ()
      ensures fresh(buf)
      ensures State() == Master([], 0, false, NO_STATE, false, 0, false)
    {
      buf := new uint8[0];
      msgSize, sendStop, state, lastTransOK, bufPtr, stray := 0, false, NO_STATE, false, 0, false;
    }

    /** `TWI_Start_Transceiver_With_Data`, once the driver is not busy. The buffer pointer is left as
        it is until the START is reported. */
    method StartTransceiverWithData(msg: array<uint8>, msgSize: uint8, sendStop: bool) returns (command: Command)
      requires msgSize as int <= msg.Length
      modifies this
      ensures State() == Master(msg[..], msgSize, sendStop, NO_STATE, false, old(bufPtr), old(stray))
      ensures command == Command(true, true, false, true, false)
    {
      this.msgSize, this.sendStop, buf := msgSize, sendStop, msg;
      lastTransOK, state := false, NO_STATE;
      command := Command(true, true, false, true, false);
    }

    /** The interrupt routine. The store after the last wanted byte is skipped here, and recorded, when
        it falls outside the buffer; in C it overwrites what lies behind. */
    method Interrupt(status: Status, twdr: uint8) returns (send: Option<uint8>, command: Command)
      requires State().Valid()
      modifies this`bufPtr, this`lastTransOK, this`state, this`stray, buf
      ensures Outcome(State(), send, command) == Isr(old(State()), status, twdr)
    {
      send := None;
      command := Command(true, true, false, false, false);
      if status == START || status == REP_START || status == MTX_ADR_ACK || status == MTX_DATA_ACK {
        if status == START || status == REP_START {
          bufPtr := 0;
        }
        if bufPtr < msgSize {
          send := Some(buf[bufPtr]);
          bufPtr := bufPtr + 1;
        } else {
          lastTransOK := true;
          command := Command(false, true, false, false, sendStop);
        }
      } else if status == MRX_DATA_ACK || status == MRX_ADR_ACK {
        if status == MRX_DATA_ACK {
          PutByte(twdr);
          bufPtr := Incremented(bufPtr);
        }
        command := Command(true, true, bufPtr as int < msgSize as int - 1, false, false);
      } else if status == MRX_DATA_NACK {
        PutByte(twdr);
        lastTransOK := true;
        command := Command(false, true, false, false, true);
      } else if status == ARB_LOST {
        command := Command(true, true, false, true, false);
      } else {
        state := status;
        command := Command(false, false, false, false, false);
      }
    }

    method PutByte(data: uint8)
      modifies this`stray, buf
      ensures State() == Put(old(State()), data)
    {
      if (bufPtr as int) < buf.Length {
        buf[bufPtr] := data;
      } else {
        stray := true;
      }
    }
  }

  // ---- Every run the hardware allows ----

  /** What the hardware is doing, as decided by the commands so far. */
  datatype Phase = Off | Starting | Addressed(byte: uint8) | Sending | Receiving(ack: bool)

  /** The statuses that can follow, whatever the slave and the other masters do. */
  ghost predicate Legal(phase: Phase, s: Status) {
    match phase
    case Off => false
    case Starting => s.START? || s.REP_START? || Failure(s)
    case Addressed(b) =>
      if b % 2 == 0 then s.MTX_ADR_ACK? || s.MTX_ADR_NACK? || Failure(s)
      else s.MRX_ADR_ACK? || s.MRX_ADR_NACK? || Failure(s)
    case Sending => s.MTX_DATA_ACK? || s.MTX_DATA_NACK? || Failure(s)
    case Receiving(ack) => (if ack then s.MRX_DATA_ACK? else s.MRX_DATA_NACK?) || Failure(s)
  }

  ghost predicate Failure(s: Status) { s.ARB_LOST? || s.BUS_ERROR? || s.NO_STATE? }

  function NextPhase(phase: Phase, o: Outcome): Phase {
    if !o.command.twie then Off
    else if o.command.twsta then Starting
    else
      match phase
      case Off => Off
      case Starting => if o.send.Some? then Addressed(o.send.value) else Off
      case Addressed(b) => if b % 2 == 0 then Sending else Receiving(o.command.twea)
      case Sending => Sending
      case Receiving(_) => Receiving(o.command.twea)
  }

  /** The driver with the history since the last START: bytes sent, how many of them were
      acknowledged, bytes received, and whether each of those was acknowledged. */
  datatype Transfer = Transfer(m: Master, phase: Phase, sent: seq<uint8>, acked: nat, got: seq<uint8>, acks: seq<bool>)

  datatype Event = Event(status: Status, twdr: uint8)

  function Advance(t: Transfer, e: Event): Transfer
    requires t.m.Valid()
  {
    var o := Isr(t.m, e.status, e.twdr);
    var phase := NextPhase(t.phase, o);
    var more := if o.send.Some? then [o.send.value] else [];
    match e.status
    case START => Transfer(o.m, phase, more, 0, [], [])
    case REP_START => Transfer(o.m, phase, more, 0, [], [])
    case MTX_ADR_ACK => Transfer(o.m, phase, t.sent + more, |t.sent|, t.got, t.acks)
    case MTX_DATA_ACK => Transfer(o.m, phase, t.sent + more, |t.sent|, t.got, t.acks)
    case MRX_ADR_ACK => Transfer(o.m, phase, t.sent, |t.sent|, t.got, t.acks)
    case MRX_DATA_ACK => Transfer(o.m, phase, t.sent, t.acked, t.got + [e.twdr], t.acks + [true])
    case MRX_DATA_NACK => Transfer(o.m, phase, t.sent, t.acked, t.got + [e.twdr], t.acks + [false])
    case _ => Transfer(o.m, phase, t.sent, t.acked, t.got, t.acks)
  }

  /** A message is read when the low bit of its first byte is set. */
  predicate IsRead(msg: seq<uint8>, size: uint8)
    requires size as int <= |msg|
  {
    size > 0 && msg[0] % 2 == 1
  }

  ghost predicate AllTrue(s: seq<bool>) { forall i :: 0 <= i < |s| ==> s[i] }

  ghost predicate WriteInv(t: Transfer, msg: seq<uint8>, size: uint8)
    requires size as int <= |msg|
  {
    && t.m.buf == msg
    && (match t.phase
        case Starting => !t.m.lastTransOK
        case Addressed(b) => !t.m.lastTransOK && size > 0 && b == msg[0] && t.m.bufPtr == 1 && t.sent == msg[..1]
        case Sending => !t.m.lastTransOK && 0 < t.m.bufPtr <= size && t.sent == msg[..t.m.bufPtr]
        case Receiving(_) => false
        case Off => t.m.lastTransOK ==> t.sent == msg[..size] && t.acked == size as int)
  }

  ghost predicate ReadInv(t: Transfer, msg: seq<uint8>, size: uint8)
    requires 2 <= size as int <= |msg|
  {
    && |t.m.buf| == |msg| && t.m.buf[0] == msg[0] && t.m.buf[size..] == msg[size..]
    && (match t.phase
        case Starting => !t.m.lastTransOK
        case Addressed(b) =>
          && !t.m.lastTransOK && b == msg[0] && t.m.bufPtr == 1 && t.sent == [msg[0]] && t.got == [] && t.acks == []
        case Sending => false
        case Receiving(ack) =>
          && !t.m.lastTransOK && 1 <= t.m.bufPtr < size && ack == (t.m.bufPtr < size - 1)
          && t.sent == [msg[0]] && t.acked == 1
          && t.got == t.m.buf[1..t.m.bufPtr] && |t.acks| == |t.got| && AllTrue(t.acks)
        case Off => t.m.lastTransOK ==> ReadDone(t, msg, size))
  }

  /** A finished read: the address was acknowledged, exactly the wanted bytes came in and lie where
      they belong, and all of them but the last were acknowledged. */
  ghost predicate ReadDone(t: Transfer, msg: seq<uint8>, size: uint8)
    requires 2 <= size as int <= |msg|
  {
    && t.sent == [msg[0]] && t.acked == 1
    && |t.m.buf| == |msg| && t.got == t.m.buf[1..size]
    && |t.acks| == size as int - 1 && !t.acks[|t.acks| - 1] && AllTrue(t.acks[..|t.acks| - 1])
  }

  ghost predicate Inv(t: Transfer, msg: seq<uint8>, size: uint8)
    requires size as int <= |msg|
    requires IsRead(msg, size) ==> size >= 2
  {
    && t.m.Valid() && t.m.msgSize == size && !t.m.stray
    && (if IsRead(msg, size) then ReadInv(t, msg, size) else WriteInv(t, msg, size))
  }

  lemma WriteStep(t: Transfer, msg: seq<uint8>, size: uint8, e: Event)
    requires size as int <= |msg| && !IsRead(msg, size) && Inv(t, msg, size) && Legal(t.phase, e.status)
    ensures Inv(Advance(t, e), msg, size)
  {
    if !Failure(e.status) && |t.sent| < |msg| {
      assert msg[..|t.sent|] + [msg[|t.sent|]] == msg[..|t.sent| + 1];
    }
  }

  lemma ReadByteStep(t: Transfer, msg: seq<uint8>, size: uint8, e: Event)
    requires 2 <= size as int <= |msg| && IsRead(msg, size) && Inv(t, msg, size) && Legal(t.phase, e.status)
    requires e.status.MRX_DATA_ACK? || e.status.MRX_DATA_NACK?
    ensures Inv(Advance(t, e), msg, size)
  {
    var k := t.m.bufPtr;
    var buf := t.m.buf[k := e.twdr];
    assert buf[1..k + 1] == t.m.buf[1..k] + [e.twdr];
    assert buf[size..] == t.m.buf[size..];
    assert (t.acks + [false])[..|t.acks|] == t.acks;
  }

  lemma ReadStep(t: Transfer, msg: seq<uint8>, size: uint8, e: Event)
    requires 2 <= size as int <= |msg| && IsRead(msg, size) && Inv(t, msg, size) && Legal(t.phase, e.status)
    ensures Inv(Advance(t, e), msg, size)
  {
    if e.status.MRX_DATA_ACK? || e.status.MRX_DATA_NACK? {
      ReadByteStep(t, msg, size, e);
    } else {
      hide Put;
    }
  }

  /** The events of a run, each possible after the ones before it. */
  ghost predicate Possible(t: Transfer, events: seq<Event>)
    requires t.m.Valid()
    decreases |events|
  {
    events != [] ==> Legal(t.phase, events[0].status) && Possible(Advance(t, events[0]), events[1..])
  }

  function RunEvents(t: Transfer, events: seq<Event>): (u: Transfer)
    requires t.m.Valid()
    ensures u.m.Valid()
    decreases |events|
  {
    if events == [] then t else RunEvents(Advance(t, events[0]), events[1..])
  }

  /** A transfer just requested: whatever the driver did before. */
  ghost predicate Requested(t: Transfer, msg: seq<uint8>, size: uint8) {
    && size as int <= |msg| && t.phase.Starting?
    && t.m.buf == msg && t.m.msgSize == size && !t.m.lastTransOK && !t.m.stray
  }

  lemma {:induction false} RunKeepsInv(t: Transfer, msg: seq<uint8>, size: uint8, events: seq<Event>)
    requires size as int <= |msg| && (IsRead(msg, size) ==> size >= 2) && Inv(t, msg, size) && Possible(t, events)
    ensures Inv(RunEvents(t, events), msg, size)
    decreases |events|
  {
    if events != [] {
      if IsRead(msg, size) {
        ReadStep(t, msg, size, events[0]);
      } else {
        WriteStep(t, msg, size, events[0]);
      }
      RunKeepsInv(Advance(t, events[0]), msg, size, events[1..]);
    }
  }

  /** Safety of the driver over every event sequence the hardware can produce, with any slave and any
      failures: nothing is stored outside the message; while it transmits, what was sent since the last
      START is a prefix of the message and the pointer is within it; success is reported only when the
      transfer is over and every byte was acknowledged, or, for a read of at least one byte, exactly
      the wanted bytes arrived with only the last one refused. */
  lemma TransferSafe(t: Transfer, msg: seq<uint8>, size: uint8, events: seq<Event>)
    requires Requested(t, msg, size) && (IsRead(msg, size) ==> size >= 2) && Possible(t, events)
    ensures var u := RunEvents(t, events);
            && !u.m.stray && |u.m.buf| == |msg| && u.m.buf[size..] == msg[size..]
            && (u.phase.Addressed? || u.phase.Sending? || u.phase.Receiving? ==>
                  u.m.bufPtr <= size && u.sent <= msg[..size])
            && (u.m.lastTransOK ==> u.phase.Off?)
            && (u.m.lastTransOK && IsRead(msg, size) ==> ReadDone(u, msg, size))
            && (u.m.lastTransOK && !IsRead(msg, size) ==> u.sent == msg[..size] && u.acked == size as int)
  {
    RunKeepsInv(t, msg, size, events);
  }

  /** The statuses on which the driver gives up. */
  predicate Fatal(s: Status) {
    s.MTX_ADR_NACK? || s.MTX_DATA_NACK? || s.MRX_ADR_NACK? || s.BUS_ERROR? || s.NO_STATE?
  }

  lemma StatusStep(t: Transfer, e: Event)
    requires t.m.Valid() && t.m.state.NO_STATE? && !t.m.lastTransOK && Legal(t.phase, e.status)
    ensures var u := Advance(t, e);
            if Fatal(e.status) then u.phase.Off? && !u.m.lastTransOK && u.m.state == e.status
            else u.m.state.NO_STATE? && (u.m.lastTransOK <==> u.phase.Off?)
  {}

  /** Over every sequence of events: a run that is over without success has ended with a fatal status, and that
      is what the driver reports; until then, and after a success, it reports none. */
  lemma {:induction false} StatusReported(t: Transfer, events: seq<Event>)
    requires t.m.Valid() && t.m.state.NO_STATE? && !t.m.lastTransOK && !t.phase.Off?
    requires Possible(t, events) && events != []
    ensures var u := RunEvents(t, events); var last := events[|events| - 1].status;
            && (u.phase.Off? && !u.m.lastTransOK <==> Fatal(last))
            && u.m.state == if Fatal(last) then last else NO_STATE
    decreases |events|
  {
    StatusStep(t, events[0]);
    var u := Advance(t, events[0]);
    if |events| > 1 {
      assert events[1..][0] == events[1];
      StatusReported(u, events[1..]);
    } else {
      assert RunEvents(u, events[1..]) == u;
    }
  }

  /** Nothing is stored outside the message, in its buffer or past it. */
  ghost predicate Inside(t: Transfer, msg: seq<uint8>, size: uint8, events: seq<Event>)
    requires t.m.Valid() && size as int <= |msg|
  {
    var m := RunEvents(t, events).m;
    !m.stray && |m.buf| == |msg| && m.buf[size..] == msg[size..]
  }

  function EmptyRead(data: uint8): seq<Event> { [Event(START, 0), Event(MRX_ADR_ACK, 0), Event(MRX_DATA_NACK, data)] }

  /** Asked to read nothing, the driver still takes one byte, stores it behind the address, past the message,
      and reports success. */
  lemma EmptyReadStrays(t: Transfer, msg: seq<uint8>, data: uint8)
    requires Requested(t, msg, 1) && IsRead(msg, 1)
    ensures Possible(t, EmptyRead(data))
    ensures var m := RunEvents(t, EmptyRead(data)).m;
            m.lastTransOK && if |msg| == 1 then m.stray else m.buf == msg[1 := data]
  {
    var events := EmptyRead(data);
    var t1 := Advance(t, events[0]);
    var t2 := Advance(t1, events[1]);
    var t3 := Advance(t2, events[2]);
    assert events[1..] == [events[1], events[2]] && events[2..] == [events[2]] && events[3..] == [];
    assert events[1..][1..] == events[2..] && events[2..][1..] == [];
    assert t1.phase == Addressed(msg[0]) && t2.phase == Receiving(false);
    assert RunEvents(t2, events[2..]) == RunEvents(t3, []);
    assert RunEvents(t1, events[1..]) == RunEvents(t2, events[2..]);
    assert Possible(t3, []) && Possible(t2, events[2..]) && Possible(t1, events[1..]);
  }

  /** Over every sequence of events nothing is stored outside the message exactly when a read asks for at
      least one byte, whatever the length of the buffer. */
  lemma InsideExactlyWhenReadIsNotEmpty(t: Transfer, msg: seq<uint8>, size: uint8)
    requires Requested(t, msg, size)
    ensures (forall events | Possible(t, events) :: Inside(t, msg, size, events)) <==> (IsRead(msg, size) ==> size >= 2)
  {
    hide RunEvents, Possible;
    if IsRead(msg, size) ==> size >= 2 {
      forall events | Possible(t, events)
        ensures Inside(t, msg, size, events)
      {
        TransferSafe(t, msg, size, events);
      }
    } else {
      var data: uint8 := if |msg| > 1 && msg[1] == 0 then 1 else 0;
      EmptyReadStrays(t, msg, data);
      assert |msg| > 1 ==> msg[1 := data][1..][0] != msg[1..][0];
      assert !Inside(t, msg, size, EmptyRead(data));
    }
  }
}
