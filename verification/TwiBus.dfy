/** Master, TWI hardware and EEPROM on one bus: over any sequence of operations the EEPROM is a plain
    memory. The hardware is the simulator's (`avr_twi.c`) in master mode, with its time delays left out. */
module TwiBus {
  import opened Widths
  import opened Options
  import opened Eeprom
  import opened I2cBus
  import opened TwiMaster

  /** The hardware's state bits, the address it talks to, TWDR, the two bits of TWCR that stay, and
      the status its timer will report. */
  datatype Hardware = Hardware(start: bool, addr: bool, ack: bool, write: bool, read: bool, peer: uint8,
                               twdr: uint8, twie: bool, twsta: bool, pending: Option<Status>)
  {
    predicate Active() { start || addr || ack || write || read }

    function Cleared(): Hardware { this.(start := false, addr := false, ack := false, write := false, read := false) }
  }

  /** The address byte goes out as a start message; the slave answers at once. */
  function SendAddress(h: Hardware, p: Part): (r: (Hardware, Part))
    requires p.Valid()
    ensures r.1.Valid()
  {
    var (q, reply) := Hook(p, Start(h.twdr));
    var ok := reply.Ack?;
    var odd := h.twdr % 2 == 1;
    var status := if odd then (if ok then MRX_ADR_ACK else MRX_ADR_NACK)
                  else if ok then MTX_ADR_ACK else MTX_ADR_NACK;
    (h.(addr := true, peer := h.twdr, ack := ok, read := h.read || odd, write := false, pending := Some(status)), q)
  }

  /** A data byte in the direction of the address, if the latch is ready. */
  function MoveByte(h: Hardware, p: Part, twea: bool): (r: (Hardware, Part))
    requires p.Valid()
    ensures r.1.Valid()
  {
    var g := h.(ack := false, write := false);
    if h.peer % 2 == 1 then
      if h.read then
        var (q, reply) := Hook(p, Message.Read);
        (g.(twdr := if reply.Data? then reply.data else h.twdr,
            pending := Some(if twea then MRX_DATA_ACK else MRX_DATA_NACK)), q)
      else (g, p)
    else if h.write then
      var (q, reply) := Hook(p, Message.Write(h.twdr));
      (g.(ack := reply.Ack?, pending := Some(if reply.Ack? then MTX_DATA_ACK else MTX_DATA_NACK)), q)
    else (g, p)
  }

  /** `avr_twi_write`: a write to TWCR. */
  function WriteTwcr(h: Hardware, p: Part, c: Command): (r: (Hardware, Part))
    requires p.Valid()
    ensures r.1.Valid()
  {
    var h0 := h.(twie := c.twie, twsta := c.twsta);
    var p1 := if c.twsto && h.start then Hook(p, Message.Stop).0 else p;
    var h1 := if c.twsto then h0.Cleared() else h0;
    var h2 := if !h.twsta && c.twsta
              then h1.Cleared().(start := true, peer := 0, pending := Some(if h1.start then REP_START else START))
              else h1;
    if !c.twint || c.twsta then (h2, p1)
    else if h2.addr then MoveByte(h2, p1, c.twea)
    else if h2.Active() then SendAddress(h2, p1)
    else (h2, p1)
  }

  datatype System = System(m: Master, h: Hardware, p: Part)
  {
    ghost predicate Valid() { m.Valid() && p.Valid() }

    /** `TWI_Transceiver_Busy`, with something left for the hardware to report. */
    predicate Busy() { h.twie && h.pending.Some? }
  }

  /** One interrupt: reading TWDR and writing it set the latches, then TWCR is written. */
  function Service(s: System): (t: System)
    requires s.Valid() && s.Busy()
    ensures t.Valid()
  {
    var status := s.h.pending.value;
    var o := Isr(s.m, status, s.h.twdr);
    var h1 := s.h.(pending := None, read := s.h.read || status.MRX_DATA_ACK? || status.MRX_DATA_NACK?);
    var h2 := if o.send.Some? then h1.(twdr := o.send.value, write := true) else h1;
    var (h3, q) := WriteTwcr(h2, s.p, o.command);
    System(o.m, h3, q)
  }

  /** Interrupts are served until none is pending, at most `n`. */
  function Settle(s: System, n: nat): (t: System)
    requires s.Valid()
    ensures t.Valid()
    decreases n
  {
    if n > 0 && s.Busy() then Settle(Service(s), n - 1) else s
  }

  /** `TWI_Start_Transceiver_With_Data`. */
  function Request(s: System, msg: seq<uint8>, sendStop: bool): (t: System)
    requires s.Valid() && |msg| < 256
    ensures t.Valid()
  {
    var m := Master(msg, |msg| as uint8, sendStop, NO_STATE, false, s.m.bufPtr, s.m.stray);
    var (h, p) := WriteTwcr(s.h, s.p, Command(true, true, false, true, false));
    System(m, h, p)
  }

  /** No transfer under way and no slave addressed: where every transfer with a STOP ends. */
  ghost predicate AtRest(s: System) {
    && s.Valid() && !s.h.Active() && !s.h.twie && !s.h.twsta && s.h.pending.None?
    && s.p.selected == 0 && s.p.index == 0 && s.p.regAddr == 0
  }

  /** The bus held after a write without STOP. */
  ghost predicate Held(s: System) {
    && s.Valid() && s.h.start && !s.h.write && !s.h.twie && !s.h.twsta && s.h.pending.None?
  }

  /** The part answers to its base address, even, for writing and to the next one for reading. */
  ghost predicate Addressable(p: Part) {
    && 0 < p.base < 255 && p.base % 2 == 0
    && Matches(p, p.base) && Matches(p, p.base + 1)
  }

  // ---- Transmitting ----

  /** About to be told that byte `bufPtr - 1` was acknowledged. */
  ghost predicate Transmitting(s: System) {
    && s.Valid() && s.h.start && s.h.addr && !s.h.write && s.h.peer % 2 == 0 && s.h.twie && !s.h.twsta
    && (s.h.pending == Some(MTX_ADR_ACK) || s.h.pending == Some(MTX_DATA_ACK))
    && 1 <= s.m.bufPtr <= s.m.msgSize && s.p.selected != 0
  }

  lemma TransmitStep(s: System)
    requires Transmitting(s) && s.m.bufPtr < s.m.msgSize
    ensures var t := Service(s);
            && Transmitting(t) && t.m == s.m.(bufPtr := s.m.bufPtr + 1)
            && t.p == WriteByte(s.p, s.m.buf[s.m.bufPtr])
  {}

  lemma TransmitEnd(s: System)
    requires Transmitting(s) && s.m.bufPtr == s.m.msgSize
    ensures var t := Service(s);
            && t.m == s.m.(lastTransOK := true)
            && (s.m.sendStop ==> t.p == Hook(s.p, Message.Stop).0 && AtRest(t))
            && (!s.m.sendStop ==> t.p == s.p && Held(t))
  {}

  lemma {:induction false} TransmitLoop(s: System, n: nat)
    requires Transmitting(s) && n > s.m.msgSize as int - s.m.bufPtr as int
    ensures var t := Settle(s, n); var q := WriteBytes(s.p, s.m.buf[s.m.bufPtr..s.m.msgSize]);
            && t.m == s.m.(bufPtr := s.m.msgSize, lastTransOK := true)
            && (s.m.sendStop ==> t.p == Hook(q, Message.Stop).0 && AtRest(t))
            && (!s.m.sendStop ==> t.p == q && Held(t))
    decreases n
  {
    hide Isr, WriteTwcr, Hook, WriteByte;
    if s.m.bufPtr == s.m.msgSize {
      TransmitEnd(s);
      assert s.m.buf[s.m.bufPtr..s.m.msgSize] == [];
    } else {
      TransmitStep(s);
      var rest := s.m.buf[s.m.bufPtr..s.m.msgSize];
      assert rest[0] == s.m.buf[s.m.bufPtr] && rest[1..] == s.m.buf[s.m.bufPtr + 1..s.m.msgSize];
      TransmitLoop(Service(s), n - 1);
    }
  }

  // ---- Receiving ----

  /** A byte has come in for position `bufPtr`; all but the last are acknowledged. */
  ghost predicate Receiving(s: System) {
    && s.Valid() && s.h.start && s.h.addr && s.h.read && s.h.peer % 2 == 1 && s.h.twie && !s.h.twsta
    && 1 <= s.m.bufPtr < s.m.msgSize && s.p.selected != 0
    && s.h.pending == Some(if s.m.bufPtr < s.m.msgSize - 1 then MRX_DATA_ACK else MRX_DATA_NACK)
  }

  function Following(p: Part): nat
    requires p.Valid()
  {
    if p.regAddr as int + 1 == p.size then 0 else p.regAddr as int + 1
  }

  lemma ReceiveStep(s: System)
    requires Receiving(s) && s.m.bufPtr < s.m.msgSize - 1
    ensures var t := Service(s); var k := s.m.bufPtr;
            && Receiving(t) && t.m == s.m.(buf := s.m.buf[k := s.h.twdr], bufPtr := k + 1)
            && t.h.twdr == s.p.ee[s.p.regAddr]
            && t.p == s.p.(regAddr := Following(s.p) as uint16, index := s.p.index + 1)
  {
    NextCell(s.p);
  }

  lemma ReceiveEnd(s: System)
    requires Receiving(s) && s.m.bufPtr == s.m.msgSize - 1
    ensures var t := Service(s); var k := s.m.bufPtr;
            && t.m == s.m.(buf := s.m.buf[k := s.h.twdr], lastTransOK := true)
            && AtRest(t) && t.p == s.p.(selected := 0, index := 0, regAddr := 0)
  {}

  lemma FetchedStep(p: Part, n: nat)
    requires p.Valid() && n > 0
    ensures Fetched(p.ee, p.size, p.regAddr as int, n) ==
            [p.ee[p.regAddr]] + Fetched(p.ee, p.size, Following(p), n - 1)
  {}

  lemma FetchedNone(p: Part)
    requires p.Valid()
    ensures Fetched(p.ee, p.size, p.regAddr as int, 0) == []
  {}

  lemma SettleOne(s: System, n: nat)
    requires s.Valid() && s.Busy() && n > 0
    ensures Settle(s, n) == Settle(Service(s), n - 1)
  {}

  lemma SettleRest(s: System, n: nat)
    requires s.Valid() && !s.Busy()
    ensures Settle(s, n) == s
  {}

  lemma Rejoin(buf: seq<uint8>, k: nat, size: nat, first: uint8, second: uint8, rest: seq<uint8>)
    requires k < size <= |buf|
    ensures var b := buf[k := first];
            b[..k + 1] + [second] + rest + b[size..] == buf[..k] + [first] + ([second] + rest) + buf[size..]
  {
    var b := buf[k := first];
    assert b[..k + 1] == buf[..k] + [first] && b[size..] == buf[size..];
  }

  lemma {:induction false} ReceiveLoop(s: System, n: nat)
    requires Receiving(s) && n >= s.m.msgSize as int - s.m.bufPtr as int
    ensures var t := Settle(s, n); var k := s.m.bufPtr; var size := s.m.msgSize;
            && t.m.buf == s.m.buf[..k] + [s.h.twdr]
                          + Fetched(s.p.ee, s.p.size, s.p.regAddr as int, size as int - 1 - k as int) + s.m.buf[size..]
            && t.m.lastTransOK && t.m.stray == s.m.stray
            && AtRest(t) && t.p == s.p.(selected := 0, index := 0, regAddr := 0)
    decreases n
  {
    hide Service, Fetched;
    var k, size := s.m.bufPtr, s.m.msgSize;
    SettleOne(s, n);
    if k == size - 1 {
      ReceiveEnd(s);
      SettleRest(Service(s), n - 1);
      FetchedNone(s.p);
      assert s.m.buf[k := s.h.twdr] == s.m.buf[..k] + [s.h.twdr] + [] + s.m.buf[size..];
    } else {
      ReceiveStep(s);
      var t := Service(s);
      ReceiveLoop(t, n - 1);
      var rest := Fetched(s.p.ee, s.p.size, Following(s.p), size as int - 2 - k as int);
      FetchedStep(s.p, size as int - 1 - k as int);
      Rejoin(s.m.buf, k as int, size as int, s.h.twdr, t.h.twdr, rest);
    }
  }

  // ---- Whole transfers ----

  lemma BeginWrite(s: System, msg: seq<uint8>, sendStop: bool)
    requires (AtRest(s) || Held(s)) && 1 <= |msg| < 256
    requires Addressable(s.p) && msg[0] == s.p.base
    ensures var r := Request(s, msg, sendStop); var t := Service(r);
            && r.Busy() && Transmitting(t) && t.m.bufPtr == 1 && t.m.msgSize as int == |msg| && t.m.buf == msg
            && t.m.sendStop == sendStop && t.m.stray == s.m.stray
            && t.p == s.p.(selected := s.p.base, index := 0)
  {}

  lemma BeginRead(s: System, msg: seq<uint8>)
    requires (AtRest(s) || Held(s)) && 2 <= |msg| < 256
    requires Addressable(s.p) && msg[0] == s.p.base + 1
    ensures var r := Request(s, msg, true); var t := Service(r);
            && r.Busy() && t.Busy() && t.h.pending == Some(MRX_ADR_ACK) && t.h.start && t.h.addr && t.h.read
            && !t.h.twsta && t.h.peer % 2 == 1
            && t.m.bufPtr == 1 && t.m.msgSize as int == |msg| && t.m.buf == msg && t.m.stray == s.m.stray
            && t.p == s.p.(selected := s.p.base + 1, index := 0)
  {
    hide Matches;
  }

  lemma FirstByte(t: System)
    requires t.Valid() && t.Busy() && t.h.pending == Some(MRX_ADR_ACK) && t.h.start && t.h.addr && t.h.read
    requires !t.h.twsta && t.h.peer % 2 == 1 && t.m.bufPtr == 1 && t.m.msgSize >= 2 && t.p.selected != 0
    ensures var u := Service(t);
            && Receiving(u) && u.m == t.m && u.h.twdr == t.p.ee[t.p.regAddr]
            && u.p == t.p.(regAddr := Following(t.p) as uint16, index := t.p.index + 1)
  {
    NextCell(t.p);
  }

  const PATIENCE := 300

  /** A whole transmission: the part takes the bytes after the address byte. */
  lemma WriteTransfer(s: System, msg: seq<uint8>, sendStop: bool)
    requires AtRest(s) && 1 <= |msg| < 256 && Addressable(s.p) && msg[0] == s.p.base
    ensures var t := Settle(Request(s, msg, sendStop), PATIENCE);
            var q := WriteBytes(s.p.(selected := s.p.base), msg[1..]);
            && t.m.lastTransOK && t.m.stray == s.m.stray
            && (sendStop ==> t.p == Hook(q, Message.Stop).0 && AtRest(t))
            && (!sendStop ==> t.p == q && Held(t))
  {
    hide Isr, WriteTwcr, Hook, Request, Service;
    BeginWrite(s, msg, sendStop);
    var t := Service(Request(s, msg, sendStop));
    assert Settle(Request(s, msg, sendStop), PATIENCE) == Settle(t, PATIENCE - 1);
    TransmitLoop(t, PATIENCE - 1);
    assert msg[1..|msg|] == msg[1..];
  }

  lemma SettleTwo(r: System)
    requires r.Valid() && r.Busy() && Service(r).Busy()
    ensures Settle(r, PATIENCE) == Settle(Service(Service(r)), PATIENCE - 2)
  {
    hide Service;
    assert Settle(r, PATIENCE) == Settle(Service(r), PATIENCE - 1);
  }

  /** A read request brings the first byte in with the third status. */
  lemma ReadOpening(s: System, msg: seq<uint8>)
    requires (AtRest(s) || Held(s)) && 2 <= |msg| < 256 && Addressable(s.p) && msg[0] == s.p.base + 1
    ensures var r := Request(s, msg, true);
            && r.Busy() && Service(r).Busy()
            && var u := Service(Service(r));
               && Receiving(u) && u.m.buf == msg && u.m.bufPtr == 1 && u.m.msgSize as int == |msg|
               && u.m.stray == s.m.stray && u.h.twdr == s.p.ee[s.p.regAddr]
               && u.p == s.p.(selected := s.p.base + 1, index := 1, regAddr := Following(s.p) as uint16)
  {
    hide Isr, WriteTwcr, Hook, Request, Service;
    BeginRead(s, msg);
    FirstByte(Service(Request(s, msg, true)));
  }

  lemma ReadAssembled(msg: seq<uint8>, first: uint8, p: Part, n: nat)
    requires p.Valid() && |msg| == n + 1 && n >= 1 && first == p.ee[p.regAddr]
    ensures msg[..1] + [first] + Fetched(p.ee, p.size, Following(p), n - 1) + msg[n + 1..]
            == [msg[0]] + Fetched(p.ee, p.size, p.regAddr as int, n)
  {
    var rest := Fetched(p.ee, p.size, Following(p), n - 1);
    assert msg[..1] == [msg[0]] && msg[n + 1..] == [];
    assert Fetched(p.ee, p.size, p.regAddr as int, n) == [first] + rest;
  }

  /** From the third interrupt on the reception runs to its end. */
  lemma ReadSettles(r: System)
    requires r.Valid() && r.Busy() && Service(r).Busy()
    requires var u := Service(Service(r)); Receiving(u) && u.m.bufPtr == 1
    ensures var t := Settle(r, PATIENCE); var u := Service(Service(r)); var size := u.m.msgSize;
            && t.m.buf == u.m.buf[..1] + [u.h.twdr]
                          + Fetched(u.p.ee, u.p.size, u.p.regAddr as int, size as int - 2) + u.m.buf[size..]
            && t.m.lastTransOK && t.m.stray == u.m.stray
            && AtRest(t) && t.p == u.p.(selected := 0, index := 0, regAddr := 0)
  {
    hide Service, Settle, Fetched, Receiving;
    SettleTwo(r);
    var u := Service(Service(r));
    ReceiveLoop(u, PATIENCE - 2);
  }

  /** A whole reception, from wherever the part's address register stands. */
  lemma ReadTransfer(s: System, msg: seq<uint8>)
    requires (AtRest(s) || Held(s)) && 2 <= |msg| < 256 && Addressable(s.p) && msg[0] == s.p.base + 1
    ensures var t := Settle(Request(s, msg, true), PATIENCE);
            && t.m.lastTransOK && t.m.stray == s.m.stray
            && t.m.buf == [msg[0]] + Fetched(s.p.ee, s.p.size, s.p.regAddr as int, |msg| - 1)
            && AtRest(t) && t.p == s.p.(selected := 0, index := 0, regAddr := 0)
  {
    hide Request, Service, Settle, Fetched, Addressable, Following, Receiving;
    var r := Request(s, msg, true);
    ReadOpening(s, msg);
    ReadSettles(r);
    ReadAssembled(msg, Service(Service(r)).h.twdr, s.p, |msg| - 1);
  }

  // ---- The EEPROM is a memory ----

  /** What a program does with the part: a write message with STOP; or the address without STOP
      followed by a read. */
  datatype Op = Store(at: uint16, data: seq<uint8>) | Fetch(at: uint16, n: nat)

  /** The address fits the bytes the part expects, and the message fits the driver's 8-bit size. */
  ghost predicate Fits(p: Part, op: Op) {
    && (p.size <= 256 ==> op.at < 256)
    && (match op
        case Store(_, data) => |data| + p.AddressBytes() < 255
        case Fetch(_, n) => 1 <= n < 255)
  }

  function Perform(s: System, op: Op): (r: (System, seq<uint8>))
    requires s.Valid() && Fits(s.p, op) && s.p.base < 255
    ensures r.0.Valid()
  {
    var address := [s.p.base] + AddressOf(s.p, op.at);
    match op
    case Store(_, data) => (Settle(Request(s, address + data, true), PATIENCE), [])
    case Fetch(_, n) =>
      var t := Settle(Request(s, address, false), PATIENCE);
      var u := Settle(Request(t, [s.p.base + 1] + seq(n, _ => 0), true), PATIENCE);
      (u, if |u.m.buf| > 0 then u.m.buf[1..] else [])
  }

  /** The same operation on a plain array of cells. */
  function Remember(p: Part, ee: seq<uint8>, op: Op): (r: (seq<uint8>, seq<uint8>))
    requires 0 < p.size <= |ee|
    ensures |r.0| == |ee|
  {
    match op
    case Store(at, data) => (Stored(ee, p.size, Cell(p, at as int), data), [])
    case Fetch(at, n) => (ee, Fetched(ee, p.size, Cell(p, at as int), n))
  }

  lemma StoreIsRemembered(s: System, op: Op)
    requires AtRest(s) && Addressable(s.p) && Fits(s.p, op) && op.Store?
    ensures ZeroSize(s.p)
    ensures var (t, out) := Perform(s, op); var (ee, expected) := Remember(s.p, s.p.ee, op);
            AtRest(t) && t.m.lastTransOK && t.p == s.p.(ee := ee) && out == expected && t.m.stray == s.m.stray
  {
    hide Settle, Request, WriteBytes, Stored, Matches;
    var msg := [s.p.base] + AddressOf(s.p, op.at) + op.data;
    assert msg[1..] == AddressOf(s.p, op.at) + op.data;
    WriteTransfer(s, msg, true);
    WriteTransaction(s.p.(selected := s.p.base), op.at, op.data);
  }

  ghost predicate ZeroSize(p: Part) { 0 < p.size }

  lemma SameAnswers(p: Part, q: Part)
    requires Addressable(p) && q.base == p.base && q.mask == p.mask
    ensures Addressable(q)
  {
    assert Matches(q, p.base) == Matches(p, p.base) && Matches(q, p.base + 1) == Matches(p, p.base + 1);
  }

  lemma StoredNothing(ee: seq<uint8>, size: nat, at: nat)
    requires at < size <= |ee|
    ensures Stored(ee, size, at, []) == ee
  {}

  /** The address alone, without STOP, leaves the part's register on the cell. */
  lemma AddressSet(s: System, at: uint16)
    requires AtRest(s) && Addressable(s.p) && (s.p.size <= 256 ==> at < 256)
    ensures var t := Settle(Request(s, [s.p.base] + AddressOf(s.p, at), false), PATIENCE);
            && Held(t) && Addressable(t.p) && t.m.stray == s.m.stray && ZeroSize(s.p)
            && t.p.regAddr as int == Cell(s.p, at as int)
            && t.p.(selected := 0, index := 0, regAddr := 0) == s.p
  {
    hide Settle, Request, WriteBytes, Stored, Matches;
    var address := [s.p.base] + AddressOf(s.p, at);
    assert address[1..] == AddressOf(s.p, at) + [];
    WriteTransfer(s, address, false);
    WriteTransaction(s.p.(selected := s.p.base), at, []);
    SameAnswers(s.p, Settle(Request(s, address, false), PATIENCE).p);
    StoredNothing(s.p.ee, s.p.size, Cell(s.p, at as int));
  }

  lemma FetchIsRemembered(s: System, op: Op)
    requires AtRest(s) && Addressable(s.p) && Fits(s.p, op) && op.Fetch?
    ensures ZeroSize(s.p)
    ensures var (t, out) := Perform(s, op); var (ee, expected) := Remember(s.p, s.p.ee, op);
            AtRest(t) && t.m.lastTransOK && t.p == s.p.(ee := ee) && out == expected && t.m.stray == s.m.stray
  {
    hide Settle, Request, WriteBytes, Fetched, Matches;
    AddressSet(s, op.at);
    var t := Settle(Request(s, [s.p.base] + AddressOf(s.p, op.at), false), PATIENCE);
    ReadTransfer(t, [s.p.base + 1] + seq(op.n, _ => 0));
  }

  function RunOps(s: System, ops: seq<Op>): (r: (System, seq<seq<uint8>>))
    requires s.Valid() && AtRest(s) && Addressable(s.p) && forall i :: 0 <= i < |ops| ==> Fits(s.p, ops[i])
    ensures r.0.Valid() && AtRest(r.0)
    ensures r.0.p.(ee := s.p.ee) == s.p
    decreases |ops|
  {
    if ops == [] then (s, [])
    else
      var (t, outs) := RunOps(s, ops[..|ops| - 1]);
      var op := ops[|ops| - 1];
      StillAddressable(s, t, op);
      OpIsRemembered(t, op);
      var (u, out) := Perform(t, op);
      (u, outs + [out])
  }

  /** The same on an array of cells: what a memory would return. */
  function Recall(p: Part, ops: seq<Op>): (r: (seq<uint8>, seq<seq<uint8>>))
    requires 0 < p.size <= |p.ee|
    ensures |r.0| == |p.ee|
    decreases |ops|
  {
    if ops == [] then (p.ee, [])
    else
      var (ee, outs) := Recall(p, ops[..|ops| - 1]);
      var (ee', out) := Remember(p, ee, ops[|ops| - 1]);
      (ee', outs + [out])
  }

  lemma StillAddressable(s: System, t: System, op: Op)
    requires Addressable(s.p) && t.p.(ee := s.p.ee) == s.p && Fits(s.p, op)
    ensures Addressable(t.p) && Fits(t.p, op)
  {
    SameAnswers(s.p, t.p);
  }

  lemma OpIsRemembered(s: System, op: Op)
    requires AtRest(s) && Addressable(s.p) && Fits(s.p, op)
    ensures ZeroSize(s.p)
    ensures var (t, out) := Perform(s, op); var (ee, expected) := Remember(s.p, s.p.ee, op);
            AtRest(t) && t.m.lastTransOK && t.p == s.p.(ee := ee) && out == expected && t.m.stray == s.m.stray
  {
    if op.Store? {
      StoreIsRemembered(s, op);
    } else {
      FetchIsRemembered(s, op);
    }
  }

  lemma SameMemory(p: Part, q: Part, ee: seq<uint8>, op: Op)
    requires 0 < p.size <= |ee| && q.size == p.size && q.base == p.base
    ensures Remember(p, ee, op) == Remember(q, ee, op)
  {
    hide Stored, Fetched;
  }

  /** End to end: for every part size, base address and list of operations, running the master's
      interrupts against the EEPROM's hook returns exactly what a plain memory would, leaves exactly
      its contents in the cells, and stores nothing outside the caller's buffers. */
  lemma {:induction false} BusIsMemory(s: System, ops: seq<Op>)
    requires AtRest(s) && Addressable(s.p) && !s.m.stray
    requires forall i :: 0 <= i < |ops| ==> Fits(s.p, ops[i])
    ensures ZeroSize(s.p)
    ensures var (t, outs) := RunOps(s, ops); var (ee, expected) := Recall(s.p, ops);
            t.p.ee == ee && outs == expected && !t.m.stray
    decreases |ops|
  {
    hide Perform, Remember;
    ZeroBelow(s.p);
    if ops != [] {
      var front, op := ops[..|ops| - 1], ops[|ops| - 1];
      BusIsMemory(s, front);
      var t := RunOps(s, front).0;
      StillAddressable(s, t, op);
      OpIsRemembered(t, op);
      SameMemory(s.p, t.p, t.p.ee, op);
    }
  }

  /** The part of the demonstration board: base 0xA0, with a mask that covers the read bit. */
  lemma BoardPartAddressable(p: Part)
    requires p.base == 0xA0 && p.mask == 0x01
    ensures Addressable(p)
  {
    assert (0xA0 as bv8) & !(0x01 as bv8) == 0xA0 && (0xA1 as bv8) & !(0x01 as bv8) == 0xA0;
  }
}
