/** A USB control read between three parties: the firmware's GET_DESCRIPTOR loop, the simulated endpoint
    0, and the virtual host's reassembly loop. Firmware and host run concurrently: every register access
    and every host call is one atomic step, and the theorems hold for every interleaving. */
module UsbControl {
  import opened Options
  import opened Widths

  type byte = uint8

  const ENDPOINT0_SIZE := 16
  const GET_DESCRIPTOR: byte := 6

  datatype Descriptor = Descriptor(wValue: uint16, wIndex: uint16, data: seq<byte>)

  datatype Request = Request(wValue: uint16, wIndex: uint16, wLength: uint16)

  /** A control read: the firmware's table, the host's request, the packet size the host believes in. */
  datatype Job = Job(list: seq<Descriptor>, req: Request, epsz: nat)

  /** The table stores each length in one byte. */
  ghost predicate Lengths(list: seq<Descriptor>) {
    forall i | 0 <= i < |list| :: |list[i].data| < 256
  }

  // ---- The request on the wire ----

  function Low(w: uint16): byte { (w as int % 256) as byte }
  function High(w: uint16): byte { (w as int / 256) as byte }
  function Word(low: byte, high: byte): uint16 { (low as int + 256 * high as int) as uint16 }

  function SetupBytes(r: Request): (b: seq<byte>)
    ensures |b| == 8
  {
    [0x80, GET_DESCRIPTOR, Low(r.wValue), High(r.wValue),
     Low(r.wIndex), High(r.wIndex), Low(r.wLength), High(r.wLength)]
  }

  /** `UEDATX`: an empty FIFO reads as zero. */
  function At(fifo: seq<byte>, i: nat): byte { if i < |fifo| then fifo[i] else 0 }

  function Decoded(fifo: seq<byte>): Request {
    Request(Word(At(fifo, 2), At(fifo, 3)), Word(At(fifo, 4), At(fifo, 5)), Word(At(fifo, 6), At(fifo, 7)))
  }

  lemma SetupRoundTrip(r: Request)
    ensures Decoded(SetupBytes(r)) == r && At(SetupBytes(r), 1) == GET_DESCRIPTOR
  {}

  /** The eight bytes of section 9.3 of the USB 2.0 specification: a standard device-to-host request, then three
      words, low byte first. */
  lemma SetupOnWire(r: Request)
    ensures var b := SetupBytes(r);
            && b[0] == 128 && b[1] == 6
            && b[2] as int + 256 * b[3] as int == r.wValue as int
            && b[4] as int + 256 * b[5] as int == r.wIndex as int
            && b[6] as int + 256 * b[7] as int == r.wLength as int
  {}

  // ---- The descriptor table ----

  /** The table from outside: whether an entry carries both words, and which is the first that does. */
  predicate Named(d: Descriptor, wValue: uint16, wIndex: uint16) { d.wValue == wValue && d.wIndex == wIndex }

  ghost predicate Unknown(list: seq<Descriptor>, wValue: uint16, wIndex: uint16) {
    forall k | 0 <= k < |list| :: !Named(list[k], wValue, wIndex)
  }

  ghost predicate FirstNamed(list: seq<Descriptor>, wValue: uint16, wIndex: uint16, i: nat) {
    && i < |list| && Named(list[i], wValue, wIndex)
    && forall k | 0 <= k < i :: !Named(list[k], wValue, wIndex)
  }

  function Lookup(list: seq<Descriptor>, wValue: uint16, wIndex: uint16): (r: Option<seq<byte>>)
    decreases |list|
  {
    if list == [] then None
    else if list[0].wValue == wValue && list[0].wIndex == wIndex then Some(list[0].data)
    else Lookup(list[1..], wValue, wIndex)
  }

  /** The search loop of `ISR(USB_COM_vect)`: the first entry that matches both words. */
  method Find(list: seq<Descriptor>, wValue: uint16, wIndex: uint16) returns (r: Option<seq<byte>>)
    ensures r == Lookup(list, wValue, wIndex)
    ensures r.None? <==> Unknown(list, wValue, wIndex)
    ensures r.Some? ==> exists i: nat :: FirstNamed(list, wValue, wIndex, i) && r.value == list[i].data
  {
    var i := 0;
    while true
      invariant i <= |list| && Lookup(list[i..], wValue, wIndex) == Lookup(list, wValue, wIndex)
      invariant forall k | 0 <= k < i :: !Named(list[k], wValue, wIndex)
      decreases |list| - i
    {
      if i >= |list| {
        return None;
      }
      if list[i].wValue != wValue {
        i := i + 1;
        continue;
      }
      if list[i].wIndex != wIndex {
        i := i + 1;
        continue;
      }
      assert FirstNamed(list, wValue, wIndex, i);
      return Some(list[i].data);
    }
  }

  lemma {:induction false} LookupMeans(list: seq<Descriptor>, wValue: uint16, wIndex: uint16)
    ensures var r := Lookup(list, wValue, wIndex);
            if r.None? then Unknown(list, wValue, wIndex)
            else exists i: nat :: FirstNamed(list, wValue, wIndex, i) && r.value == list[i].data
    decreases |list|
  {
    if list != [] && !Named(list[0], wValue, wIndex) {
      LookupMeans(list[1..], wValue, wIndex);
      if i: nat :| FirstNamed(list[1..], wValue, wIndex, i)
                   && Lookup(list, wValue, wIndex) == Some(list[1..][i].data) {
        LaterNamed(list, wValue, wIndex, i);
      }
    } else if list != [] {
      assert FirstNamed(list, wValue, wIndex, 0);
    }
  }

  lemma LaterNamed(list: seq<Descriptor>, wValue: uint16, wIndex: uint16, i: nat)
    requires list != [] && !Named(list[0], wValue, wIndex) && FirstNamed(list[1..], wValue, wIndex, i)
    ensures FirstNamed(list, wValue, wIndex, i + 1)
  {
    forall k | 0 <= k < i + 1 ensures !Named(list[k], wValue, wIndex) {
      assert k > 0 ==> list[1..][k - 1] == list[k];
    }
  }

  function Clip(data: seq<byte>, wLength: uint16): (r: seq<byte>) {
    var len := if wLength < 256 then wLength as nat else 255;
    if len > |data| then data else data[..len]
  }

  /** What the host is owed: the first min(wLength, 255) bytes of the descriptor, or a stall. */
  function Reply(list: seq<Descriptor>, r: Request): Option<seq<byte>> {
    match Lookup(list, r.wValue, r.wIndex)
    case None => None
    case Some(data) => Some(Clip(data, r.wLength))
  }

  /** `got` is the beginning of `data`, as long as min(wLength, 255, |data|). */
  predicate CutTo(got: seq<byte>, data: seq<byte>, wLength: uint16) {
    && got <= data && |got| <= wLength as int && |got| <= 255
    && (|got| == wLength as int || |got| == 255 || |got| == |data|)
  }

  /** The answer due to a request: from the first entry that carries both its words. */
  ghost predicate Due(list: seq<Descriptor>, r: Request, got: seq<byte>) {
    exists i: nat :: FirstNamed(list, r.wValue, r.wIndex, i) && CutTo(got, list[i].data, r.wLength)
  }

  lemma CutIsClip(data: seq<byte>, wLength: uint16, got: seq<byte>)
    ensures CutTo(got, data, wLength) <==> got == Clip(data, wLength)
  {
    var clip := Clip(data, wLength);
    if CutTo(got, data, wLength) {
      assert got == data[..|got|] && clip == data[..|clip|];
    }
  }

  lemma FirstIsOne(list: seq<Descriptor>, wValue: uint16, wIndex: uint16, i: nat, k: nat)
    requires FirstNamed(list, wValue, wIndex, i) && FirstNamed(list, wValue, wIndex, k)
    ensures i == k
  {}

  /** What the table search and the clipping compute together. */
  lemma ReplyMeans(list: seq<Descriptor>, r: Request)
    ensures Reply(list, r).None? <==> Unknown(list, r.wValue, r.wIndex)
    ensures forall got :: Reply(list, r) == Some(got) <==> Due(list, r, got)
  {
    hide Lookup, Clip, CutTo;
    LookupMeans(list, r.wValue, r.wIndex);
    forall got
      ensures Reply(list, r) == Some(got) <==> Due(list, r, got)
    {
      if Lookup(list, r.wValue, r.wIndex).Some? {
        var i: nat :| FirstNamed(list, r.wValue, r.wIndex, i) && Lookup(list, r.wValue, r.wIndex) == Some(list[i].data);
        CutIsClip(list[i].data, r.wLength, got);
        if k: nat :| FirstNamed(list, r.wValue, r.wIndex, k) && CutTo(got, list[k].data, r.wLength) {
          FirstIsOne(list, r.wValue, r.wIndex, i, k);
        }
      }
    }
  }

  lemma DueFrom(list: seq<Descriptor>, r: Request, i: nat, got: seq<byte>)
    requires FirstNamed(list, r.wValue, r.wIndex, i)
    ensures Due(list, r, got) <==> CutTo(got, list[i].data, r.wLength)
  {
    if k: nat :| FirstNamed(list, r.wValue, r.wIndex, k) && CutTo(got, list[k].data, r.wLength) {
      FirstIsOne(list, r.wValue, r.wIndex, i, k);
    }
  }

  // ---- The three parties ----

  datatype Endpoint = Endpoint(fifo: seq<byte>, txini: bool, rxouti: bool, rxstpi: bool, stallrq: bool)

  /** Where the interrupt handler is. `todo` is what is left of the reply, so `len == |todo|`; `n` is the
      packet's size and `i` counts its bytes down, never past the reply. `Elsewhere` is the rest of the
      handler. */
  datatype Firmware = Idle | Wait(todo: seq<byte>) | Fill(n: nat, i: nat, todo: seq<byte>) | Elsewhere

  /** Where `control_read` is. `Crashed` is its failed assertion on the status stage. */
  datatype Host = Start | Reading(left: uint16) | Status | Done | Stalled | Crashed

  datatype State = State(ep: Endpoint, fw: Firmware, host: Host, got: seq<byte>)

  function Packet(todo: seq<byte>): nat { if |todo| < ENDPOINT0_SIZE then |todo| else ENDPOINT0_SIZE }

  /** The handler's first part: read the request, acknowledge it, look it up. */
  function Accept(j: Job, s: State): State {
    var r := Decoded(s.ep.fifo);
    var fifo := if |s.ep.fifo| < 8 then [] else s.ep.fifo[8..];
    var ep := s.ep.(fifo := fifo, rxstpi := false, txini := true, rxouti := false);
    if At(s.ep.fifo, 1) != GET_DESCRIPTOR then s.(ep := ep, fw := Elsewhere)
    else match Reply(j.list, r)
      case None => s.(ep := ep.(stallrq := true))
      case Some(data) => s.(ep := ep, fw := Wait(data))
  }

  /** One step of the firmware. */
  function FirmwareStep(j: Job, s: State): State {
    match s.fw
    case Idle => if s.ep.rxstpi then Accept(j, s) else s
    case Wait(todo) =>
      if s.ep.rxouti then s.(fw := Idle)
      else if s.ep.txini then s.(fw := Fill(Packet(todo), Packet(todo), todo))
      else s
    case Fill(n, i, todo) =>
      if i > 0 && todo != [] then
        var fifo := if |s.ep.fifo| < ENDPOINT0_SIZE then s.ep.fifo + [todo[0]] else s.ep.fifo;
        s.(ep := s.ep.(fifo := fifo), fw := Fill(n, i - 1, todo[1..]))
      else
        s.(ep := s.ep.(txini := false), fw := if todo != [] || n == ENDPOINT0_SIZE then Wait(todo) else Idle)
    case Elsewhere => s
  }

  /** `wLength -= pkt.sz` on a 16-bit counter. */
  function Minus(left: uint16, size: nat): uint16 { ((left as int - size) % 0x1_0000) as uint16 }

  /** One host call. */
  function HostStep(j: Job, s: State): State {
    match s.host
    case Start =>
      var ep := s.ep.(fifo := SetupBytes(j.req), stallrq := false, rxouti := false, rxstpi := true);
      s.(ep := ep, got := [], host := if j.req.wLength == 0 then Status else Reading(j.req.wLength))
    case Reading(left) =>
      if s.ep.stallrq then s.(host := Stalled)
      else if s.ep.txini then s
      else
        var size := |s.ep.fifo|;
        var rest := Minus(left, size);
        s.(ep := s.ep.(fifo := [], txini := true), got := s.got + s.ep.fifo,
           host := if size != j.epsz || rest == 0 then Status else Reading(rest))
    case Status =>
      if s.ep.stallrq then s.(host := Crashed)
      else if s.ep.rxouti then s
      else s.(ep := s.ep.(fifo := [], rxouti := true), host := Done)
    case _ => s
  }

  function Step(j: Job, s: State, host: bool): State {
    if host then HostStep(j, s) else FirmwareStep(j, s)
  }

  /** An interleaving: at each step, whether the host moves. */
  function Run(j: Job, s: State, schedule: seq<bool>): State
    decreases |schedule|
  {
    if schedule == [] then s else Run(j, Step(j, s, schedule[0]), schedule[1..])
  }

  // ---- What every step keeps ----

  /** The host's packet size is the firmware's, or all it asks for fits in one packet of either size. */
  predicate SizesAgree(epsz: nat, wLength: uint16) {
    epsz == ENDPOINT0_SIZE || (wLength as nat <= epsz && wLength as nat <= ENDPOINT0_SIZE)
  }

  /** A read that asks for something, with sizes that agree. */
  ghost predicate DataFits(j: Job) {
    Lengths(j.list) && j.req.wLength > 0 && SizesAgree(j.epsz, j.req.wLength)
  }

  /** The same, or a request for nothing from a descriptor that exists. */
  ghost predicate Answerable(j: Job) {
    && Lengths(j.list) && SizesAgree(j.epsz, j.req.wLength)
    && (j.req.wLength > 0 || !Unknown(j.list, j.req.wValue, j.req.wIndex))
  }

  /** The endpoint between transfers, as a transfer needs it. */
  ghost predicate Ready(s: State) { s.host.Start? && s.fw.Idle? && s.ep.txini && !s.ep.rxstpi }

  /** The request is in the FIFO and the firmware has not taken it. */
  ghost predicate Asked(j: Job, s: State) {
    && s.fw.Idle? && s.ep == Endpoint(SetupBytes(j.req), true, false, true, false)
    && s.got == [] && s.host == Reading(j.req.wLength)
  }

  ghost predicate Refused(j: Job, s: State) {
    && s.fw.Idle? && s.ep == Endpoint([], true, false, false, true) && Reply(j.list, j.req).None?
    && s.got == [] && (s.host == Reading(j.req.wLength) || s.host.Stalled?)
  }

  /** Full packets so far, and the rest of the reply spread over the FIFO and the firmware. */
  ghost predicate Flowing(j: Job, s: State) {
    && Reply(j.list, j.req).Some? && !s.ep.rxouti && !s.ep.rxstpi && !s.ep.stallrq
    && |s.got| % ENDPOINT0_SIZE == 0 && |s.got| < j.req.wLength as nat
    && s.host == Reading((j.req.wLength as nat - |s.got|) as uint16)
    && (j.epsz != ENDPOINT0_SIZE ==> s.got == [])
    && var r := Reply(j.list, j.req).value;
       match s.fw
       case Idle => !s.ep.txini && |s.ep.fifo| < ENDPOINT0_SIZE && s.got + s.ep.fifo == r
       case Wait(todo) =>
         && (s.ep.txini ==> s.ep.fifo == []) && (!s.ep.txini ==> |s.ep.fifo| == ENDPOINT0_SIZE)
         && s.got + s.ep.fifo + todo == r
       case Fill(n, i, todo) =>
         && s.ep.txini && |s.ep.fifo| == n - i && n == Packet(s.ep.fifo + todo)
         && s.got + s.ep.fifo + todo == r
       case Elsewhere => false
  }

  /** The host has it all; the firmware has stopped or has only an empty packet left to offer. */
  ghost predicate Delivered(j: Job, s: State) {
    && Reply(j.list, j.req) == Some(s.got) && !s.ep.rxstpi && !s.ep.stallrq && s.ep.fifo == []
    && (s.host.Status? || s.host.Done?) && (s.ep.rxouti <==> s.host.Done?)
    && (s.fw == Idle || s.fw == Wait([]) || s.fw == Fill(0, 0, []))
    && (s.fw != Idle ==> s.ep.txini)
    && (s.fw != Idle || !s.ep.txini ==> |s.got| % ENDPOINT0_SIZE == 0 && |s.got| == j.req.wLength as nat)
  }

  ghost predicate Inv(j: Job, s: State) {
    Ready(s) || Asked(j, s) || Refused(j, s) || Flowing(j, s) || Delivered(j, s)
  }

  lemma ReplyLength(j: Job)
    requires Lengths(j.list) && Reply(j.list, j.req).Some?
    ensures |Reply(j.list, j.req).value| < 256 && |Reply(j.list, j.req).value| <= j.req.wLength as nat
  {
    LookupLength(j.list, j.req.wValue, j.req.wIndex);
  }

  lemma {:induction false} LookupLength(list: seq<Descriptor>, wValue: uint16, wIndex: uint16)
    requires Lengths(list)
    ensures Lookup(list, wValue, wIndex).Some? ==> |Lookup(list, wValue, wIndex).value| < 256
    decreases |list|
  {
    if list != [] {
      assert |list[0].data| < 256;
      LookupLength(list[1..], wValue, wIndex);
    }
  }

  lemma AskedKeeps(j: Job, s: State, host: bool)
    requires DataFits(j) && Asked(j, s)
    ensures Inv(j, Step(j, s, host))
  {
    hide Reply;
    if !host {
      SetupRoundTrip(j.req);
      var t := Accept(j, s);
      assert t.ep.fifo == [];
      if Reply(j.list, j.req).Some? {
        assert [] + [] + t.fw.todo == t.fw.todo;
        assert Flowing(j, t);
      } else {
        assert Refused(j, t);
      }
    }
  }

  lemma HostFlows(j: Job, s: State)
    requires DataFits(j) && Flowing(j, s)
    ensures var t := HostStep(j, s);
            if t.host.Reading? then Flowing(j, t) else Delivered(j, t) && t.host.Status?
  {
    hide Reply;
    if !s.ep.txini {
      var t := HostStep(j, s);
      var r := Reply(j.list, j.req).value;
      ReplyLength(j);
      var size := |s.ep.fifo|;
      assert |s.got| + size <= |r|;
      if s.fw.Idle? {
        assert Delivered(j, t);
      } else {
        assert s.got + s.ep.fifo + s.fw.todo == t.got + [] + s.fw.todo;
        if t.host.Status? {
          assert s.fw.todo == [] && t.got + [] == t.got;
          assert Delivered(j, t);
        } else {
          assert Flowing(j, t);
        }
      }
    }
  }

  lemma FirmwareFlows(j: Job, s: State)
    requires DataFits(j) && Flowing(j, s)
    ensures Flowing(j, FirmwareStep(j, s))
  {
    hide Reply;
    var t := FirmwareStep(j, s);
    match s.fw {
      case Idle =>
      case Wait(todo) =>
        if s.ep.txini {
          assert [] + todo == todo;
          assert Flowing(j, t);
        }
      case Fill(n, i, todo) =>
        if i > 0 && todo != [] {
          assert s.ep.fifo + todo == t.ep.fifo + todo[1..];
          assert s.got + (s.ep.fifo + todo) == s.got + s.ep.fifo + todo;
          assert s.got + (t.ep.fifo + todo[1..]) == s.got + t.ep.fifo + todo[1..];
          assert Flowing(j, t);
        } else {
          assert i == 0;
          if t.fw.Idle? {
            assert todo == [] && s.got + s.ep.fifo + todo == s.got + s.ep.fifo;
          }
          assert Flowing(j, t);
        }
    }
  }

  lemma DeliveredKeeps(j: Job, s: State, host: bool)
    requires DataFits(j) && Delivered(j, s)
    ensures Delivered(j, Step(j, s, host))
  {
    hide Reply;
  }

  lemma StepKeeps(j: Job, s: State, host: bool)
    requires DataFits(j) && Inv(j, s)
    ensures Inv(j, Step(j, s, host))
  {
    hide Asked, Flowing, Delivered, Reply;
    if Asked(j, s) {
      AskedKeeps(j, s, host);
    } else if Flowing(j, s) {
      if host { HostFlows(j, s); } else { FirmwareFlows(j, s); }
    } else if Delivered(j, s) {
      DeliveredKeeps(j, s, host);
    } else if Ready(s) && host {
      assert Asked(j, HostStep(j, s)) by { StartAsks(j, s); }
    }
  }

  lemma StartAsks(j: Job, s: State)
    requires DataFits(j) && Ready(s)
    ensures Asked(j, HostStep(j, s))
  {}

  lemma {:induction false} RunKeeps(j: Job, s: State, schedule: seq<bool>)
    requires DataFits(j) && Inv(j, s)
    ensures Inv(j, Run(j, s, schedule))
    decreases |schedule|
  {
    hide Inv, Step;
    if schedule != [] {
      StepKeeps(j, s, schedule[0]);
      RunKeeps(j, Step(j, s, schedule[0]), schedule[1..]);
    }
  }

  /** What the invariant says to the host: never more bytes than asked for, the whole reply when it
      finishes, a stall exactly when there is no such descriptor, and no failed assertion. */
  ghost predicate Sound(j: Job, s: State) {
    && |s.got| <= j.req.wLength as nat
    && (s.host.Done? ==> Due(j.list, j.req, s.got))
    && (s.host.Stalled? ==> Unknown(j.list, j.req.wValue, j.req.wIndex))
    && !s.host.Crashed?
  }

  lemma InvSound(j: Job, s: State)
    requires DataFits(j) && Inv(j, s) && !s.host.Start?
    ensures Sound(j, s)
  {
    hide Reply, Due, Unknown;
    ReplyMeans(j.list, j.req);
    if Delivered(j, s) {
      ReplyLength(j);
    }
  }

  lemma DataSafe(j: Job, s: State, schedule: seq<bool>)
    requires DataFits(j) && Ready(s)
    ensures SoundAfter(j, s, schedule)
  {
    RunKeeps(j, s, schedule);
    var t := Run(j, s, schedule);
    if !t.host.Start? {
      InvSound(j, t);
    }
  }

  /** Whatever happened up to here, if anything, was sound. */
  ghost predicate SoundAfter(j: Job, s: State, schedule: seq<bool>) {
    var t := Run(j, s, schedule); t.host.Start? || Sound(j, t)
  }

  // ---- Requests for nothing ----

  ghost predicate Nothing(j: Job) { j.req.wLength == 0 && !Unknown(j.list, j.req.wValue, j.req.wIndex) }

  /** Before the request, with a packet pending or not. */
  ghost predicate Quiet(s: State) { s.host.Start? && s.fw.Idle? && !s.ep.rxstpi }

  /** The host goes straight to the status stage, which may empty the FIFO before the request is read. */
  ghost predicate Emptied(j: Job, s: State) {
    && s.got == [] && !s.ep.stallrq && (s.host.Done? || (s.host.Status? && !s.ep.rxouti))
    && (if s.ep.rxstpi then s.fw.Idle? && s.ep.fifo == if s.host.Status? then SetupBytes(j.req) else []
        else s.fw == Idle || s.fw == Wait([]) || s.fw == Fill(0, 0, []) || s.fw == Elsewhere)
  }

  lemma NothingReply(j: Job)
    requires Nothing(j)
    ensures Reply(j.list, j.req) == Some([]) && Due(j.list, j.req, [])
  {
    hide Due, Unknown;
    ReplyMeans(j.list, j.req);
  }

  lemma AcceptsNothing(j: Job, s: State)
    requires Nothing(j) && s.fw.Idle? && s.ep.rxstpi && (s.ep.fifo == SetupBytes(j.req) || s.ep.fifo == [])
    ensures var t := Accept(j, s); t.fw == Wait([]) || t.fw == Elsewhere
    ensures var t := Accept(j, s);
            t.ep == Endpoint([], true, false, false, s.ep.stallrq) && t.host == s.host && t.got == s.got
  {
    hide Reply, Decoded, SetupBytes;
    NothingReply(j);
    SetupRoundTrip(j.req);
    if s.ep.fifo == [] {
      assert At(s.ep.fifo, 1) != GET_DESCRIPTOR;
    } else {
      assert s.ep.fifo[8..] == [];
    }
  }

  /** The host calls still to come when there is no data stage. */
  function Left(s: State): nat { if s.host.Start? then 2 else if s.host.Status? then 1 else 0 }

  lemma EmptiedKeeps(j: Job, s: State, host: bool)
    requires Nothing(j) && (Quiet(s) || Emptied(j, s))
    ensures var t := Step(j, s, host); Quiet(t) || Emptied(j, t)
    ensures var t := Step(j, s, host); Left(t) == if host && Left(s) > 0 then Left(s) - 1 else Left(s)
    ensures Left(s) == 0 ==> s.host.Done?
  {
    hide Accept, SetupBytes;
    if !host && s.fw.Idle? && s.ep.rxstpi {
      AcceptsNothing(j, s);
    }
  }

  /** How often the host moves. */
  function HostTurns(schedule: seq<bool>): nat
    decreases |schedule|
  {
    if schedule == [] then 0 else (if schedule[0] then 1 else 0) + HostTurns(schedule[1..])
  }

  lemma {:induction false} NothingRuns(j: Job, s: State, schedule: seq<bool>)
    requires Nothing(j) && (Quiet(s) || Emptied(j, s))
    ensures var t := Run(j, s, schedule);
            && (Quiet(t) || Emptied(j, t))
            && (HostTurns(schedule) >= Left(s) ==> t.host.Done?)
    decreases |schedule|
  {
    hide Emptied, Step, Left;
    if schedule == [] {
      EmptiedKeeps(j, s, true);
    } else {
      EmptiedKeeps(j, s, schedule[0]);
      NothingRuns(j, Step(j, s, schedule[0]), schedule[1..]);
    }
  }

  lemma NothingSafe(j: Job, s: State, schedule: seq<bool>)
    requires Nothing(j) && Quiet(s)
    ensures SoundAfter(j, s, schedule)
  {
    NothingRuns(j, s, schedule);
    NothingReply(j);
  }

  /** For a descriptor that does not exist the host meets the stall in the status stage, where it asserts
      that there is none. */
  lemma NothingCrashes(j: Job, s: State)
    requires j.req.wLength == 0 && Unknown(j.list, j.req.wValue, j.req.wIndex) && Ready(s)
    ensures Run(j, s, [true, false, true]).host.Crashed?
  {
    hide Decoded, SetupBytes, Run, Unknown, Due;
    ReplyMeans(j.list, j.req);
    SetupRoundTrip(j.req);
    RunThree(j, s, true, false, true);
  }

  /** Safety over every interleaving. */
  lemma TransferSafe(j: Job, s: State, schedule: seq<bool>)
    requires Answerable(j) && Ready(s)
    ensures var t := Run(j, s, schedule); !t.host.Start? ==> Sound(j, t)
  {
    if j.req.wLength > 0 {
      DataSafe(j, s, schedule);
    } else {
      NothingSafe(j, s, schedule);
    }
  }

  /** Given sizes that agree, every interleaving is sound exactly when something is asked for or the
      descriptor exists. */
  lemma SafeExactlyWhenAnswerable(j: Job, s: State)
    requires Lengths(j.list) && SizesAgree(j.epsz, j.req.wLength) && Ready(s)
    ensures (forall schedule :: SoundAfter(j, s, schedule))
            <==> j.req.wLength > 0 || !Unknown(j.list, j.req.wValue, j.req.wIndex)
  {
    hide Run, Sound;
    if Answerable(j) {
      forall schedule ensures SoundAfter(j, s, schedule) {
        TransferSafe(j, s, schedule);
      }
    } else {
      NothingCrashes(j, s);
      assert !SoundAfter(j, s, [true, false, true]) by { CrashUnsound(j, Run(j, s, [true, false, true])); }
    }
  }

  lemma CrashUnsound(j: Job, t: State)
    requires t.host.Crashed?
    ensures !Sound(j, t)
  {}

  // ---- Progress ----

  predicate Finished(s: State) { s.host.Done? || s.host.Stalled? || s.host.Crashed? }

  function FirmwareRank(s: State): nat {
    match s.fw
    case Idle => if s.ep.rxstpi then 3 * 255 + 7 else 0
    case Wait(todo) => 3 * |todo| + 6
    case Fill(n, i, todo) => 3 * |todo| + 2 * (if n > i then n - i else 0) + 5
    case Elsewhere => 0
  }

  function HostRank(j: Job, s: State): nat {
    match s.host
    case Start => j.req.wLength as nat + 3 * 255 + 10
    case Reading(left) => left as nat + 2
    case Status => 1
    case _ => 0
  }

  function Rank(j: Job, s: State): nat { HostRank(j, s) + FirmwareRank(s) }

  /** A step does nothing, or is progress. */
  lemma FirmwareRanks(j: Job, s: State)
    requires DataFits(j) && Inv(j, s)
    ensures FirmwareStep(j, s) == s || Rank(j, FirmwareStep(j, s)) < Rank(j, s)
  {
    hide Reply;
    if Asked(j, s) {
      SetupRoundTrip(j.req);
      if Reply(j.list, j.req).Some? {
        ReplyLength(j);
      }
    }
  }

  lemma HostRanks(j: Job, s: State)
    requires DataFits(j) && Inv(j, s)
    ensures HostStep(j, s) == s || Rank(j, HostStep(j, s)) < Rank(j, s)
  {
    hide Reply;
    if Flowing(j, s) && !s.ep.txini {
      ReplyLength(j);
      var r := Reply(j.list, j.req).value;
      assert |s.got| + |s.ep.fifo| <= |r|;
    }
  }

  lemma StepRanks(j: Job, s: State, host: bool)
    requires DataFits(j) && Inv(j, s)
    ensures Step(j, s, host) == s || Rank(j, Step(j, s, host)) < Rank(j, s)
  {
    hide Inv, Rank;
    HostRanks(j, s);
    FirmwareRanks(j, s);
  }

  /** Someone can always move: the host is never waiting for a firmware that waits for the host. */
  lemma NoDeadlock(j: Job, s: State)
    requires DataFits(j) && Inv(j, s) && !Finished(s)
    ensures HostStep(j, s) != s || FirmwareStep(j, s) != s
  {
    hide Reply;
    if Asked(j, s) {
      assert FirmwareStep(j, s).ep.rxstpi == false;
    }
  }

  /** A stretch in which both sides get to move. */
  ghost predicate Fair(stretch: seq<bool>) { true in stretch && false in stretch }

  lemma {:induction false} StretchRanks(j: Job, s: State, stretch: seq<bool>)
    requires DataFits(j) && Inv(j, s)
    ensures Inv(j, Run(j, s, stretch)) && Rank(j, Run(j, s, stretch)) <= Rank(j, s)
    ensures (exists c :: c in stretch && Step(j, s, c) != s) ==> Rank(j, Run(j, s, stretch)) < Rank(j, s)
    decreases |stretch|
  {
    hide Inv, Rank, Step;
    if stretch != [] {
      StepKeeps(j, s, stretch[0]);
      StepRanks(j, s, stretch[0]);
      StretchRanks(j, Step(j, s, stretch[0]), stretch[1..]);
    }
  }

  function Concat(stretches: seq<seq<bool>>): seq<bool>
    decreases |stretches|
  {
    if stretches == [] then [] else stretches[0] + Concat(stretches[1..])
  }

  lemma {:induction false} RunAppend(j: Job, s: State, a: seq<bool>, b: seq<bool>)
    ensures Run(j, s, a + b) == Run(j, Run(j, s, a), b)
    decreases |a|
  {
    hide Step;
    if a == [] {
      assert a + b == b;
    } else {
      assert (a + b)[1..] == a[1..] + b;
      RunAppend(j, Step(j, s, a[0]), a[1..], b);
    }
  }

  lemma FinishedStays(j: Job, s: State, c: bool)
    requires Finished(s)
    ensures Finished(Step(j, s, c))
  {}

  lemma {:induction false} FinishedRuns(j: Job, s: State, schedule: seq<bool>)
    requires Finished(s)
    ensures Finished(Run(j, s, schedule))
    decreases |schedule|
  {
    hide Finished, Step;
    if schedule != [] {
      FinishedStays(j, s, schedule[0]);
      FinishedRuns(j, Step(j, s, schedule[0]), schedule[1..]);
    }
  }

  lemma StretchProgresses(j: Job, s: State, stretch: seq<bool>)
    requires DataFits(j) && Inv(j, s) && Fair(stretch) && !Finished(s)
    ensures Inv(j, Run(j, s, stretch)) && Rank(j, Run(j, s, stretch)) < Rank(j, s)
  {
    hide Inv, Rank, Finished, Run;
    NoDeadlock(j, s);
    StretchRanks(j, s, stretch);
    if HostStep(j, s) != s {
      assert Step(j, s, true) != s;
    } else {
      assert Step(j, s, false) != s;
    }
  }

  /** Liveness: however the two sides interleave, once each has moved often enough the transfer is over. */
  lemma {:induction false} TransferEnds(j: Job, s: State, stretches: seq<seq<bool>>)
    requires DataFits(j) && Inv(j, s)
    requires forall i | 0 <= i < |stretches| :: Fair(stretches[i])
    requires |stretches| > Rank(j, s)
    ensures Finished(Run(j, s, Concat(stretches)))
    decreases |stretches|
  {
    hide Inv, Rank, Finished, Fair, Run;
    RunAppend(j, s, stretches[0], Concat(stretches[1..]));
    var t := Run(j, s, stretches[0]);
    if Finished(s) {
      FinishedRuns(j, s, Concat(stretches));
    } else {
      StretchProgresses(j, s, stretches[0]);
      TransferEnds(j, t, stretches[1..]);
    }
  }

  lemma {:induction false} ConcatTurns(stretches: seq<seq<bool>>)
    requires forall i | 0 <= i < |stretches| :: Fair(stretches[i])
    ensures HostTurns(Concat(stretches)) >= |stretches|
    decreases |stretches|
  {
    if stretches != [] {
      ConcatTurns(stretches[1..]);
      TurnsAppend(stretches[0], Concat(stretches[1..]));
      OneTurn(stretches[0]);
    }
  }

  lemma {:induction false} TurnsAppend(a: seq<bool>, b: seq<bool>)
    ensures HostTurns(a + b) == HostTurns(a) + HostTurns(b)
    decreases |a|
  {
    if a == [] {
      assert a + b == b;
    } else {
      assert (a + b)[1..] == a[1..] + b;
      TurnsAppend(a[1..], b);
    }
  }

  lemma {:induction false} OneTurn(a: seq<bool>)
    requires true in a
    ensures HostTurns(a) >= 1
    decreases |a|
  {
    if !a[0] {
      OneTurn(a[1..]);
    }
  }

  /** From a ready endpoint, any fair run ends with the reply delivered, or with a stall exactly when the
      table has no such descriptor. */
  lemma TransferDelivers(j: Job, s: State, stretches: seq<seq<bool>>)
    requires Answerable(j) && Ready(s)
    requires forall i | 0 <= i < |stretches| :: Fair(stretches[i])
    requires |stretches| > 0x1_0000 + 3 * 255 + 10
    ensures var t := Run(j, s, Concat(stretches));
            if Unknown(j.list, j.req.wValue, j.req.wIndex) then t.host.Stalled?
            else t.host.Done? && Due(j.list, j.req, t.got)
  {
    TransferSafe(j, s, Concat(stretches));
    if j.req.wLength > 0 {
      TransferEnds(j, s, stretches);
    } else {
      ConcatTurns(stretches);
      NothingRuns(j, s, Concat(stretches));
    }
  }

  // ---- The endpoint must be ready ----

  lemma RunOne(j: Job, s: State, c: bool)
    ensures Run(j, s, [c]) == Step(j, s, c)
  {
    hide Step;
    assert [c][1..] == [];
  }

  lemma RunThree(j: Job, s: State, a: bool, b: bool, c: bool)
    ensures Run(j, s, [a, b]) == Step(j, Step(j, s, a), b)
    ensures Run(j, s, [a, b, c]) == Step(j, Step(j, Step(j, s, a), b), c)
  {
    hide Step, Run;
    RunOne(j, s, a);
    RunOne(j, Step(j, s, a), b);
    RunOne(j, Step(j, Step(j, s, a), b), c);
    RunAppend(j, s, [a], [b]);
    RunAppend(j, s, [a, b], [c]);
    assert [a] + [b] == [a, b] && [a, b] + [c] == [a, b, c];
  }

  /** With a packet still marked as waiting in the endpoint, the host may read its own request back. */
  lemma StaleEndpoint(j: Job, s: State)
    requires DataFits(j) && s.host.Start? && !s.ep.txini
    requires !Due(j.list, j.req, SetupBytes(j.req))
    ensures !SoundAfter(j, s, [true, true]) || !SoundAfter(j, s, [true, true, true])
  {
    RunThree(j, s, true, true, true);
    assert [] + SetupBytes(j.req) == SetupBytes(j.req);
  }

  /** So, the firmware being idle, a transfer is safe over every interleaving exactly when TXINI is set or
      nothing is asked for. */
  lemma SafeExactlyWhenReady(j: Job, s: State)
    requires Answerable(j) && Quiet(s)
    requires !Due(j.list, j.req, SetupBytes(j.req))
    ensures (forall schedule :: SoundAfter(j, s, schedule)) <==> s.ep.txini || j.req.wLength == 0
  {
    hide Sound, Run;
    if j.req.wLength == 0 {
      forall schedule ensures SoundAfter(j, s, schedule) {
        NothingSafe(j, s, schedule);
      }
    } else if s.ep.txini {
      forall schedule ensures SoundAfter(j, s, schedule) {
        TransferSafe(j, s, schedule);
      }
    } else {
      StaleEndpoint(j, s);
    }
  }

  /** A transfer whose last packet is short leaves the endpoint ready for the next one. */
  lemma ShortPacketLeavesReady(j: Job, s: State, schedule: seq<bool>)
    requires DataFits(j) && Ready(s)
    requires Reply(j.list, j.req).Some?
    requires var n := |Reply(j.list, j.req).value|; n % ENDPOINT0_SIZE != 0 || n < j.req.wLength as nat
    ensures var t := Run(j, s, schedule); t.host.Done? ==> Ready(t.(host := Start))
  {
    RunKeeps(j, s, schedule);
  }

  // ---- One read after another ----

  /** The reply's last packet is full and ends exactly where the request does: the host stops asking, the
      firmware still has an empty packet to offer. */
  ghost predicate FullLast(j: Job) {
    && Reply(j.list, j.req).Some?
    && var n := |Reply(j.list, j.req).value|; n % ENDPOINT0_SIZE == 0 && n == j.req.wLength as nat
  }

  /** That is, from outside: the first entry named is at least as long as the request, which is for a multiple of
      the packet size of at most 255 bytes. */
  lemma FullLastMeans(j: Job, i: nat)
    requires FirstNamed(j.list, j.req.wValue, j.req.wIndex, i)
    ensures FullLast(j) <==>
            var n := j.req.wLength as int; n <= |j.list[i].data| && n <= 255 && n % ENDPOINT0_SIZE == 0
  {
    ReplyMeans(j.list, j.req);
    var got := Reply(j.list, j.req).value;
    DueFrom(j.list, j.req, i, got);
  }

  /** What the endpoint must be for the next read to be safe, once this one is over. */
  ghost predicate ReadyAgain(t: State) { Finished(t) ==> Ready(t.(host := Start)) }

  lemma InvReadyAgain(j: Job, t: State)
    requires DataFits(j) && Inv(j, t) && !FullLast(j)
    ensures ReadyAgain(t)
  {
    hide Reply;
  }

  /** With a full last packet the host reaches its status stage while the firmware waits to send the empty
      one; each step towards it is the one that is possible. */
  lemma {:induction false} StatusReached(j: Job, s: State) returns (schedule: seq<bool>)
    requires DataFits(j) && FullLast(j) && (Asked(j, s) || Flowing(j, s))
    ensures var t := Run(j, s, schedule); Delivered(j, t) && t.host.Status? && t.fw == Wait([])
    decreases Rank(j, s)
  {
    hide Asked, Flowing, Delivered, FullLast, Run, Rank, Step;
    var host := NextMove(j, s);
    var t := Step(j, s, host);
    StepRanks(j, s, host) by { assert Inv(j, s); }
    RunOne(j, s, host);
    if t.host.Status? {
      schedule := [host];
    } else {
      var rest := StatusReached(j, t);
      schedule := [host] + rest;
      RunAppend(j, s, [host], rest);
    }
  }

  /** Whose move it is, and where it leads. */
  lemma NextMove(j: Job, s: State) returns (host: bool)
    requires DataFits(j) && FullLast(j) && (Asked(j, s) || Flowing(j, s))
    ensures var t := Step(j, s, host);
            t != s && if t.host.Status? then Delivered(j, t) && t.fw == Wait([]) else Flowing(j, t)
  {
    hide Reply, Delivered;
    if Asked(j, s) {
      host := false;
      AskedAccepts(j, s);
    } else if s.ep.txini {
      host := false;
      FirmwareFlows(j, s);
    } else {
      host := true;
      HostFlows(j, s);
      LastIsFull(j, s);
    }
  }

  lemma AskedAccepts(j: Job, s: State)
    requires DataFits(j) && Asked(j, s) && Reply(j.list, j.req).Some?
    ensures Flowing(j, FirmwareStep(j, s))
  {
    hide Reply, Decoded, SetupBytes;
    SetupRoundTrip(j.req);
    var t := Accept(j, s);
    assert s.ep.fifo[8..] == [] && [] + [] + t.fw.todo == t.fw.todo;
  }

  lemma LastIsFull(j: Job, s: State)
    requires DataFits(j) && FullLast(j) && Flowing(j, s) && !s.ep.txini
    ensures s.fw.Wait? && HostStep(j, s).fw == s.fw
    ensures Delivered(j, HostStep(j, s)) ==> s.fw == Wait([])
  {
    hide Reply;
  }

  /** The firmware sends its empty packet before the host's status stage: TXINI is clear afterwards. */
  lemma EmptyPacketLeft(j: Job, t: State)
    requires Delivered(j, t) && t.host.Status? && t.fw == Wait([])
    ensures var u := Run(j, t, [false, false, true]);
            u.host.Done? && Quiet(u.(host := Start)) && !u.ep.txini
  {
    hide Reply, Run;
    RunThree(j, t, false, false, true);
  }

  lemma FullLastLeavesPacket(j: Job, s: State) returns (schedule: seq<bool>)
    requires DataFits(j) && Ready(s) && FullLast(j)
    ensures var u := Run(j, s, schedule); u.host.Done? && Quiet(u.(host := Start)) && !u.ep.txini
  {
    hide Asked, Delivered, FullLast, Run, HostStep;
    StartAsks(j, s);
    RunOne(j, s, true);
    var rest := StatusReached(j, HostStep(j, s));
    RunAppend(j, s, [true], rest);
    EmptyPacketLeft(j, Run(j, s, [true] + rest));
    RunAppend(j, s, [true] + rest, [false, false, true]);
    schedule := [true] + rest + [false, false, true];
  }

  /** A read leaves the endpoint ready for the next one, whatever the interleaving, exactly when its last
      packet is not a full one that ends where the request does. */
  lemma LeavesReadyExactly(j: Job, s: State)
    requires DataFits(j) && Ready(s)
    ensures (forall schedule :: ReadyAgain(Run(j, s, schedule))) <==> !FullLast(j)
  {
    hide Run, FullLast, Inv;
    if FullLast(j) {
      var schedule := FullLastLeavesPacket(j, s);
      assert !ReadyAgain(Run(j, s, schedule));
    } else {
      forall schedule ensures ReadyAgain(Run(j, s, schedule)) {
        ReadyInv(j, s);
        RunKeeps(j, s, schedule);
        InvReadyAgain(j, Run(j, s, schedule));
      }
    }
  }

  /** After such a read, the next one may deliver its own request. */
  lemma FullLastBreaksNext(j: Job, k: Job, s: State)
    requires DataFits(j) && Ready(s) && FullLast(j)
    requires DataFits(k) && !Due(k.list, k.req, SetupBytes(k.req))
    ensures exists first, second ::
              Run(j, s, first).host.Done? && !SoundAfter(k, Run(j, s, first).(host := Start), second)
  {
    hide Run, FullLast, SoundAfter, Reply, SetupBytes;
    var first := FullLastLeavesPacket(j, s);
    var u := Run(j, s, first).(host := Start);
    StaleEndpoint(k, u);
  }

  // ---- The packet sizes must agree ----

  function Firmwares(n: nat): (schedule: seq<bool>) {
    if n == 0 then [] else [false] + Firmwares(n - 1)
  }

  lemma PushOne(j: Job, s: State)
    requires s.fw.Fill? && s.fw.i > 0 && s.fw.todo != [] && |s.ep.fifo| < ENDPOINT0_SIZE
    ensures Step(j, s, false) ==
            s.(ep := s.ep.(fifo := s.ep.fifo + [s.fw.todo[0]]), fw := Fill(s.fw.n, s.fw.i - 1, s.fw.todo[1..]))
  {}

  lemma RunNone(j: Job, s: State)
    ensures Run(j, s, []) == s && Run(j, s, Firmwares(0)) == s
  {}

  lemma FirmwareFirst(j: Job, s: State, n: nat)
    requires n > 0
    ensures Run(j, s, Firmwares(n)) == Run(j, Step(j, s, false), Firmwares(n - 1))
  {
    hide Step, Run;
    RunAppend(j, s, [false], Firmwares(n - 1));
    RunOne(j, s, false);
  }

  lemma MovedOn(fifo: seq<byte>, todo: seq<byte>, i: nat)
    requires 0 < i <= |todo|
    ensures fifo + [todo[0]] + todo[1..][..i - 1] == fifo + todo[..i] && todo[1..][i - 1..] == todo[i..]
  {}

  lemma {:induction false} FillsUp(j: Job, s: State)
    requires s.fw.Fill? && s.fw.i <= |s.fw.todo| && |s.ep.fifo| + s.fw.i <= ENDPOINT0_SIZE
    ensures Run(j, s, Firmwares(s.fw.i)) ==
            s.(ep := s.ep.(fifo := s.ep.fifo + s.fw.todo[..s.fw.i]), fw := Fill(s.fw.n, 0, s.fw.todo[s.fw.i..]))
    decreases s.fw.i
  {
    hide Step, Run, Firmwares;
    var n, i, todo, fifo := s.fw.n, s.fw.i, s.fw.todo, s.ep.fifo;
    if i == 0 {
      assert fifo + todo[..0] == fifo && todo[0..] == todo;
      RunNone(j, s);
    } else {
      var t := s.(ep := s.ep.(fifo := fifo + [todo[0]]), fw := Fill(n, i - 1, todo[1..]));
      PushOne(j, s);
      FirmwareFirst(j, s, i);
      FillsUp(j, t);
      MovedOn(fifo, todo, i);
    }
  }

  /** The first packet as it lies in the endpoint, and where the firmware is then. */
  function FirstPacket(j: Job, data: seq<byte>): State {
    var n := Packet(data);
    State(Endpoint(data[..n], false, false, false, false),
          if n < |data| || n == ENDPOINT0_SIZE then Wait(data[n..]) else Idle, Reading(j.req.wLength), [])
  }

  lemma FirstPacketReached(j: Job, s: State, data: seq<byte>)
    requires j.req.wLength > 0 && Ready(s) && Reply(j.list, j.req) == Some(data)
    ensures Run(j, s, [true, false, false] + Firmwares(Packet(data)) + [false]) == FirstPacket(j, data)
  {
    var n := Packet(data);
    SetupRoundTrip(j.req);
    RunThree(j, s, true, false, false);
    var t := Run(j, s, [true, false, false]);
    assert t == State(Endpoint([], true, false, false, false), Fill(n, n, data), Reading(j.req.wLength), []);
    FillsUp(j, t);
    RunAppend(j, s, [true, false, false], Firmwares(n));
    RunAppend(j, s, [true, false, false] + Firmwares(n), [false]);
    assert [] + data[..n] == data[..n];
    RunOne(j, Run(j, t, Firmwares(n)), false);
  }

  /** Neither side will ever move again, and the host is not done. */
  ghost predicate Stuck(j: Job, s: State) {
    !Finished(s) && HostStep(j, s) == s && FirmwareStep(j, s) == s
  }

  ghost predicate GoesWrong(j: Job, s: State, schedule: seq<bool>) {
    var t := Run(j, s, schedule); (!t.host.Start? && !Sound(j, t)) || Stuck(j, t)
  }

  /** One descriptor that breaks a host with the wrong packet size: as long as its packet, or too long for
      the firmware's. */
  function Breaker(req: Request, epsz: nat): seq<Descriptor>
    requires epsz < ENDPOINT0_SIZE || req.wLength > 16
  {
    [Descriptor(req.wValue, req.wIndex, seq(if epsz < ENDPOINT0_SIZE then epsz else 17, _ => 0))]
  }

  /** The host takes the whole reply for a full packet and waits for another. */
  lemma SmallPacketsHang(j: Job, data: seq<byte>)
    requires |data| == j.epsz < ENDPOINT0_SIZE && j.epsz < j.req.wLength as nat
    ensures Stuck(j, HostStep(j, FirstPacket(j, data)))
  {}

  /** The host takes the firmware's full packet for a short one and leaves. */
  lemma BigPacketsTruncate(j: Job, data: seq<byte>)
    requires |data| == 17 && j.epsz > ENDPOINT0_SIZE && Reply(j.list, j.req) == Some(data)
    ensures var t := HostStep(j, HostStep(j, FirstPacket(j, data))); t.host.Done? && !Sound(j, t)
  {
    hide Reply, Due;
    ReplyMeans(j.list, j.req);
    assert [] + data[..16] == data[..16] != data;
  }

  lemma BreakerReply(req: Request, epsz: nat)
    requires req.wLength > 0 && !SizesAgree(epsz, req.wLength)
    ensures |Breaker(req, epsz)| == 1 && Reply(Breaker(req, epsz), req) == Some(Breaker(req, epsz)[0].data)
  {
    var list := Breaker(req, epsz);
    var data := list[0].data;
    assert Lookup(list, req.wValue, req.wIndex) == Some(data);
    assert data[..|data|] == data;
  }

  lemma MismatchBreaks(req: Request, epsz: nat, s: State)
    requires req.wLength > 0 && !SizesAgree(epsz, req.wLength) && Ready(s)
    ensures Lengths(Breaker(req, epsz))
    ensures exists schedule :: GoesWrong(Job(Breaker(req, epsz), req, epsz), s, schedule)
  {
    hide Breaker, Reply, Stuck, Sound;
    var j := Job(Breaker(req, epsz), req, epsz);
    BreakerReply(req, epsz);
    BreakerLength(req, epsz);
    var data := j.list[0].data;
    FirstPacketReached(j, s, data);
    var first := [true, false, false] + Firmwares(Packet(data)) + [false];
    var t := FirstPacket(j, data);
    if epsz < ENDPOINT0_SIZE {
      RunAppend(j, s, first, [true]);
      RunOne(j, t, true);
      SmallPacketsHang(j, data);
      assert GoesWrong(j, s, first + [true]);
    } else {
      RunAppend(j, s, first, [true, true]);
      RunThree(j, t, true, true, true);
      BigPacketsTruncate(j, data);
      assert GoesWrong(j, s, first + [true, true]);
    }
  }

  lemma BreakerLength(req: Request, epsz: nat)
    requires epsz < ENDPOINT0_SIZE || req.wLength > 16
    ensures |Breaker(req, epsz)| == 1 && |Breaker(req, epsz)[0].data| == if epsz < ENDPOINT0_SIZE then epsz else 17
    ensures Lengths(Breaker(req, epsz))
  {}

  /** A read from a ready endpoint is right for every descriptor table and every interleaving exactly when
      it asks for something and the packet sizes agree. */
  lemma RightExactlyWhenSizesAgree(req: Request, epsz: nat, s: State)
    requires Ready(s)
    ensures (forall list, schedule :: Lengths(list) ==> !GoesWrong(Job(list, req, epsz), s, schedule))
            <==> req.wLength > 0 && SizesAgree(epsz, req.wLength)
  {
    hide Run;
    if req.wLength == 0 {
      NothingCrashes(Job([], req, epsz), s);
      assert GoesWrong(Job([], req, epsz), s, [true, false, true]);
    } else if SizesAgree(epsz, req.wLength) {
      forall list, schedule | Lengths(list) ensures !GoesWrong(Job(list, req, epsz), s, schedule) {
        NeverWrong(Job(list, req, epsz), s, schedule);
      }
    } else {
      MismatchBreaks(req, epsz, s);
    }
  }

  lemma NeverWrong(j: Job, s: State, schedule: seq<bool>)
    requires DataFits(j) && Ready(s)
    ensures !GoesWrong(j, s, schedule)
  {
    hide Run, Inv;
    TransferSafe(j, s, schedule);
    assert Inv(j, s) by { ReadyInv(j, s); }
    RunKeeps(j, s, schedule);
    if !Finished(Run(j, s, schedule)) {
      NoDeadlock(j, Run(j, s, schedule));
    }
  }

  lemma ReadyInv(j: Job, s: State)
    requires Ready(s)
    ensures Inv(j, s)
  {}

  /** `get_ep0_size`: eight bytes of the device descriptor in packets of eight. */
  function Probe(list: seq<Descriptor>): Job { Job(list, Request(0x0100, 0, 8), 8) }

  /** The probe ends with the size the descriptor declares; when that is the firmware's, every later read is
      made with sizes that agree, from an endpoint left ready. */
  lemma ProbeFindsSize(list: seq<Descriptor>, i: nat, s: State, stretches: seq<seq<bool>>, wLength: uint16)
    requires Lengths(list) && Ready(s)
    requires FirstNamed(list, 0x0100, 0, i)
    requires |list[i].data| >= 8 && list[i].data[7] as int == ENDPOINT0_SIZE
    requires forall i | 0 <= i < |stretches| :: Fair(stretches[i])
    requires |stretches| > 0x1_0000 + 3 * 255 + 10
    ensures var t := Run(Probe(list), s, Concat(stretches));
            && t.host.Done? && t.got == list[i].data[..8]
            && SizesAgree(t.got[7] as nat, wLength) && Ready(t.(host := Start))
  {
    hide Run, Reply, Due;
    var j := Probe(list);
    TransferDelivers(j, s, stretches);
    ReplyMeans(list, j.req);
    DueFrom(list, j.req, i, Run(j, s, Concat(stretches)).got);
    ShortPacketLeavesReady(j, s, Concat(stretches));
  }

  /** A request for nothing skips the data stage, and the status stage may empty the FIFO before the firmware
      has read the request: the host is done, the firmware has seen some other request. */
  lemma EmptyRequestLost(j: Job, s: State)
    requires j.req.wLength == 0 && Ready(s)
    ensures var t := Run(j, s, [true, true, false]); t.host.Done? && t.fw.Elsewhere?
  {
    RunThree(j, s, true, true, false);
  }

  // ---- Many reads ----

  /** Reads one after another, each from the endpoint as the last one left it; what the host gets from each. */
  function ReadAll(jobs: seq<Job>, s: State, runs: seq<seq<seq<bool>>>): (got: seq<Option<seq<byte>>>)
    requires |runs| == |jobs|
    ensures |got| == |jobs|
    decreases |jobs|
  {
    if jobs == [] then []
    else
      var t := Run(jobs[0], s, Concat(runs[0]));
      [if t.host.Done? then Some(t.got) else None] + ReadAll(jobs[1..], t.(host := Start), runs[1..])
  }

  /** Long enough and fair. */
  ghost predicate Patient(stretches: seq<seq<bool>>) {
    |stretches| > 0x1_0000 + 3 * 255 + 10 && forall i | 0 <= i < |stretches| :: Fair(stretches[i])
  }

  /** The host has what is due, or a stall for a request that names no entry. */
  ghost predicate Answered(j: Job, got: Option<seq<byte>>) {
    match got
    case Some(data) => Due(j.list, j.req, data)
    case None => Unknown(j.list, j.req.wValue, j.req.wIndex)
  }

  /** Each read leaves the endpoint ready for the one after it: any does whose last packet is not a full one
      at the end of the request (and a request for nothing counts as one), the others when their run does. */
  ghost predicate Rested(jobs: seq<Job>, s: State, runs: seq<seq<seq<bool>>>)
    requires |runs| == |jobs|
    decreases |jobs|
  {
    |jobs| <= 1 ||
    var t := Run(jobs[0], s, Concat(runs[0])).(host := Start);
    (!FullLast(jobs[0]) || Ready(t)) && Rested(jobs[1..], t, runs[1..])
  }

  /** Any list of control reads, empty ones among them, each leaving the endpoint ready for the next: every one
      delivers its reply, or a stall for an unknown descriptor, under any fair interleaving. */
  lemma {:induction false} ReadsDeliver(jobs: seq<Job>, s: State, runs: seq<seq<seq<bool>>>)
    requires |runs| == |jobs| && (jobs != [] ==> Ready(s)) && Rested(jobs, s, runs)
    requires forall i | 0 <= i < |jobs| :: Answerable(jobs[i]) && Patient(runs[i])
    ensures forall i | 0 <= i < |jobs| :: Answered(jobs[i], ReadAll(jobs, s, runs)[i])
    decreases |jobs|
  {
    hide Run, Reply, FullLast, DataFits, Answerable, Ready, Patient;
    if jobs != [] {
      var j := jobs[0];
      var t := Run(j, s, Concat(runs[0]));
      OneReadDelivers(j, s, runs[0]);
      if |jobs| > 1 {
        ReadsDeliver(jobs[1..], t.(host := Start), runs[1..]);
      }
    }
  }

  lemma OneReadDelivers(j: Job, s: State, stretches: seq<seq<bool>>)
    requires Ready(s) && Answerable(j) && Patient(stretches)
    ensures var t := Run(j, s, Concat(stretches));
            && (!FullLast(j) ==> Ready(t.(host := Start)))
            && Answered(j, if t.host.Done? then Some(t.got) else None)
  {
    TransferDelivers(j, s, stretches);
    if j.req.wLength == 0 {
      NothingReply(j);
    } else {
      LeavesReadyExactly(j, s);
      assert !FullLast(j) ==> ReadyAgain(Run(j, s, Concat(stretches)));
    }
  }

  /** What a read that is over can leave to the next one: its request still pending, with the FIFO already
      emptied by the status stage; a firmware that is idle, or has an empty packet to offer; or one that went
      elsewhere with a request it could not read any more. */
  ghost predicate LeftBehind(s: State) {
    && s.host.Start?
    && (if s.ep.rxstpi then s.fw.Idle? && s.ep.fifo == []
        else s.fw == Idle || s.fw == Wait([]) || s.fw == Fill(0, 0, []) || s.fw == Elsewhere)
  }

  lemma ReadLeaves(j: Job, s: State, schedule: seq<bool>)
    requires Answerable(j) && Ready(s)
    ensures var t := Run(j, s, schedule); Finished(t) ==> LeftBehind(t.(host := Start))
  {
    hide Run, Inv;
    if j.req.wLength > 0 {
      ReadyInv(j, s);
      RunKeeps(j, s, schedule);
      if Finished(Run(j, s, schedule)) {
        InvLeaves(j, Run(j, s, schedule));
      }
    } else {
      NothingRuns(j, s, schedule);
    }
  }

  lemma InvLeaves(j: Job, t: State)
    requires DataFits(j) && Inv(j, t) && Finished(t)
    ensures LeftBehind(t.(host := Start))
  {
    hide Reply;
  }

  /** A request for nothing can leave each of them. */
  lemma EmptyReadLeaves(j: Job, s: State)
    requires Nothing(j) && Ready(s)
    ensures var t := Run(j, s, [true, true]); t.host.Done? && t.ep.rxstpi
    ensures var t := Run(j, s, [true, true, false]); t.host.Done? && t.fw.Elsewhere?
    ensures var t := Run(j, s, [true, false, true]); t.host.Done? && t.fw == Wait([])
    ensures var t := Run(j, s, [true, false, true] + [false]); t.host.Done? && Ready(t.(host := Start))
    ensures var t := Run(j, s, [true, false, false] + [false, true]);
            t.host.Done? && Quiet(t.(host := Start)) && !t.ep.txini
  {
    hide Run, Decoded, SetupBytes, Reply;
    SetupRoundTrip(j.req);
    NothingReply(j);
    EmptyRequestLost(j, s);
    RunThree(j, s, true, true, false);
    RunThree(j, s, true, false, true);
    RunThree(j, s, true, false, false);
    var t, u := Run(j, s, [true, false, true]), Run(j, s, [true, false, false]);
    RunAppend(j, s, [true, false, true], [false]);
    RunOne(j, t, false);
    RunAppend(j, s, [true, false, false], [false, true]);
    RunThree(j, u, false, true, true);
  }

  lemma WrongLater(k: Job, s: State, first: seq<bool>, second: seq<bool>)
    requires GoesWrong(k, Run(k, s, first), second)
    ensures GoesWrong(k, s, first + second)
  {
    RunAppend(k, s, first, second);
  }

  /** The host is about to take its own request for the answer. */
  lemma OwnRequestRead(k: Job, t: State)
    requires DataFits(k) && !Due(k.list, k.req, SetupBytes(k.req))
    requires t.host == Reading(k.req.wLength) && t.got == [] && t.ep.fifo == SetupBytes(k.req)
    requires !t.ep.txini && !t.ep.stallrq && !t.ep.rxouti
    ensures GoesWrong(k, t, [true]) || GoesWrong(k, t, [true, true])
  {
    hide Run, Reply, SetupBytes, Stuck;
    RunOne(k, t, true);
    RunThree(k, t, true, true, true);
    assert [] + SetupBytes(k.req) == SetupBytes(k.req);
  }

  /** With a firmware that has an empty packet left to offer, or one that has not taken the old request. */
  lemma LeftoverBreaks(k: Job, s: State) returns (schedule: seq<bool>)
    requires DataFits(k) && LeftBehind(s) && !Ready(s) && s.ep.txini
    requires !Due(k.list, k.req, SetupBytes(k.req))
    ensures GoesWrong(k, s, schedule)
  {
    hide Run, Reply, SetupBytes, GoesWrong, Decoded;
    RunOne(k, s, true);
    RunThree(k, s, false, true, true);
    RunThree(k, s, true, false, false);
    var first := if s.fw.Wait? then [true, false, false] else [true, false];
    if s.fw.Elsewhere? {
      schedule := [true];
      StuckWrong(k, s, schedule);
    } else if s.ep.rxstpi {
      schedule := [false, true];
      StuckWrong(k, s, schedule);
    } else {
      OwnRequestRead(k, Run(k, s, first));
      if GoesWrong(k, Run(k, s, first), [true]) {
        schedule := first + [true];
        WrongLater(k, s, first, [true]);
      } else {
        schedule := first + [true, true];
        WrongLater(k, s, first, [true, true]);
      }
    }
  }

  lemma StuckWrong(k: Job, s: State, schedule: seq<bool>)
    requires var t := Run(k, s, schedule); t.host == Reading(k.req.wLength) && t.fw.Elsewhere? && t.ep.txini
    requires !Run(k, s, schedule).ep.stallrq
    ensures GoesWrong(k, s, schedule)
  {
    hide Run;
  }

  /** After any read, empty or not, the next one that asks for something is right over every interleaving,
      neither deceived nor left waiting, exactly when the endpoint was left ready. */
  lemma NextRightExactlyWhenReady(k: Job, s: State)
    requires DataFits(k) && LeftBehind(s) && !Due(k.list, k.req, SetupBytes(k.req))
    ensures (forall schedule :: !GoesWrong(k, s, schedule)) <==> Ready(s)
  {
    hide Run, Sound, Reply, SetupBytes, Stuck;
    if Ready(s) {
      forall schedule ensures !GoesWrong(k, s, schedule) {
        NeverWrong(k, s, schedule);
      }
    } else if s.ep.txini {
      var schedule := LeftoverBreaks(k, s);
    } else {
      StaleEndpoint(k, s);
      assert GoesWrong(k, s, [true, true]) || GoesWrong(k, s, [true, true, true]);
    }
  }
}
