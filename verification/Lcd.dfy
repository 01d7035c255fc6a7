/** The HD44780 display on a 4-bit bus: the simulated part, the AVR driver, and the link between. */
module Lcd {

  type byte = bv8

  const CELLS := 144

  /** The part's registers. `eight` is the D/L flag, `low` the phase of a 4-bit transfer, `pinsLow` the
      level of the unconnected pins D0..D3. The display flags only matter to drawing. */
  datatype Panel = Panel(cursor: nat, vram: seq<byte>, datapins: byte, readpins: byte,
                         eight: bool, low: bool, increment: bool, displayShift: bool, busy: bool,
                         pinsLow: byte, look: Look)
  {
    ghost predicate Valid() { cursor < CELLS == |vram| }
  }

  datatype Look = Look(lines: bool, font: bool, right: bool, display: bool, cursor: bool, blink: bool, follow: bool)

  /** `hd44780_kick_cursor`. */
  function Kick(l: Panel): (c: nat)
    ensures l.cursor < CELLS ==> c < CELLS
  {
    if l.increment then
      if l.cursor < 79 then l.cursor + 1 else if l.cursor < 80 + 64 - 1 then l.cursor + 1 else l.cursor
    else
      if l.cursor < 80 && l.cursor != 0 then l.cursor - 1 else if l.cursor > 80 then l.cursor - 1 else l.cursor
  }

  function Kicked(l: Panel, n: nat): Panel {
    if n == 0 then l else var m := Kicked(l, n - 1); m.(cursor := Kick(m))
  }

  /** Counting up, the cursor runs through both memories to the last cell and stays; counting down, it stops
      at the first cell of the memory it is in. */
  lemma {:induction false} KicksMove(l: Panel, n: nat)
    requires l.cursor < CELLS
    ensures var c, end := Kicked(l, n).cursor, l.cursor - n;
            c == if l.increment then (if l.cursor + n < CELLS then l.cursor + n else CELLS - 1)
                 else if l.cursor < 80 then (if end > 0 then end else 0)
                 else (if end > 80 then end else 80)
    ensures Kicked(l, n).increment == l.increment
  {
    if n > 0 {
      KicksMove(l, n - 1);
    }
  }

  const BITS: seq<byte> := [0x01, 0x02, 0x04, 0x08, 0x10, 0x20, 0x40, 0x80]

  /** The highest set bit at or below `top`; 0 also when no bit is set. */
  function TopFrom(b: byte, top: nat): (t: nat)
    requires top < 8
    ensures t <= top
  {
    if top == 0 || b & BITS[top] != 0 then top else TopFrom(b, top - 1)
  }

  function Cleared(vram: seq<byte>): (v: seq<byte>)
    requires |vram| == CELLS
    ensures |v| == CELLS
  {
    seq(80, _ => 0x20) + vram[80..]
  }

  predicate Bit(b: byte, mask: byte) { b & mask != 0 }

  function DisplayAddress(b: byte): (a: nat)
    ensures a < 128
  {
    assert b & 0x7F <= 0x7F;
    (b & 0x7F) as nat
  }

  function CharacterAddress(b: byte): (a: nat)
    ensures a < 64
  {
    assert b & 0x3F <= 0x3F;
    (b & 0x3F) as nat
  }

  /** The four commands that only set flags; going from 8 to 4 bits also forgets the phase. */
  function Configured(l: Panel, top: nat): (r: Panel)
    ensures l.Valid() ==> r.Valid()
    ensures r.datapins == l.datapins && r.readpins == l.readpins && r.cursor == l.cursor && r.vram == l.vram
  {
    var b := l.datapins;
    if top == 5 then
      var eight := Bit(b, 0x10);
      l.(eight := eight, low := if l.eight && !eight then false else l.low,
         look := l.look.(lines := Bit(b, 8), font := Bit(b, 4)))
    else if top == 4 then l.(displayShift := Bit(b, 8), look := l.look.(right := Bit(b, 4)))
    else if top == 3 then l.(look := l.look.(display := Bit(b, 4), cursor := Bit(b, 2), blink := Bit(b, 1)))
    else l.(increment := Bit(b, 2), look := l.look.(follow := Bit(b, 1)))
  }

  /** `hd44780_write_command`, the command being in `datapins`. Clearing the display leaves the cursor
      where it is, and the all-zero command clears too. */
  function Command(l: Panel): (r: Panel)
    requires l.Valid()
    ensures r.Valid() && r.datapins == l.datapins && r.readpins == l.readpins
  {
    var b := l.datapins;
    var top := TopFrom(b, 7);
    if top == 7 then l.(cursor := DisplayAddress(b))
    else if top == 6 then l.(cursor := 64 + CharacterAddress(b))
    else if top >= 2 then Configured(l, top)
    else if top == 1 then l.(cursor := 0)
    else l.(vram := Cleared(l.vram))
  }

  /** `hd44780_write_data`. */
  function StoreData(l: Panel): (r: Panel)
    requires l.Valid()
    ensures r.Valid() && r.datapins == l.datapins && r.readpins == l.readpins && r.eight == l.eight && r.low == l.low
  {
    l.(vram := l.vram[l.cursor := l.datapins], cursor := if l.displayShift then l.cursor else Kick(l))
  }

  /** A whole byte is ready in `datapins`; every write starts the busy delay. */
  function Execute(l: Panel, rs: bool): (r: Panel)
    requires l.Valid()
    ensures r.Valid() && r.datapins == l.datapins && r.readpins == l.readpins
  {
    (if rs then StoreData(l) else Command(l)).(busy := true)
  }

  /** Four pins replaced. */
  function WithLow(pins: byte, n: byte): byte { (pins & 0xF0) | (n & 0x0F) }

  function WithHigh(pins: byte, n: byte): byte { (pins & 0x0F) | ((n & 0x0F) << 4) }

  /** `hd44780_process_write`, first half: `n` on D4..D7 goes to `datapins`. */
  function Latched(l: Panel, n: byte): Panel {
    if l.eight then l.(datapins := WithHigh(l.pinsLow, n))
    else if l.low then l.(datapins := WithLow(l.datapins, n), low := false)
    else l.(datapins := WithHigh(l.datapins, n), low := true)
  }

  predicate Completes(l: Panel) { l.eight || l.low }

  /** `hd44780_process_write`: E rose with R/W low. */
  function ProcessWrite(l: Panel, rs: bool, n: byte): (r: Panel)
    requires l.Valid()
    ensures r.Valid()
  {
    if Completes(l) then Execute(Latched(l, n), rs) else Latched(l, n)
  }

  /** The address counter as the part reports it: 64 less in the character memory. */
  function Counter(cursor: nat): (c: byte)
    requires cursor < CELLS
    ensures c < 0x80
  {
    (if cursor < 80 then cursor else cursor - 64) as byte
  }

  function StatusByte(l: Panel): byte
    requires l.cursor < CELLS
  {
    Counter(l.cursor) | (if l.busy then 0x80 else 0)
  }

  /** A new read puts a whole byte in `readpins`: data moves the cursor and starts the delay, status
      clears the busy flag. */
  function Fetch(l: Panel, rs: bool): (r: Panel)
    requires l.Valid()
    ensures r.Valid() && r.eight == l.eight && r.low == l.low
  {
    if rs then l.(readpins := l.vram[l.cursor], cursor := Kick(l), busy := true)
    else l.(readpins := StatusByte(l), busy := false)
  }

  /** `hd44780_process_read`: the new state and what appears on D4..D7. */
  function ProcessRead(l: Panel, rs: bool): (r: (Panel, byte))
    requires l.Valid()
    ensures r.0.Valid()
  {
    if !l.eight && l.low then
      var m := l.(readpins := l.readpins << 4, low := false);
      (m, m.readpins >> 4)
    else
      var m := Fetch(l, rs).(low := if l.eight then l.low else true);
      (m, m.readpins >> 4)
  }

  /** The part as an object, with the pins the driver moves. */
  class Hd44780 {
    var cursor: nat
    const vram: array<byte>
    var datapins: byte
    var readpins: byte
    var eight: bool
    var low: bool
    var increment: bool
    var displayShift: bool
    var busy: bool
    const pinsLow: byte
    var look: Look

    function State(): Panel
      reads this, vram
    {
      Panel(cursor, vram[..], datapins, readpins, eight, low, increment, displayShift, busy, pinsLow, look)
    }

    /** Power-up: all flags off (so 4-bit mode, decrementing), a blank screen. */
    constructor (pinsLow: byte)
      ensures fresh(vram) && State().Valid()
      ensures !eight && !low && cursor == 0 && !busy && !increment && !displayShift
      ensures forall i | 0 <= i < CELLS :: vram[i] == if i < 80 then 0x20 else 0
    {
      cursor, datapins, readpins := 0, 0, 0;
      eight, low, increment, displayShift, busy := false, false, false, false, false;
      look := Look(false, false, false, false, false, false, false);
      this.pinsLow := pinsLow;
      vram := new byte[144](i => if i < 80 then 0x20 else 0x00);
    }

    method KickCursor()
      modifies this`cursor
      ensures cursor == Kick(old(State()))
    {
      if increment {
        if cursor < 79 {
          cursor := cursor + 1;
        } else if cursor < 80 + 64 - 1 {
          cursor := cursor + 1;
        }
      } else {
        if cursor < 80 && cursor != 0 {
          cursor := cursor - 1;
        } else if cursor > 80 {
          cursor := cursor - 1;
        }
      }
    }

    method WriteData()
      requires State().Valid()
      modifies this`cursor, vram
      ensures State() == StoreData(old(State()))
    {
      vram[cursor] := datapins;
      if !displayShift {
        KickCursor();
      }
    }

    /** The highest bit set in the command. */
    method HighestBit() returns (top: nat)
      ensures top == TopFrom(datapins, 7)
    {
      top := 7;
      while top > 0
        invariant top < 8 && TopFrom(datapins, top) == TopFrom(datapins, 7)
      {
        if datapins & BITS[top] != 0 {
          break;
        }
        top := top - 1;
      }
    }

    method WriteCommand()
      requires State().Valid()
      modifies this, vram
      ensures State() == Command(old(State()))
    {
      hide TopFrom, DisplayAddress, CharacterAddress, Configured, Cleared;
      var top := HighestBit();
      if top == 7 {
        cursor := DisplayAddress(datapins);
      } else if top == 6 {
        cursor := 64 + CharacterAddress(datapins);
      } else if top >= 2 {
        Configure(top);
      } else if top == 1 {
        cursor := 0;
      } else {
        ClearScreen();
      }
    }

    method Configure(top: nat)
      modifies this`eight, this`low, this`displayShift, this`increment, this`look
      ensures State() == Configured(old(State()), top)
    {
      hide Bit;
      if top == 5 {
        var four := !eight;
        eight := Bit(datapins, 0x10);
        look := look.(lines := Bit(datapins, 8), font := Bit(datapins, 4));
        if !four && !eight {
          low := false;
        }
      } else if top == 4 {
        displayShift := Bit(datapins, 8);
        look := look.(right := Bit(datapins, 4));
      } else if top == 3 {
        look := look.(display := Bit(datapins, 4), cursor := Bit(datapins, 2), blink := Bit(datapins, 1));
      } else {
        increment := Bit(datapins, 2);
        look := look.(follow := Bit(datapins, 1));
      }
    }

    method ClearScreen()
      requires vram.Length == CELLS
      modifies vram
      ensures vram[..] == Cleared(old(vram[..]))
    {
      forall i | 0 <= i < 80 {
        vram[i] := 0x20;
      }
    }

    method ExecuteByte(rs: bool)
      requires State().Valid()
      modifies this, vram
      ensures State() == Execute(old(State()), rs)
    {
      hide Command, StoreData;
      if rs {
        WriteData();
      } else {
        WriteCommand();
      }
      busy := true;
    }

    /** Puts the nibble, or in 8-bit mode the byte, in `datapins`; says whether a whole byte is ready. */
    method Latch(n: byte) returns (write: bool)
      modifies this`datapins, this`low
      ensures State() == Latched(old(State()), n) && write == Completes(old(State()))
    {
      hide WithLow, WithHigh;
      if !eight {
        write := low;
        if low {
          datapins := WithLow(datapins, n);
        } else {
          datapins := WithHigh(datapins, n);
        }
        low := !low;
      } else {
        datapins := WithHigh(pinsLow, n);
        write := true;
      }
    }

    method PulseWrite(rs: bool, n: byte)
      requires State().Valid()
      modifies this, vram
      ensures State() == ProcessWrite(old(State()), rs, n)
    {
      var write := Latch(n);
      if write {
        ExecuteByte(rs);
      }
    }

    method PulseRead(rs: bool) returns (n: byte)
      requires State().Valid()
      modifies this
      ensures State() == ProcessRead(old(State()), rs).0 && n == ProcessRead(old(State()), rs).1
    {
      if !eight && low {
        readpins := readpins << 4;
        low := false;
      } else {
        if rs {
          readpins := vram[cursor];
          KickCursor();
          busy := true;
        } else {
          readpins := StatusByte(State());
          busy := false;
        }
        if !eight {
          low := true;
        }
      }
      n := readpins >> 4;
    }
  }

  // ---- The driver ----

  /** `hd44780_outbyte`. */
  function OutByte(l: Panel, rs: bool, b: byte): Panel
    requires l.Valid()
  {
    ProcessWrite(ProcessWrite(l, rs, b >> 4), rs, b & 0x0F)
  }

  /** `hd44780_inbyte`: `PIN` holds the nibble in its low half. */
  function InByte(l: Panel, rs: bool): (r: (Panel, byte))
    requires l.Valid()
  {
    var (m, high) := ProcessRead(l, rs);
    var (n, low) := ProcessRead(m, rs);
    (n, ((high & 0x0F) << 4) | (low & 0x0F))
  }

  method SendByte(part: Hd44780, rs: bool, b: byte)
    requires part.State().Valid()
    modifies part, part.vram
    ensures part.State() == OutByte(old(part.State()), rs, b)
  {
    part.PulseWrite(rs, b >> 4);
    part.PulseWrite(rs, b & 0x0F);
  }

  method FetchByte(part: Hd44780, rs: bool) returns (b: byte)
    requires part.State().Valid()
    modifies part, part.vram
    ensures part.State() == InByte(old(part.State()), rs).0 && b == InByte(old(part.State()), rs).1
  {
    var high := part.PulseRead(rs);
    var low := part.PulseRead(rs);
    b := ((high & 0x0F) << 4) | (low & 0x0F);
  }

  // ---- The link ----

  /** In 4-bit mode, between two bytes. */
  ghost predicate Synced(l: Panel) { l.Valid() && !l.eight && !l.low }

  lemma JoinNibbles(d: byte, b: byte)
    ensures var high := (d & 0x0F) | (((b >> 4) & 0x0F) << 4);
            (high & 0xF0) | ((b & 0x0F) & 0x0F) == b
  {}

  lemma SplitNibbles(v: byte)
    ensures (((v >> 4) & 0x0F) << 4) | (((v << 4) >> 4) & 0x0F) == v
  {}

  /** The byte is a function set that asks for the 8-bit interface. */
  predicate Widens(rs: bool, b: byte) { !rs && 0x30 <= b <= 0x3F }

  /** The highest set bit is a range of bytes. */
  lemma TopRange(b: byte)
    ensures TopFrom(b, 7) == if b >= 0x80 then 7 else if b >= 0x40 then 6 else if b >= 0x20 then 5
                             else if b >= 0x10 then 4 else if b >= 0x08 then 3 else if b >= 0x04 then 2
                             else if b >= 0x02 then 1 else 0
  {
    hide TopFrom;
    TopStep(b, 7); TopStep(b, 6); TopStep(b, 5); TopStep(b, 4); TopStep(b, 3); TopStep(b, 2); TopStep(b, 1);
    TopStep(b, 0);
    MaskRange(b);
  }

  lemma TopStep(b: byte, k: nat)
    requires k < 8
    ensures TopFrom(b, k) == if k == 0 || b & BITS[k] != 0 then k else TopFrom(b, k - 1)
  {}

  lemma MaskRange(b: byte)
    ensures b & 0x80 != 0 <==> b >= 0x80
    ensures b < 0x80 ==> (b & 0x40 != 0 <==> b >= 0x40)
    ensures b < 0x40 ==> (b & 0x20 != 0 <==> b >= 0x20)
    ensures b < 0x20 ==> (b & 0x10 != 0 <==> b >= 0x10)
    ensures b < 0x10 ==> (b & 0x08 != 0 <==> b >= 0x08)
    ensures b < 0x08 ==> (b & 0x04 != 0 <==> b >= 0x04)
    ensures b < 0x04 ==> (b & 0x02 != 0 <==> b >= 0x02)
  {}

  lemma FunctionSetRange(b: byte)
    ensures TopFrom(b, 7) == 5 <==> 0x20 <= b <= 0x3F
    ensures 0x20 <= b <= 0x3F ==> (Bit(b, 0x10) <==> 0x30 <= b)
  {
    hide TopFrom;
    TopRange(b);
  }

  /** The part without a nibble bus: it takes a whole byte. */
  function WholeWrite(l: Panel, rs: bool, b: byte): (r: Panel)
    requires l.Valid()
    ensures r.Valid()
  {
    Execute(l.(datapins := b), rs)
  }

  /** What each command does to the whole part, byte range by byte range. Clearing the display leaves the cursor
      where it is, and the character memory alone. */
  lemma CommandMeans(l: Panel, b: byte)
    requires l.Valid()
    ensures var r, d := WholeWrite(l, false, b), l.(datapins := b, busy := true);
            && (b >= 0x80 ==> r == d.(cursor := (b - 0x80) as nat))
            && (0x40 <= b < 0x80 ==> r == d.(cursor := 64 + (b - 0x40) as nat))
            && (0x30 <= b < 0x40 ==> r == d.(eight := true, look := FunctionSet(d.look, b - 0x30)))
            && (0x20 <= b < 0x30 ==> r == d.(eight := false, low := !l.eight && l.low,
                                             look := FunctionSet(d.look, b - 0x20)))
            && (0x10 <= b < 0x20 ==> r == d.(displayShift := b >= 0x18,
                                             look := d.look.(right := 0x14 <= b < 0x18 || b >= 0x1C)))
            && (0x08 <= b < 0x10 ==>
                  r == d.(look := d.look.(display := b >= 0x0C, cursor := b == 0x0A || b == 0x0B || b >= 0x0E,
                                          blink := b == 0x09 || b == 0x0B || b == 0x0D || b == 0x0F)))
            && (0x04 <= b < 0x08 ==> r == d.(increment := b >= 0x06,
                                             look := d.look.(follow := b == 0x05 || b == 0x07)))
            && (0x02 <= b < 0x04 ==> r == d.(cursor := 0))
            && (b < 0x02 ==> r == d.(vram := r.vram) && Blanked(l.vram, r.vram))
  {
    hide TopFrom, Configured, DisplayAddress, CharacterAddress, Cleared;
    TopRange(b);
    if b >= 0x40 {
      AddressRange(b);
    } else if b >= 0x04 {
      ConfiguredMeans(l.(datapins := b), b);
    } else {
      BlankedCleared(l.vram);
    }
  }

  /** Lines and font, from what the low four bits are worth. */
  function FunctionSet(look: Look, n: byte): Look {
    look.(lines := n >= 8, font := 4 <= n < 8 || n >= 12)
  }

  ghost predicate Blanked(v: seq<byte>, w: seq<byte>) {
    |w| == |v| == CELLS && forall i | 0 <= i < CELLS :: w[i] == if i < 80 then 0x20 else v[i]
  }

  lemma BlankedCleared(v: seq<byte>)
    requires |v| == CELLS
    ensures Blanked(v, Cleared(v))
  {}

  lemma AddressRange(b: byte)
    ensures b >= 0x80 ==> DisplayAddress(b) == (b - 0x80) as nat
    ensures 0x40 <= b < 0x80 ==> CharacterAddress(b) == (b - 0x40) as nat
  {
    assert b >= 0x80 ==> b & 0x7F == b - 0x80;
    assert 0x40 <= b < 0x80 ==> b & 0x3F == b - 0x40;
  }

  lemma ConfiguredMeans(l: Panel, b: byte)
    requires l.datapins == b
    ensures 0x30 <= b < 0x40 ==> Configured(l, 5) == l.(eight := true, look := FunctionSet(l.look, b - 0x30))
    ensures 0x20 <= b < 0x30 ==>
              Configured(l, 5) == l.(eight := false, low := !l.eight && l.low, look := FunctionSet(l.look, b - 0x20))
    ensures 0x10 <= b < 0x20 ==>
              Configured(l, 4) == l.(displayShift := b >= 0x18,
                                     look := l.look.(right := 0x14 <= b < 0x18 || b >= 0x1C))
    ensures 0x08 <= b < 0x10 ==>
              Configured(l, 3) ==
              l.(look := l.look.(display := b >= 0x0C, cursor := b == 0x0A || b == 0x0B || b >= 0x0E,
                                 blink := b == 0x09 || b == 0x0B || b == 0x0D || b == 0x0F))
    ensures 0x04 <= b < 0x08 ==>
              Configured(l, 2) == l.(increment := b >= 0x06, look := l.look.(follow := b == 0x05 || b == 0x07))
  {}

  /** It gives a whole byte, and its output register has moved up once. */
  function WholeRead(l: Panel, rs: bool): (r: (Panel, byte))
    requires l.Valid()
    ensures r.0.Valid()
  {
    var f := Fetch(l, rs);
    (f.(readpins := f.readpins << 4), f.readpins)
  }

  lemma WriteKeepsMode(l: Panel, rs: bool, b: byte)
    requires Synced(l)
    ensures var r := WholeWrite(l, rs, b); !r.low && (r.eight <==> Widens(rs, b))
  {
    hide TopFrom, DisplayAddress, CharacterAddress, Cleared, Bit;
    if !rs {
      FunctionSetRange(b);
      assert 0x20 <= b <= 0x3F ==> (Bit(b, 0x10) <==> 0x30 <= b);
    }
  }

  /** One byte out: the part executes exactly that byte, once, and is between bytes again; it stays in
      4-bit mode exactly when it was not told otherwise. */
  lemma OutByteTransparent(l: Panel, rs: bool, b: byte)
    requires Synced(l)
    ensures OutByte(l, rs, b) == WholeWrite(l, rs, b)
    ensures Synced(OutByte(l, rs, b)) <==> !Widens(rs, b)
  {
    hide Execute;
    JoinNibbles(l.datapins, b);
    WriteKeepsMode(l, rs, b);
  }

  /** One byte in: the driver gets the part's whole byte. */
  lemma InByteTransparent(l: Panel, rs: bool)
    requires Synced(l)
    ensures var (m, b) := InByte(l, rs);
            Synced(m) && (m, b) == WholeRead(l, rs)
  {
    hide Fetch;
    SplitNibbles(Fetch(l, rs).readpins);
  }

  /** What may happen on the link: a byte out, a byte in, or the part's busy timer. */
  datatype Event = Out(rs: bool, b: byte) | In(rs: bool) | Expire

  predicate Narrow(e: Event) { e.Out? ==> !Widens(e.rs, e.b) }

  function Driven(l: Panel, e: Event): (r: (Panel, seq<byte>))
    requires l.Valid()
    ensures r.0.Valid()
  {
    match e
    case Out(rs, b) => (OutByte(l, rs, b), [])
    case In(rs) => var (m, b) := InByte(l, rs); (m, [b])
    case Expire => (l.(busy := false), [])
  }

  function Whole(l: Panel, e: Event): (r: (Panel, seq<byte>))
    requires l.Valid()
    ensures r.0.Valid()
  {
    match e
    case Out(rs, b) => (WholeWrite(l, rs, b), [])
    case In(rs) => var (m, b) := WholeRead(l, rs); (m, [b])
    case Expire => (l.(busy := false), [])
  }

  /** A run over the nibble bus: the part afterwards, and the bytes the driver read. */
  function DrivenRun(l: Panel, es: seq<Event>): (r: (Panel, seq<byte>))
    requires l.Valid()
    ensures r.0.Valid()
    decreases |es|
  {
    if es == [] then (l, []) else
    var (m, first) := Driven(l, es[0]);
    var (n, rest) := DrivenRun(m, es[1..]);
    (n, first + rest)
  }

  function WholeRun(l: Panel, es: seq<Event>): (r: (Panel, seq<byte>))
    requires l.Valid()
    ensures r.0.Valid()
    decreases |es|
  {
    if es == [] then (l, []) else
    var (m, first) := Whole(l, es[0]);
    var (n, rest) := WholeRun(m, es[1..]);
    (n, first + rest)
  }

  lemma StepTransparent(l: Panel, e: Event)
    requires Synced(l) && Narrow(e)
    ensures var (m, bytes) := Driven(l, e);
            Synced(m) && (m, bytes) == Whole(l, e)
  {
    hide OutByte, InByte, WholeWrite, WholeRead;
    match e
    case Out(rs, b) => OutByteTransparent(l, rs, b);
    case In(rs) => InByteTransparent(l, rs);
    case Expire =>
  }

  /** The nibble bus is transparent: over any run the driver reads the same bytes, and leaves the part
      in the same state, as if whole bytes had been exchanged; the cursor never leaves the memory. */
  lemma {:induction false} LinkTransparent(l: Panel, es: seq<Event>)
    requires Synced(l) && forall e | e in es :: Narrow(e)
    ensures var (m, bytes) := DrivenRun(l, es);
            Synced(m) && m.cursor < CELLS && (m, bytes) == WholeRun(l, es)
    decreases |es|
  {
    hide Driven, Whole;
    if es != [] {
      StepTransparent(l, es[0]);
      LinkTransparent(Driven(l, es[0]).0, es[1..]);
    }
  }

  // ---- Text written is text read ----

  function Address(a: byte): Event { Out(false, 0x80 | a) }

  function Typed(text: seq<byte>): (es: seq<Event>)
    ensures forall e | e in es :: Narrow(e)
    decreases |text|
  {
    if text == [] then [] else [Out(true, text[0])] + Typed(text[1..])
  }

  function Reads(n: nat): (es: seq<Event>)
    ensures forall e | e in es :: Narrow(e)
  {
    if n == 0 then [] else [In(true)] + Reads(n - 1)
  }

  lemma AddressSets(l: Panel, a: byte)
    requires l.Valid() && a < 0x80
    ensures var m := Whole(l, Address(a)).0;
            m.cursor == a as nat && m.vram == l.vram && m.increment == l.increment && m.displayShift == l.displayShift
    ensures Narrow(Address(a)) && Whole(l, Address(a)).1 == []
  {
    hide WholeWrite;
    AddressByte(a);
    CommandMeans(l, 0x80 | a);
  }

  lemma AddressByte(a: byte)
    requires a < 0x80
    ensures 0x80 | a >= 0x80 && (0x80 | a) - 0x80 == a
  {}

  lemma WholeRunStep(l: Panel, e: Event, es: seq<Event>)
    requires l.Valid()
    ensures var (m, first) := Whole(l, e); var (n, rest) := WholeRun(m, es);
            WholeRun(l, [e] + es) == (n, first + rest)
  {
    hide Whole;
    assert ([e] + es)[1..] == es;
  }

  function Next(c: nat): nat { if c < CELLS - 1 then c + 1 else c }

  lemma OneStored(l: Panel, b: byte)
    requires l.Valid() && l.increment && !l.displayShift
    ensures var m := Whole(l, Out(true, b)).0;
            m.vram == l.vram[l.cursor := b] && m.cursor == Next(l.cursor) && m.increment && !m.displayShift
  {}

  lemma NextInside(c: nat)
    requires c < CELLS
    ensures Next(c) == if c + 1 < CELLS then c + 1 else c
  {}

  lemma TypedFirst(text: seq<byte>)
    requires text != []
    ensures Typed(text) == [Out(true, text[0])] + Typed(text[1..])
  {}

  lemma {:induction false} TypingStores(l: Panel, text: seq<byte>)
    requires l.Valid() && l.increment && !l.displayShift && l.cursor + |text| <= CELLS
    ensures var m := WholeRun(l, Typed(text)).0;
            m.vram == l.vram[..l.cursor] + text + l.vram[l.cursor + |text|..] && m.increment && !m.displayShift
    decreases |text|
  {
    if text == [] {
      assert l.vram[..l.cursor] + l.vram[l.cursor..] == l.vram;
    } else {
      hide Whole, WholeRun, Typed, Next;
      var m := Whole(l, Out(true, text[0])).0;
      OneStored(l, text[0]);
      NextInside(l.cursor);
      TypedFirst(text);
      WholeRunStep(l, Out(true, text[0]), Typed(text[1..]));
      TypingStores(m, text[1..]);
      Splice(l.vram, l.cursor, m.cursor, text);
    }
  }

  lemma Splice(v: seq<byte>, c: nat, d: nat, text: seq<byte>)
    requires text != [] && c + |text| <= |v|
    requires d == c + 1 || (d == c && |text| == 1)
    ensures var u := v[c := text[0]];
            u[..d] + text[1..] + u[d + |text[1..]|..] == v[..c] + text + v[c + |text|..]
  {
    var u := v[c := text[0]];
    if d == c + 1 {
      assert u[..d] + text[1..] == v[..c] + text;
      assert u[d + |text[1..]|..] == v[c + |text|..];
    } else {
      assert text[1..] == [] && text == [text[0]];
      assert u[..d] + u[d..] == u == v[..c] + text + v[c + 1..];
    }
  }

  lemma OneFetched(l: Panel)
    requires l.Valid() && l.increment
    ensures var (m, bytes) := Whole(l, In(true));
            bytes == [l.vram[l.cursor]] && m.vram == l.vram && m.cursor == Next(l.cursor) && m.increment
  {}

  lemma {:induction false} ReadingFetches(l: Panel, n: nat)
    requires l.Valid() && l.increment && l.cursor + n <= CELLS
    ensures WholeRun(l, Reads(n)).1 == l.vram[l.cursor..l.cursor + n]
    decreases n
  {
    hide Whole;
    if n > 0 {
      hide WholeRun, Next;
      NextInside(l.cursor);
      OneFetched(l);
      WholeRunStep(l, In(true), Reads(n - 1));
      var m := Whole(l, In(true)).0;
      ReadingFetches(m, n - 1);
      CellAndRest(l.vram, l.cursor, m.cursor, n);
    }
  }

  lemma CellAndRest(v: seq<byte>, c: nat, d: nat, n: nat)
    requires 0 < n && c + n <= |v| && (d == c + 1 || (d == c && n == 1))
    ensures [v[c]] + v[d..d + (n - 1)] == v[c..c + n]
  {}

  /** Through the nibble bus, in the driver's usual entry mode: text sent to an address is read back from it. */
  lemma TextRoundTrip(l: Panel, a: byte, text: seq<byte>)
    requires Synced(l) && l.increment && !l.displayShift
    requires a < 0x80 && a as nat + |text| <= CELLS
    ensures var sent := DrivenRun(l, [Address(a)] + Typed(text)).0;
            DrivenRun(sent, [Address(a)] + Reads(|text|)).1 == text
  {
    hide Driven, Whole;
    var write, read := [Address(a)] + Typed(text), [Address(a)] + Reads(|text|);
    AddressSets(l, a);
    LinkTransparent(l, write);
    var w := Whole(l, Address(a)).0;
    TypingStores(w, text);
    assert write[1..] == Typed(text) && read[1..] == Reads(|text|);
    var sent := DrivenRun(l, write).0;
    assert sent == WholeRun(w, Typed(text)).0;
    LinkTransparent(sent, read);
    AddressSets(sent, a);
    ReadingFetches(Whole(sent, Address(a)).0, |text|);
  }

  // ---- Waiting and initialisation ----

  lemma StatusBits(c: byte)
    requires c < 0x80
    ensures (c | 0x80) & 0x7F == c && (c | 0) & 0x7F == c && (c | 0) & 0x80 == 0 && (c | 0x80) & 0x80 != 0
  {}

  /** Bit 7 of the status byte is the busy flag, the rest the address counter. */
  lemma StatusMeans(l: Panel)
    requires l.cursor < CELLS
    ensures StatusByte(l) & 0x80 != 0 <==> l.busy
    ensures (StatusByte(l) & 0x7F) as nat == if l.cursor < 80 then l.cursor else l.cursor - 64
  {
    hide Counter;
    StatusBits(Counter(l.cursor));
    CounterIs(l.cursor);
  }

  lemma CounterIs(c: nat)
    requires c < CELLS
    ensures Counter(c) as nat == if c < 80 then c else c - 64
  {
    ByteOf(if c < 80 then c else c - 64);
  }

  lemma {:induction false} ByteFor(x: nat) returns (b: byte)
    requires x < 0x80
    ensures b as nat == x
  {
    if x == 0 {
      b := 0;
    } else {
      b := ByteFor(x - 1);
      b := b + 1;
    }
  }

  lemma SameByte(x: nat, b: byte)
    requires x < 0x80 && b as nat == x
    ensures x as byte == b
  {}

  lemma ByteOf(x: nat)
    requires x < 0x80
    ensures (x as byte) as nat == x
  {
    var b := ByteFor(x);
    SameByte(x, b);
  }

  /** `hd44780_wait_ready` with the busy bit: the loop ends, the part is ready and nothing else changed. */
  method WaitReady(part: Hd44780)
    requires Synced(part.State())
    modifies part, part.vram
    ensures Synced(part.State()) && part.State() == old(part.State()).(busy := false, readpins := part.readpins)
  {
    hide OutByte, InByte;
    InByteTransparent(part.State(), false);
    StatusMeans(part.State());
    var status := FetchByte(part, false);
    while status & 0x80 != 0
      invariant Synced(part.State()) && part.State() == old(part.State()).(busy := false, readpins := part.readpins)
      decreases status & 0x80 != 0
    {
      InByteTransparent(part.State(), false);
      StatusMeans(part.State());
      status := FetchByte(part, false);
    }
  }

  lemma CommandKind(l: Panel, b: byte)
    requires l.Valid() && l.datapins == b
    ensures b & 0x02 != 0 ==> Command(l).vram == l.vram
    ensures !l.eight && !l.low ==> !Command(l).low
    ensures 0x20 <= b <= 0x3F ==> Command(l) == Configured(l, 5)
  {
    hide TopFrom, DisplayAddress, CharacterAddress, Cleared;
    TopRange(b);
    assert b & 0x02 != 0 ==> b >= 0x02;
  }

  /** The wake-up nibbles 3, 3, 3, 2 of `hd44780_init`. */
  function Wake(l: Panel): (r: Panel)
    requires l.Valid()
    ensures r.Valid()
  {
    ProcessWrite(ProcessWrite(ProcessWrite(ProcessWrite(l, false, 3), false, 3), false, 3), false, 2)
  }

  lemma WideNibble(l: Panel, n: byte)
    requires l.Valid() && l.eight && (n == 2 || n == 3)
    ensures var r := ProcessWrite(l, false, n);
            r.vram == l.vram && (r.eight <==> n == 3) && (n == 2 ==> !r.low) && r.displayShift == l.displayShift
  {
    var b := ((n & 0x0F) << 4) | (l.pinsLow & 0x0F);
    assert 0x20 <= b <= 0x3F && (b & 0x10 != 0 <==> n == 3);
    CommandKind(l.(datapins := b), b);
  }

  lemma LowNibble(l: Panel)
    requires l.Valid() && !l.eight && l.low
    ensures var r := ProcessWrite(l, false, 3);
            r.vram == l.vram && !r.low
  {
    var b := (l.datapins & 0xF0) | (3 & 0x0F);
    assert b & 2 != 0;
    CommandKind(Latched(l, 3), b);
  }

  lemma TwoNibbles(l: Panel)
    requires Synced(l)
    ensures var r := ProcessWrite(ProcessWrite(l, false, 3), false, 3);
            r.vram == l.vram && r.eight && r.displayShift == l.displayShift
  {
    JoinNibbles(l.datapins, 0x33);
    CommandKind(l.(datapins := 0x33), 0x33);
  }

  /** From any state, in either width and phase and whatever nibble is latched, the wake-up leaves the
      part in 4-bit mode between two bytes, with the screen as it was. */
  lemma WakeSynchronises(l: Panel)
    requires l.Valid()
    ensures Synced(Wake(l)) && Wake(l).vram == l.vram
    ensures Synced(l) ==> Wake(l).displayShift == l.displayShift
  {
    hide ProcessWrite;
    var l1 := ProcessWrite(l, false, 3);
    var l2 := ProcessWrite(l1, false, 3);
    var l3 := ProcessWrite(l2, false, 3);
    if l.eight {
      WideNibble(l, 3); WideNibble(l1, 3); WideNibble(l2, 3);
    } else if !l.low {
      TwoNibbles(l); WideNibble(l2, 3);
    } else {
      LowNibble(l);
      if l1.eight {
        WideNibble(l1, 3); WideNibble(l2, 3);
      } else {
        TwoNibbles(l1);
      }
    }
    WideNibble(l3, 2);
  }

  method WakeUp(part: Hd44780)
    requires part.State().Valid()
    modifies part, part.vram
    ensures part.State() == Wake(old(part.State()))
  {
    hide ProcessWrite;
    part.PulseWrite(false, 3);
    part.PulseWrite(false, 3);
    part.PulseWrite(false, 3);
    part.PulseWrite(false, 2);
  }

  lemma TwoLines(l: Panel)
    requires Synced(l)
    ensures var r := OutByte(l, false, 0x28);
            Synced(r) && r.vram == l.vram && r.look == l.look.(lines := true, font := false)
            && r.displayShift == l.displayShift
  {
    hide WholeWrite, OutByte;
    OutByteTransparent(l, false, 0x28);
    CommandMeans(l, 0x28);
  }

  lemma DisplayOff(l: Panel)
    requires Synced(l)
    ensures var r := OutByte(l, false, 0x08);
            Synced(r) && r.vram == l.vram && r.look == l.look.(display := false, cursor := false, blink := false)
            && r.displayShift == l.displayShift
  {
    hide WholeWrite, OutByte;
    OutByteTransparent(l, false, 0x08);
    CommandMeans(l, 0x08);
  }

  /** `hd44780_init` with the busy bit: whatever state the part was in, it ends ready in 4-bit mode, two
      lines, display off, with the same screen contents. */
  method Initialise(part: Hd44780)
    requires part.State().Valid()
    modifies part, part.vram
    ensures Synced(part.State()) && !part.State().busy && part.State().vram == old(part.State().vram)
    ensures var look := part.State().look;
            look.lines && !look.font && !look.display && !look.cursor && !look.blink
    ensures Synced(old(part.State())) ==> part.displayShift == old(part.displayShift)
  {
    hide Wake, OutByte;
    WakeSynchronises(part.State());
    WakeUp(part);
    WaitReady(part);
    TwoLines(part.State());
    SendByte(part, false, 0x28);
    WaitReady(part);
    DisplayOff(part.State());
    SendByte(part, false, 0x08);
    WaitReady(part);
  }

  // ---- A text on a blank screen ----

  /** The screen is blank but for the text; the character memory `v` had is kept where the text is not. */
  ghost predicate ShowsOnly(v: seq<byte>, w: seq<byte>, a: nat, text: seq<byte>) {
    && |w| == |v| == CELLS
    && forall i | 0 <= i < CELLS ::
         w[i] == if a <= i < a + |text| then text[i - a] else if i < 80 then 0x20 else v[i]
  }

  /** What `hd44780_init` is followed by: clear, entry mode, an address, and the characters. */
  function Shown(a: byte, text: seq<byte>): seq<Event> {
    [Out(false, 0x01), Out(false, 0x06), Address(a)] + Typed(text)
  }

  lemma Opening(l: Panel, a: byte)
    requires l.Valid() && a < 0x80
    ensures var m := Whole(Whole(Whole(l, Out(false, 0x01)).0, Out(false, 0x06)).0, Address(a)).0;
            && m.increment && m.displayShift == l.displayShift && m.cursor == a as nat && Blanked(l.vram, m.vram)
  {
    hide WholeWrite;
    CommandMeans(l, 0x01);
    CommandMeans(WholeWrite(l, false, 0x01), 0x06);
    AddressSets(WholeWrite(WholeWrite(l, false, 0x01), false, 0x06), a);
  }

  lemma OpeningRuns(l: Panel, a: byte, text: seq<byte>)
    requires l.Valid() && a < 0x80
    ensures var m := Whole(Whole(Whole(l, Out(false, 0x01)).0, Out(false, 0x06)).0, Address(a)).0;
            WholeRun(l, Shown(a, text)).0 == WholeRun(m, Typed(text)).0
  {
    hide Whole, WholeRun;
    var e1, e2, es := Out(false, 0x01), Out(false, 0x06), Typed(text);
    assert Shown(a, text) == [e1] + ([e2] + ([Address(a)] + es));
    var m1 := Whole(l, e1).0;
    WholeRunStep(l, e1, [e2] + ([Address(a)] + es));
    WholeRunStep(m1, e2, [Address(a)] + es);
    WholeRunStep(Whole(m1, e2).0, Address(a), es);
  }

  /** With the display shift on, the characters go over one another. */
  lemma {:induction false} TypingStuck(l: Panel, text: seq<byte>)
    requires l.Valid() && l.displayShift
    ensures var m := WholeRun(l, Typed(text)).0;
            && m.vram == (if text == [] then l.vram else l.vram[l.cursor := text[|text| - 1]])
            && m.cursor == l.cursor && m.displayShift
    decreases |text|
  {
    if text != [] {
      var m := Whole(l, Out(true, text[0])).0;
      WholeRunStep(l, Out(true, text[0]), Typed(text[1..]));
      TypingStuck(m, text[1..]);
    }
  }

  lemma TypedShows(v: seq<byte>, l: Panel, text: seq<byte>)
    requires l.Valid() && l.increment && !l.displayShift && l.cursor + |text| <= CELLS && Blanked(v, l.vram)
    ensures ShowsOnly(v, WholeRun(l, Typed(text)).0.vram, l.cursor, text)
  {
    hide WholeRun, Typed;
    TypingStores(l, text);
  }

  lemma StuckShows(v: seq<byte>, l: Panel, text: seq<byte>)
    requires l.Valid() && l.displayShift && l.cursor + |text| <= 80 && Blanked(v, l.vram)
    ensures ShowsOnly(v, WholeRun(l, Typed(text)).0.vram, l.cursor, text) <==>
            |text| <= 1 || forall i | 0 <= i < |text| :: text[i] == 0x20
  {
    hide WholeRun, Typed;
    var w, c, n := WholeRun(l, Typed(text)).0.vram, l.cursor, |text|;
    TypingStuck(l, text);
    if n > 1 && ShowsOnly(v, w, c, text) {
      assert w[c] == text[0] == text[n - 1] && w[c + (n - 1)] == text[n - 1] == 0x20;
      forall i | 0 <= i < n ensures text[i] == 0x20 {
        assert w[c + i] == text[i];
      }
    }
  }

  /** From any state between two bytes: clear, entry mode 0x06, an address and a text leave exactly that text on a
      blank screen, if and only if an earlier command has not turned on the display shift, which entry mode does
      not turn off, or the text does not show the difference. */
  lemma TextShownExactly(l: Panel, a: byte, text: seq<byte>)
    requires Synced(l) && a < 0x80 && a as nat + |text| <= 80
    ensures var m := DrivenRun(l, Shown(a, text)).0;
            ShowsOnly(l.vram, m.vram, a as nat, text) <==>
            !l.displayShift || |text| <= 1 || forall i | 0 <= i < |text| :: text[i] == 0x20
  {
    hide Driven, Whole, DrivenRun, WholeRun, ShowsOnly, Typed;
    LinkTransparent(l, Shown(a, text));
    OpeningRuns(l, a, text);
    Opening(l, a);
    var m := Whole(Whole(Whole(l, Out(false, 0x01)).0, Out(false, 0x06)).0, Address(a)).0;
    if l.displayShift {
      StuckShows(l.vram, m, text);
    } else {
      TypedShows(l.vram, m, text);
    }
  }

  /** A byte out, and the wait for the part. */
  method Tell(part: Hd44780, rs: bool, b: byte)
    requires Synced(part.State()) && !Widens(rs, b)
    modifies part, part.vram
    ensures Synced(part.State())
    ensures part.State() == WholeWrite(old(part.State()), rs, b).(busy := false, readpins := part.readpins)
  {
    hide OutByte, WholeWrite;
    OutByteTransparent(part.State(), rs, b);
    SendByte(part, rs, b);
    WaitReady(part);
  }

  lemma Stored(l: Panel, b: byte)
    requires l.Valid() && l.increment && !l.displayShift
    ensures var m := WholeWrite(l, true, b);
            m == l.(vram := l.vram[l.cursor := b], cursor := Next(l.cursor), busy := true, datapins := b)
  {}

  method Open(part: Hd44780, a: byte)
    requires Synced(part.State()) && a < 0x80
    modifies part, part.vram
    ensures Synced(part.State()) && !part.busy && part.increment && part.displayShift == old(part.displayShift)
    ensures part.cursor == a as nat && ShowsOnly(old(part.vram[..]), part.vram[..], a as nat, [])
  {
    hide WholeWrite;
    CommandMeans(part.State(), 0x01);
    Tell(part, false, 0x01);
    CommandMeans(part.State(), 0x06);
    Tell(part, false, 0x06);
    AddressByte(a);
    AddressSets(part.State(), a);
    Tell(part, false, 0x80 | a);
  }

  method Put(part: Hd44780, b: byte)
    requires Synced(part.State()) && part.increment && !part.displayShift
    modifies part, part.vram
    ensures Synced(part.State()) && !part.busy && part.increment && !part.displayShift
    ensures part.cursor == Next(old(part.cursor)) && part.vram[..] == old(part.vram[..])[old(part.cursor) := b]
  {
    hide WholeWrite, Next;
    Stored(part.State(), b);
    Tell(part, true, b);
  }

  lemma OneMore(v: seq<byte>, w: seq<byte>, a: nat, text: seq<byte>, i: nat)
    requires i < |text| && a + i < CELLS && ShowsOnly(v, w, a, text[..i])
    ensures ShowsOnly(v, w[a + i := text[i]], a, text[..i + 1])
  {}

  method Type(part: Hd44780, text: seq<byte>)
    requires Synced(part.State()) && !part.busy && part.increment && !part.displayShift
    requires part.cursor + |text| < CELLS
    modifies part, part.vram
    ensures Synced(part.State()) && !part.busy
    ensures forall v: seq<byte> :: ShowsOnly(v, old(part.vram[..]), old(part.cursor), []) ==>
              ShowsOnly(v, part.vram[..], old(part.cursor), text)
  {
    hide ShowsOnly, Next;
    ghost var w, a := part.vram[..], part.cursor;
    assert text[..0] == [];
    for i := 0 to |text|
      invariant Synced(part.State()) && !part.busy && part.increment && !part.displayShift && part.cursor == a + i
      invariant forall v: seq<byte> :: ShowsOnly(v, w, a, []) ==> ShowsOnly(v, part.vram[..], a, text[..i])
    {
      ghost var u := part.vram[..];
      NextInside(part.cursor);
      Put(part, text[i]);
      forall v: seq<byte> | ShowsOnly(v, w, a, [])
        ensures ShowsOnly(v, part.vram[..], a, text[..i + 1])
      {
        OneMore(v, u, a, text, i);
      }
    }
    assert text[..|text|] == text;
  }

  /** The clock's way of showing a text, from power-up: whatever is on the unconnected pins, the screen ends with
      exactly that text at its address. */
  method ShowFromPowerUp(pinsLow: byte, a: byte, text: seq<byte>) returns (part: Hd44780)
    requires a < 0x80 && a as nat + |text| <= 80
    ensures fresh(part) && fresh(part.vram) && Synced(part.State()) && !part.busy
    ensures forall i | 0 <= i < 80 ::
              part.vram[i] == if a as nat <= i < a as nat + |text| then text[i - a as nat] else 0x20
  {
    part := new Hd44780(pinsLow);
    Initialise(part);
    Open(part, a);
    Type(part, text);
  }
}
