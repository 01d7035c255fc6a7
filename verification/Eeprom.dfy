/** The simulated I2C EEPROM: what its bus hook does with each message, and what a whole transaction
    does to the memory. */
module Eeprom {
  import opened Widths
  import opened Bits
  import opened I2cBus

  const CAPACITY := 4096

  /** The part's registers. `ee` has room for the largest part; `size` cells are used. */
  datatype Part = Part(base: uint8, mask: uint8, size: nat,
                       selected: uint8, index: nat, regAddr: uint16, ee: seq<uint8>)
  {
    ghost predicate Valid() {
      PowerOfTwo(size) && size <= CAPACITY == |ee| && (regAddr as int) < size
    }

    /** How many bytes of a transaction set the address. */
    function AddressBytes(): nat { if size > 256 then 2 else 1 }
  }

  /** `(base & ~mask) == (addr & ~mask)`. */
  predicate Matches(p: Part, addr: uint8) {
    (p.base as bv8) & !(p.mask as bv8) == (addr as bv8) & !(p.mask as bv8)
  }

  /** `x & (size - 1)`, for a size that is a power of two. */
  function Wrap(p: Part, x: int): (r: uint16)
    requires p.Valid()
    ensures (r as int) < p.size
  {
    (x % p.size) as uint16
  }

  /** `reg_addr |= data << (index * 8)`. */
  function OrByte(reg: uint16, data: uint8, index: nat): uint16
    requires index < 2
  {
    Or(reg, if index == 0 then data as uint16 else data as uint16 * 256)
  }

  /** `reg_addr += ((selected & 1) - addr_base) << 7`, in 16 bits. */
  function AddSlave(p: Part, reg: uint16): uint16 {
    ((reg as int + (p.selected as int % 2 - p.base as int) * 128) % 0x1_0000) as uint16
  }

  /** One byte written to the part while it is selected. */
  function WriteByte(p: Part, data: uint8): (q: Part)
    requires p.Valid()
    ensures q.Valid()
  {
    var n := p.AddressBytes();
    if p.index < n then
      var reg := OrByte(p.regAddr, data, p.index);
      var sum := if p.index == n - 1 then AddSlave(p, reg) else reg;
      p.(regAddr := Wrap(p, sum as int), index := p.index + 1)
    else
      p.(ee := p.ee[p.regAddr := data], regAddr := Wrap(p, p.regAddr as int + 1), index := p.index + 1)
  }

  /** `i2c_eeprom_in_hook`. */
  function Hook(p: Part, m: Message): (r: (Part, Reply))
    requires p.Valid()
    ensures r.0.Valid() && r.0.size == p.size && r.0.base == p.base && r.0.mask == p.mask
  {
    match m
    case Stop => ZeroBelow(p); (p.(selected := 0, index := 0, regAddr := 0), Nothing)
    case Start(addr) =>
      if Matches(p, addr) then (p.(selected := addr, index := 0), Ack)
      else (p.(selected := 0, index := 0), Nothing)
    case Write(data) => if p.selected == 0 then (p, Nothing) else (WriteByte(p, data), Ack)
    case Read =>
      if p.selected == 0 then (p, Nothing)
      else (p.(regAddr := Wrap(p, p.regAddr as int + 1), index := p.index + 1), Data(p.ee[p.regAddr]))
  }

  lemma ZeroBelow(p: Part)
    requires p.Valid()
    ensures 0 < p.size
  {}

  class I2cEeprom {
    const addrBase: uint8
    const addrMask: uint8
    const size: nat
    var selected: uint8
    var index: nat
    var regAddr: uint16
    const ee: array<uint8>

    function State(): Part
      reads this, ee
    {
      Part(addrBase, addrMask, size, selected, index, regAddr, ee[..])
    }

    /** `i2c_eeprom_init` without initial contents: the cells read 0xFF. */
    constructor (addr: uint8, mask: uint8, size: nat)
      requires PowerOfTwo(size)
      ensures fresh(ee) && State().Valid()
      ensures State() == Part(addr, mask, if size > CAPACITY then CAPACITY else size, 0, 0, 0, seq(CAPACITY, _ => 0xFF))
    {
      addrBase, addrMask := addr, mask;
      this.size := if size > CAPACITY then CAPACITY else size;
      selected, index, regAddr := 0, 0, 0;
      ee := new uint8[CAPACITY](_ => 0xFF);
      new;
      Powers();
      assert ee[..] == seq(CAPACITY, _ => 0xFF);
    }

    method InHook(m: Message) returns (reply: Reply)
      requires State().Valid()
      modifies this, ee
      ensures State() == Hook(old(State()), m).0 && reply == Hook(old(State()), m).1
    {
      reply := Nothing;
      match m {
        case Stop =>
          ZeroBelow(State());
          selected, index, regAddr := 0, 0, 0;
        case Start(addr) =>
          selected, index := 0, 0;
          if Matches(State(), addr) {
            selected := addr;
            reply := Ack;
          }
        case Write(data) =>
          if selected != 0 {
            reply := Ack;
            StoreByte(data);
          }
        case Read =>
          if selected != 0 {
            reply := Data(ee[regAddr]);
            regAddr := Wrap(State(), regAddr as int + 1);
            index := index + 1;
          }
      }
    }

    /** A byte of a write transaction: part of the address first, then data. */
    method StoreByte(data: uint8)
      requires State().Valid()
      modifies this`regAddr, this`index, ee
      ensures State() == WriteByte(old(State()), data)
    {
      var addrSize := State().AddressBytes();
      if index < addrSize {
        var reg := OrByte(regAddr, data, index);
        if index == addrSize - 1 {
          reg := AddSlave(State(), reg);
        }
        regAddr := Wrap(State(), reg as int);
      } else {
        ee[regAddr] := data;
        regAddr := Wrap(State(), regAddr as int + 1);
      }
      index := index + 1;
    }
  }

  // ---- The memory as the bus sees it ----

  /** The cells from `at` on, going round at the end of the part. */
  function Stored(ee: seq<uint8>, size: nat, at: nat, data: seq<uint8>): (r: seq<uint8>)
    requires at < size <= |ee|
    ensures |r| == |ee|
    decreases |data|
  {
    if data == [] then ee else Stored(ee[at := data[0]], size, if at + 1 == size then 0 else at + 1, data[1..])
  }

  function Fetched(ee: seq<uint8>, size: nat, at: nat, n: nat): (d: seq<uint8>)
    requires at < size <= |ee|
    ensures |d| == n
    decreases n
  {
    if n == 0 then [] else [ee[at]] + Fetched(ee, size, if at + 1 == size then 0 else at + 1, n - 1)
  }

  /** What is stored at `at` is fetched from `at`, when it fits. */
  lemma {:induction false} FetchStored(ee: seq<uint8>, size: nat, at: nat, data: seq<uint8>)
    requires at < size <= |ee| && |data| <= size
    ensures Fetched(Stored(ee, size, at, data), size, at, |data|) == data
    decreases |data|
  {
    if data != [] {
      var next := if at + 1 == size then 0 else at + 1;
      var ee1 := ee[at := data[0]];
      FetchStored(ee1, size, next, data[1..]);
      StoredElsewhere(ee1, size, next, data[1..], at);
    }
  }

  /** Cells outside the written stretch keep their value. */
  lemma {:induction false} StoredElsewhere(ee: seq<uint8>, size: nat, at: nat, data: seq<uint8>, k: nat)
    requires at < size <= |ee| && k < |ee|
    requires k >= size || (if k >= at then |data| <= k - at else |data| <= k + size - at)
    ensures Stored(ee, size, at, data)[k] == ee[k]
    decreases |data|
  {
    if data != [] {
      StoredElsewhere(ee[at := data[0]], size, if at + 1 == size then 0 else at + 1, data[1..], k);
    }
  }

  /** The same operations by index: byte `i` goes to cell (at + i) mod size. */
  lemma {:induction false} FetchedAt(ee: seq<uint8>, size: nat, at: nat, n: nat, i: nat)
    requires at < size <= |ee| && i < n
    ensures Fetched(ee, size, at, n)[i] == ee[(at + i) % size]
    decreases n
  {
    var next := if at + 1 == size then 0 else at + 1;
    if i == 0 {
      SmallModulo(at, size);
    } else {
      FetchedAt(ee, size, next, n - 1, i - 1);
      if next == 0 {
        WrapModulo(i - 1, size);
      }
    }
  }

  lemma SmallModulo(a: nat, n: nat)
    requires a < n
    ensures a % n == a
  {}

  lemma WrapModulo(a: nat, n: nat)
    requires 0 < n
    ensures (a + n) % n == a % n
  {
    var q, r := a / n, a % n;
    assert a + n == (q + 1) * n + r;
    UniqueRemainder(a + n, n, q + 1, r);
  }

  lemma MulAtLeast(k: int, n: int)
    requires 1 <= k && 0 <= n
    ensures n <= k * n
  {}

  lemma ZeroMultiple(k: int, n: int)
    requires -n < k * n < n
    ensures k == 0
  {
    if k >= 1 {
      MulAtLeast(k, n);
    } else if k <= -1 {
      MulAtLeast(-k, n);
    }
  }

  lemma UniqueRemainder(a: int, n: int, q: int, r: int)
    requires 0 < n && a == q * n + r && 0 <= r < n
    ensures a % n == r
  {
    var p, s := a / n, a % n;
    assert a == p * n + s;
    assert (q - p) * n == s - r;
    ZeroMultiple(q - p, n);
  }

  // ---- Whole transactions ----

  function WriteBytes(p: Part, data: seq<uint8>): (q: Part)
    requires p.Valid()
    ensures q.Valid()
    decreases |data|
  {
    if data == [] then p else WriteBytes(WriteByte(p, data[0]), data[1..])
  }

  /** The address bytes a master sends for cell `a`, low byte first. */
  function AddressOf(p: Part, a: uint16): (s: seq<uint8>)
    ensures |s| == p.AddressBytes()
  {
    if p.size > 256 then [(a % 256) as uint8, (a / 256) as uint8] else [(a % 256) as uint8]
  }

  /** Where the part puts address `a` of a write transaction: 128 times the slave address is taken off
      and the rest goes round. For a base that is a multiple of 32, such as 0xA0, that is `a` itself. */
  function Cell(p: Part, a: int): (c: nat)
    requires 0 < p.size
    ensures c < p.size
  {
    (a - 128 * p.base as int) % p.size
  }

  lemma ModuloShift(a: int, k: int, n: int)
    requires 0 < n
    ensures (a + k * n) % n == a % n
  {
    var q, r := a / n, a % n;
    assert a + k * n == (q + k) * n + r;
    UniqueRemainder(a + k * n, n, q + k, r);
  }

  lemma {:induction false} SizeCases(n: nat)
    requires PowerOfTwo(n) && n <= 4096
    ensures n in {1, 2, 4, 8, 16, 32, 64, 128, 256, 512, 1024, 2048, 4096}
    decreases n
  {
    if n > 1 {
      SizeCases(n / 2);
    }
  }

  /** How many times a size goes into the largest one. */
  lemma SizeDivides(n: nat) returns (m: nat)
    requires PowerOfTwo(n) && n <= 4096
    ensures n > 0 && m * n == 4096
  {
    SizeCases(n);
    if n <= 8 {
      m := if n == 1 then 4096 else if n == 2 then 2048 else if n == 4 then 1024 else 512;
    } else if n <= 128 {
      m := if n == 16 then 256 else if n == 32 then 128 else if n == 64 then 64 else 32;
    } else {
      m := if n == 256 then 16 else if n == 512 then 8 else if n == 1024 then 4 else if n == 2048 then 2 else 1;
    }
  }

  lemma MulAssoc(k: int, m: int, n: int)
    ensures k * (m * n) == (k * m) * n
  {}

  /** Cutting to 16 bits first makes no difference to a size that divides 65536. */
  lemma WrapOfSixteen(x: int, n: nat)
    requires PowerOfTwo(n) && n <= 4096
    ensures x % 0x1_0000 % n == x % n
  {
    var m := SizeDivides(n);
    var k := x / 0x1_0000;
    MulAssoc(16 * k, m, n);
    ModuloShift(x % 0x1_0000, 16 * k * m, n);
  }

  lemma TwoBytes(r: uint16, low: uint8, high: uint8)
    ensures Or(Or(r, low as uint16), high as uint16 * 256) == Or(r, low as uint16 + high as uint16 * 256)
  {
    assert PowerOfTwo(256) by { Powers(); }
    OrSum(low as int, high as int, 256);
    OrAssoc(r as int, low as int, high as int * 256);
  }

  /** The bytes of an address phase put the address register on the cell of the address or-ed with what the
      register held. */
  lemma AddressAgain(p: Part, a: uint16)
    requires p.Valid() && p.selected % 2 == 0 && p.index == 0
    requires p.size <= 256 ==> a < 256
    ensures WriteBytes(p, AddressOf(p, a)) ==
            p.(regAddr := Cell(p, Or(p.regAddr, a) as int) as uint16, index := p.AddressBytes())
  {
    hide BitOr;
    var r := p.regAddr;
    var low, high := (a % 256) as uint8, (a / 256) as uint8;
    WrapOfSixteen(Or(r, a) as int - 128 * p.base as int, p.size);
    if p.size > 256 {
      var reg := Or(r, low as uint16);
      OrBelow(r as int, low as int, p.size);
      SmallModulo(reg as int, p.size);
      var q := WriteByte(p, low);
      assert q == p.(regAddr := reg, index := 1);
      TwoBytes(r, low, high);
      assert AddressOf(p, a)[1..] == [high];
      assert WriteBytes(q, [high]) == WriteByte(q, high) by { assert [high][1..] == []; }
    } else {
      assert AddressOf(p, a) == [low];
      assert WriteBytes(p, [low]) == WriteByte(p, low) by { assert [low][1..] == []; }
    }
  }

  /** The first address phase after a STOP puts the address register on the cell. */
  lemma AddressPhase(p: Part, a: uint16)
    requires p.Valid() && p.selected % 2 == 0 && p.index == 0 && p.regAddr == 0
    requires p.size <= 256 ==> a < 256
    ensures WriteBytes(p, AddressOf(p, a)) ==
            p.(regAddr := Cell(p, a as int) as uint16, index := p.AddressBytes())
  {
    OrNone(a as int);
    AddressAgain(p, a);
  }

  /** A second phase, with no STOP since the register moved, selects the cell of its address exactly when or-ing
      the register in changes nothing modulo the size: for an address of the part, when it has every bit of
      the register. */
  lemma SelectsAgainExactly(p: Part, a: uint16)
    requires p.Valid() && p.selected % 2 == 0 && p.index == 0
    requires p.size <= 256 ==> a < 256
    ensures var on := WriteBytes(p, AddressOf(p, a)).regAddr as int == Cell(p, a as int);
            && (on <==> Or(p.regAddr, a) as int % p.size == a as int % p.size)
            && ((a as int) < p.size ==> (on <==> Or(p.regAddr, a) == a))
  {
    hide BitOr;
    var x := Or(p.regAddr, a) as int;
    AddressAgain(p, a);
    SameCell(p, x, a as int);
    if (a as int) < p.size {
      OrBelow(p.regAddr as int, a as int, p.size);
      SmallModulo(x, p.size);
      SmallModulo(a as int, p.size);
    }
  }

  lemma SameCell(p: Part, x: int, y: int)
    requires 0 < p.size
    ensures Cell(p, x) == Cell(p, y) <==> x % p.size == y % p.size
  {
    var n, shift := p.size, 128 * p.base as int;
    if x % n == y % n {
      SameRemainder(x, y, shift, n);
    }
    if (x - shift) % n == (y - shift) % n {
      SameRemainder(x - shift, y - shift, -shift, n);
    }
  }

  lemma SameRemainder(x: int, y: int, d: int, n: int)
    requires 0 < n && x % n == y % n
    ensures (x - d) % n == (y - d) % n
  {
    var k := x / n - y / n;
    assert x - d == (y - d) + k * n;
    ModuloShift(y - d, k, n);
  }

  lemma NextCell(p: Part)
    requires p.Valid()
    ensures Wrap(p, p.regAddr as int + 1) as int == if p.regAddr as int + 1 == p.size then 0 else p.regAddr as int + 1
  {
    if p.regAddr as int + 1 < p.size {
      SmallModulo(p.regAddr as int + 1, p.size);
    } else {
      UniqueRemainder(p.size, p.size, 1, 0);
    }
  }

  /** The bytes after the address are stored from the cell on. */
  lemma {:induction false} DataPhase(p: Part, data: seq<uint8>)
    requires p.Valid() && p.index >= p.AddressBytes()
    ensures var q := WriteBytes(p, data);
            q.ee == Stored(p.ee, p.size, p.regAddr as int, data)
            && q.(ee := p.ee, regAddr := p.regAddr, index := p.index) == p
    decreases |data|
  {
    if data != [] {
      NextCell(p);
      DataPhase(WriteByte(p, data[0]), data[1..]);
    }
  }

  lemma {:induction false} WriteBytesAppend(p: Part, a: seq<uint8>, b: seq<uint8>)
    requires p.Valid()
    ensures WriteBytes(p, a + b) == WriteBytes(WriteBytes(p, a), b)
    decreases |a|
  {
    if a == [] {
      assert a + b == b;
    } else {
      assert (a + b)[1..] == a[1..] + b;
      WriteBytesAppend(WriteByte(p, a[0]), a[1..], b);
    }
  }

  /** A whole write transaction. */
  lemma WriteTransaction(p: Part, a: uint16, data: seq<uint8>)
    requires p.Valid() && p.selected % 2 == 0 && p.index == 0 && p.regAddr == 0
    requires p.size <= 256 ==> a < 256
    ensures var q := WriteBytes(p, AddressOf(p, a) + data);
            q.ee == Stored(p.ee, p.size, Cell(p, a as int), data)
            && q.(ee := p.ee, regAddr := p.regAddr, index := p.index) == p
            && (data == [] ==> q.regAddr as int == Cell(p, a as int))
  {
    WriteBytesAppend(p, AddressOf(p, a), data);
    AddressPhase(p, a);
    DataPhase(WriteBytes(p, AddressOf(p, a)), data);
  }

  /** An address names its own cell exactly when the size divides 128 times the base. */
  lemma CellIsAddressExactly(p: Part, a: nat)
    requires 0 < p.size && a < p.size
    ensures Cell(p, a) == a <==> 128 * p.base as int % p.size == 0
  {
    var n, shift := p.size, 128 * p.base as int;
    SmallModulo(a, n);
    SmallModulo(0, n);
    if shift % n == 0 {
      SameRemainder(shift, 0, shift - a, n);
    }
    if Cell(p, a) == a {
      SameRemainder(a, a - shift, a - shift, n);
    }
  }

  /** So for every size when the base is a multiple of 32. */
  lemma CellOfAlignedBase(p: Part, a: nat)
    requires p.Valid() && p.base % 32 == 0 && a < p.size
    ensures Cell(p, a) == a
  {
    var m := SizeDivides(p.size);
    var k := p.base as int / 32;
    MulAssoc(k, m, p.size);
    assert 128 * p.base as int == k * m * p.size + 0;
    UniqueRemainder(128 * p.base as int, p.size, k * m, 0);
    CellIsAddressExactly(p, a);
  }
}
