/** Bitwise or on numbers. */
module Bits {
  import opened Widths

  predicate PowerOfTwo(n: nat) { n == 1 || (n > 1 && n % 2 == 0 && PowerOfTwo(n / 2)) }

  /** `x | y`, bit by bit. */
  function BitOr(x: nat, y: nat): nat
    decreases x + y
  {
    if x == 0 && y == 0 then 0
    else 2 * BitOr(x / 2, y / 2) + if x % 2 == 1 || y % 2 == 1 then 1 else 0
  }

  lemma {:induction false} OrNone(y: nat)
    ensures BitOr(0, y) == y
  {
    if y > 0 {
      OrNone(y / 2);
    }
  }

  lemma {:induction false} OrAssoc(x: nat, y: nat, z: nat)
    ensures BitOr(BitOr(x, y), z) == BitOr(x, BitOr(y, z))
    decreases x + y + z
  {
    if x + y + z > 0 {
      OrHalves(x, y);
      OrHalves(y, z);
      OrHalves(BitOr(x, y), z);
      OrHalves(x, BitOr(y, z));
      OrAssoc(x / 2, y / 2, z / 2);
    }
  }

  lemma OrHalves(x: nat, y: nat)
    ensures BitOr(x, y) / 2 == BitOr(x / 2, y / 2)
    ensures BitOr(x, y) % 2 == if x % 2 == 1 || y % 2 == 1 then 1 else 0
  {}

  /** Numbers whose bits do not overlap are summed. */
  lemma {:induction false} OrSum(low: nat, high: nat, n: nat)
    requires PowerOfTwo(n) && low < n
    ensures BitOr(low, n * high) == low + n * high
    decreases n
  {
    if n == 1 {
      OrNone(high);
    } else {
      var h := n / 2;
      assert n * high == 2 * (h * high);
      OrSum(low / 2, high, h);
      OrHalves(low, n * high);
    }
  }

  /** Numbers below a power of two stay below it. */
  lemma {:induction false} OrBelow(x: nat, y: nat, n: nat)
    requires PowerOfTwo(n) && x < n && y < n
    ensures BitOr(x, y) < n
    decreases n
  {
    if n > 1 {
      OrBelow(x / 2, y / 2, n / 2);
      OrHalves(x, y);
    }
  }

  lemma {:induction false} PowerProduct(m: nat, n: nat)
    requires PowerOfTwo(m) && PowerOfTwo(n)
    ensures PowerOfTwo(m * n)
    decreases m
  {
    if m > 1 {
      var h := m / 2;
      PowerProduct(h, n);
      assert m * n == 2 * (h * n);
    }
  }

  lemma Powers()
    ensures PowerOfTwo(256) && PowerOfTwo(4096) && PowerOfTwo(0x1_0000)
  {
    assert PowerOfTwo(4);
    PowerProduct(4, 4);
    PowerProduct(16, 16);
    PowerProduct(16, 256);
    PowerProduct(256, 256);
  }

  function Or(x: uint16, y: uint16): uint16 {
    Powers();
    OrBelow(x as int, y as int, 0x1_0000);
    BitOr(x as int, y as int) as uint16
  }
}
