/** Bytes, little- and big-endian integers, and Python's clipping slices. */
module Wire {
  import opened Widths

  type byte = uint8

  /** A 32-bit field as Python sees it: an unbounded integer that happens to fit. */
  type word = x: int | 0 <= x < 0x1_0000_0000

  datatype ByteOrder = Little | Big

  /** `b[lo:hi]` as Python evaluates it: both bounds are clipped to the length. */
  function Slice<T>(b: seq<T>, lo: nat, hi: nat): (r: seq<T>)
    requires lo <= hi
    ensures |r| <= hi - lo
    ensures |r| < hi - lo ==> |b| < hi
  {
    if |b| <= lo then [] else if |b| <= hi then b[lo..] else b[lo..hi]
  }

  /** `int.from_bytes(b, 'little')`, for any number of bytes. */
  function FromLittle(b: seq<byte>): (n: nat)
  {
    if b == [] then 0 else b[0] as int + 256 * FromLittle(b[1..])
  }

  function Reverse(b: seq<byte>): (r: seq<byte>)
    ensures |r| == |b|
    ensures forall i :: 0 <= i < |b| ==> r[i] == b[|b| - 1 - i]
  {
    if b == [] then [] else Reverse(b[1..]) + [b[0]]
  }

  /** `int.from_bytes(b, byteorder)`. */
  function FromBytes(order: ByteOrder, b: seq<byte>): nat {
    FromLittle(if order.Little? then b else Reverse(b))
  }

  /** The four bytes of a `uint32_t` as they lie in memory on a little-endian host. */
  function ToLittle(n: word): (b: seq<byte>)
    ensures |b| == 4
  {
    [(n % 256) as byte, (n / 256 % 256) as byte, (n / 65536 % 256) as byte, (n / 16777216) as byte]
  }

  function ToBytes(order: ByteOrder, n: word): (b: seq<byte>)
    ensures |b| == 4
  {
    if order.Little? then ToLittle(n) else Reverse(ToLittle(n))
  }

  lemma FromLittle4(b: seq<byte>)
    requires |b| == 4
    ensures FromLittle(b) ==
            b[0] as int + 256 * b[1] as int + 65536 * b[2] as int + 16777216 * b[3] as int
  {
    var c := b[1..];
    var d := c[1..];
    var e := d[1..];
    assert FromLittle(e) == e[0] as int + 256 * FromLittle(e[1..]) == e[0] as int;
    assert FromLittle(d) == d[0] as int + 256 * FromLittle(e);
    assert FromLittle(c) == c[0] as int + 256 * FromLittle(d);
  }

  lemma LittleRoundTrip(n: word)
    ensures FromLittle(ToLittle(n)) == n
  {
    FromLittle4(ToLittle(n));
    var p := n / 256;
    var q := p / 256;
    assert n / 65536 == q && n / 16777216 == q / 256;
    assert n == 256 * p + n % 256 && p == 256 * q + p % 256 && q == 256 * (q / 256) + q % 256;
  }

  lemma FourDigits(a: nat, b: nat, c: nat, d: nat)
    requires a < 256 && b < 256 && c < 256 && d < 256
    ensures var n := a + 256 * b + 65536 * c + 16777216 * d;
            n < 0x1_0000_0000 && n % 256 == a && n / 256 % 256 == b && n / 65536 % 256 == c && n / 16777216 == d
  {
    var n := a + 256 * b + 65536 * c + 16777216 * d;
    var p, q := b + 256 * c + 65536 * d, c + 256 * d;
    assert n == a + 256 * p && p == b + 256 * q;
    assert n / 256 == p && n / 65536 == q;
  }

  lemma LittleCanonical(b: seq<byte>)
    requires |b| == 4
    ensures FromLittle(b) < 0x1_0000_0000 && ToLittle(FromLittle(b)) == b
  {
    hide FromLittle;
    FromLittle4(b);
    FourDigits(b[0] as int, b[1] as int, b[2] as int, b[3] as int);
  }

  lemma ShortLittle(b: seq<byte>)
    requires |b| <= 4
    ensures FromLittle(b) < 0x1_0000_0000
  {
    if |b| == 4 {
      FromLittle4(b);
    } else if |b| > 0 {
      ShortLittleTail(b[1..]);
    }
  }

  lemma ShortLittleTail(b: seq<byte>)
    requires |b| <= 2
    ensures FromLittle(b) < 65536
  {
    if |b| == 2 {
      var c := b[1..];
      assert FromLittle(c) == c[0] as int + 256 * FromLittle(c[1..]) == c[0] as int;
    }
  }

  lemma ReverseTwice(b: seq<byte>)
    ensures Reverse(Reverse(b)) == b
  {}

  /** Memory order and `from_bytes` undo each other, in both directions, for either byte order. */
  lemma IntegersRoundTrip(order: ByteOrder, n: word, b: seq<byte>)
    requires |b| == 4
    ensures FromBytes(order, ToBytes(order, n)) == n
    ensures FromBytes(order, b) < 0x1_0000_0000
    ensures ToBytes(order, FromBytes(order, b)) == b
  {
    var m := if order.Little? then b else Reverse(b);
    LittleRoundTrip(n);
    LittleCanonical(m);
    ReverseTwice(ToLittle(n));
    ReverseTwice(b);
  }

  /** The four bytes at `at` are worth `n`: the first is the lowest, or the highest. */
  predicate WordAt(order: ByteOrder, b: seq<byte>, at: nat, n: int) {
    && at + 4 <= |b|
    && n == if order.Little?
            then b[at] as int + 256 * b[at + 1] as int + 65536 * b[at + 2] as int + 16777216 * b[at + 3] as int
            else b[at + 3] as int + 256 * b[at + 2] as int + 65536 * b[at + 1] as int + 16777216 * b[at] as int
  }

  lemma BytesAreWord(order: ByteOrder, n: word)
    ensures WordAt(order, ToBytes(order, n), 0, n)
  {
    LittleRoundTrip(n);
    FromLittle4(ToLittle(n));
  }

  lemma WordInside(order: ByteOrder, front: seq<byte>, w: seq<byte>, rest: seq<byte>, n: int)
    requires |w| == 4 && WordAt(order, w, 0, n)
    ensures WordAt(order, front + (w + rest), |front|, n)
  {
    var b, i := front + (w + rest), |front|;
    assert b[i] == w[0] && b[i + 1] == w[1] && b[i + 2] == w[2] && b[i + 3] == w[3];
  }

  lemma WordWritten(order: ByteOrder, front: seq<byte>, n: word, rest: seq<byte>)
    ensures WordAt(order, front + (ToBytes(order, n) + rest), |front|, n)
  {
    hide WordAt;
    BytesAreWord(order, n);
    WordInside(order, front, ToBytes(order, n), rest, n);
  }
}
