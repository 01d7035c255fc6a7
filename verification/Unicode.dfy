/** Well-formed UTF-8: the table a decoder checks bytes against, and the encoding it stands for. */
module Unicode {
  import opened Wire

  predicate Tail(b: byte, lo: byte, hi: byte) { lo <= b <= hi }

  /** Table 3-7 of the Unicode Standard: what `bytes.decode('utf-8')` accepts. */
  predicate Utf8(b: seq<byte>) {
    if b == [] then true
    else if b[0] < 0x80 then Utf8(b[1..])
    else if 0xC2 <= b[0] <= 0xDF then |b| >= 2 && Tail(b[1], 0x80, 0xBF) && Utf8(b[2..])
    else if 0xE0 <= b[0] <= 0xEF then
      |b| >= 3 && Tail(b[2], 0x80, 0xBF) && Utf8(b[3..])
      && Tail(b[1], if b[0] == 0xE0 then 0xA0 else 0x80, if b[0] == 0xED then 0x9F else 0xBF)
    else if 0xF0 <= b[0] <= 0xF4 then
      |b| >= 4 && Tail(b[2], 0x80, 0xBF) && Tail(b[3], 0x80, 0xBF) && Utf8(b[4..])
      && Tail(b[1], if b[0] == 0xF0 then 0x90 else 0x80, if b[0] == 0xF4 then 0x8F else 0xBF)
    else false
  }

  /** A Unicode scalar value (definition D76): any code point but the surrogates. */
  type scalar = c: int | 0 <= c < 0xD800 || 0xE000 <= c < 0x11_0000

  /** The bit distribution of Table 3-6. */
  function Encode(c: scalar): (b: seq<byte>) {
    if c < 0x80 then [c as byte]
    else if c < 0x800 then [(0xC0 + c / 64) as byte, (0x80 + c % 64) as byte]
    else if c < 0x1_0000 then [(0xE0 + c / 4096) as byte, (0x80 + c / 64 % 64) as byte, (0x80 + c % 64) as byte]
    else [(0xF0 + c / 262144) as byte, (0x80 + c / 4096 % 64) as byte,
          (0x80 + c / 64 % 64) as byte, (0x80 + c % 64) as byte]
  }

  function EncodeAll(cs: seq<scalar>): seq<byte> {
    if cs == [] then [] else Encode(cs[0]) + EncodeAll(cs[1..])
  }

  lemma TwoBytes(c: scalar, rest: seq<byte>)
    requires 0x80 <= c < 0x800
    ensures Utf8(Encode(c) + rest) <==> Utf8(rest)
  {
    assert (Encode(c) + rest)[2..] == rest;
  }

  lemma ThreeBytes(c: scalar, rest: seq<byte>)
    requires 0x800 <= c < 0x1_0000
    ensures Utf8(Encode(c) + rest) <==> Utf8(rest)
  {
    assert (Encode(c) + rest)[3..] == rest;
    assert c == 64 * (c / 64) + c % 64 && c / 64 == 64 * (c / 4096) + c / 64 % 64;
  }

  lemma FourBytes(c: scalar, rest: seq<byte>)
    requires 0x1_0000 <= c
    ensures Utf8(Encode(c) + rest) <==> Utf8(rest)
  {
    assert (Encode(c) + rest)[4..] == rest;
    assert c / 4096 == 64 * (c / 262144) + c / 4096 % 64;
  }

  lemma EncodedFirst(c: scalar, rest: seq<byte>)
    ensures Utf8(Encode(c) + rest) <==> Utf8(rest)
  {
    if c < 0x80 {
      assert (Encode(c) + rest)[1..] == rest;
    } else if c < 0x800 {
      TwoBytes(c, rest);
    } else if c < 0x1_0000 {
      ThreeBytes(c, rest);
    } else {
      FourBytes(c, rest);
    }
  }

  lemma {:induction false} EncodedAccepted(cs: seq<scalar>)
    ensures Utf8(EncodeAll(cs))
  {
    if cs != [] {
      EncodedAccepted(cs[1..]);
      EncodedFirst(cs[0], EncodeAll(cs[1..]));
    }
  }

  lemma Sextets(h: nat, l: nat)
    requires l < 64
    ensures (64 * h + l) / 64 == h && (64 * h + l) % 64 == l
  {}

  lemma TwoFirst(b: seq<byte>) returns (c: scalar)
    requires Utf8(b) && b != [] && 0x80 <= b[0] < 0xE0
    ensures |b| >= 2 && Encode(c) == b[..2] && Utf8(b[2..])
  {
    var h, l := b[0] as int - 0xC0, b[1] as int - 0x80;
    Sextets(h, l);
    c := 64 * h + l;
  }

  lemma ThreeFirst(b: seq<byte>) returns (c: scalar)
    requires Utf8(b) && b != [] && 0xE0 <= b[0] < 0xF0
    ensures |b| >= 3 && Encode(c) == b[..3] && Utf8(b[3..])
  {
    var h, m, l := b[0] as int - 0xE0, b[1] as int - 0x80, b[2] as int - 0x80;
    Sextets(h, m);
    Sextets(64 * h + m, l);
    FourthOf(64 * (64 * h + m) + l);
    c := 64 * (64 * h + m) + l;
  }

  lemma FourthOf(c: nat)
    ensures c / 4096 == c / 64 / 64 && c / 262144 == c / 64 / 64 / 64
  {}

  lemma FourFirst(b: seq<byte>) returns (c: scalar)
    requires Utf8(b) && b != [] && 0xF0 <= b[0]
    ensures |b| >= 4 && Encode(c) == b[..4] && Utf8(b[4..])
  {
    var h, m, n, l := b[0] as int - 0xF0, b[1] as int - 0x80, b[2] as int - 0x80, b[3] as int - 0x80;
    Sextets(h, m);
    Sextets(64 * h + m, n);
    Sextets(64 * (64 * h + m) + n, l);
    c := 64 * (64 * (64 * h + m) + n) + l;
    FourthOf(c);
  }

  /** The first character of accepted bytes, and how many of them encode it. */
  lemma FirstScalar(b: seq<byte>) returns (c: scalar, n: nat)
    requires Utf8(b) && b != []
    ensures 1 <= n <= |b| && Encode(c) == b[..n] && Utf8(b[n..])
  {
    if b[0] < 0x80 {
      c, n := b[0] as int, 1;
    } else if b[0] < 0xE0 {
      c := TwoFirst(b);
      n := 2;
    } else if b[0] < 0xF0 {
      c := ThreeFirst(b);
      n := 3;
    } else {
      c := FourFirst(b);
      n := 4;
    }
  }

  lemma {:induction false} Decoded(b: seq<byte>) returns (cs: seq<scalar>)
    requires Utf8(b)
    ensures EncodeAll(cs) == b
    decreases |b|
  {
    if b == [] {
      cs := [];
    } else {
      var c, n := FirstScalar(b);
      var rest := Decoded(b[n..]);
      cs := [c] + rest;
      assert b == b[..n] + b[n..];
    }
  }

  /** The decoder accepts exactly the encodings of lists of scalar values. */
  lemma Utf8Means(b: seq<byte>)
    ensures Utf8(b) <==> exists cs :: EncodeAll(cs) == b
  {
    if Utf8(b) {
      var cs := Decoded(b);
    }
    if cs :| EncodeAll(cs) == b {
      EncodedAccepted(cs);
    }
  }
}
