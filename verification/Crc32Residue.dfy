/** The residue law of the checksum: a register that also takes in its own checksum ends in one constant. */
module Crc32Residue {

  import opened Bytes
  import opened Crc32

  // Numbers as bytes

  function High(m: bv32): bv24 {
    (m >> 8) as bv24
  }

  function Low(m: bv32): bv8 {
    (m & 0xff) as bv8
  }

  lemma HighIs(m: bv32)
    ensures High(m) as bv32 == m >> 8
  {
  }

  lemma LowIs(m: bv32)
    ensures Low(m) as bv32 == m & 0xff
  {
  }

  lemma Joins(m: bv32, w: bv32, x: bv32)
    requires w == m >> 8 && x == m & 0xff
    ensures m == (w << 8) | x
  {
  }

  lemma Pieces(m: bv32) returns (h: bv24, l: bv8, w: bv32, x: bv32)
    ensures w == h as bv32 && x == l as bv32 && m == (w << 8) | x && w == m >> 8 && x == m & 0xff
  {
    h, l, w, x := High(m), Low(m), m >> 8, m & 0xff;
    HighIs(m);
    LowIs(m);
    Joins(m, w, x);
  }

  lemma JoinedNumber(h: bv24, l: bv8)
    ensures (((h as bv32) << 8) | (l as bv32)) as int == 256 * ((h as bv32) as int) + (l as bv32) as int
  {
  }

  lemma PiecesAddUp(m: bv32, w: bv32, x: bv32, h: bv24, l: bv8)
    requires w == h as bv32 && x == l as bv32 && m == (w << 8) | x
    ensures m as int == 256 * (w as int) + x as int
  {
    JoinedNumber(h, l);
  }

  lemma IsByte(x: bv32, l: bv8)
    requires x == l as bv32
    ensures x as int < 256
  {
  }

  /** A value as its low byte, as a number, and the rest. */
  lemma LowByte(m: bv32) returns (w: bv32, b: Byte)
    ensures w == m >> 8 && b as bv32 == m & 0xff && m as int == 256 * (w as int) + b
  {
    var h, l, x;
    h, l, w, x := Pieces(m);
    PiecesAddUp(m, w, x, h, l);
    IsByte(x, l);
    ThereAndBack(x);
    b := x as int;
  }

  lemma ShiftedOut(m: bv32, w1: bv32, w2: bv32, w3: bv32, w4: bv32)
    requires w1 == m >> 8 && w2 == w1 >> 8 && w3 == w2 >> 8 && w4 == w3 >> 8
    ensures w4 == 0
  {
  }

  lemma Digits256(v: int, p: int, q: int, a: Byte, b: Byte, c: Byte, d: Byte)
    requires v == 256 * p + a && p == 256 * q + b && q == 256 * d + c
    ensures Fits32(v) && Le32(v) == [a, b, c, d]
  {
  }

  /** What feeding a register with one byte of `m` takes: the byte, and the rest of `m`. */
  predicate Gives(m: bv32, b: Byte, rest: bv32) {
    b as bv32 == m & 0xff && rest == m >> 8
  }

  lemma ZeroIsZero(w: bv32)
    requires w == 0
    ensures w as int == 0
  {
  }

  /** The four little-endian bytes of a value are its bytes from the low end. */
  lemma FourBytes(m: bv32) returns (a: Byte, b: Byte, c: Byte, d: Byte, w1: bv32, w2: bv32, w3: bv32)
    ensures Fits32(m as int) && Le32(m as int) == [a, b, c, d]
    ensures Gives(m, a, w1) && Gives(w1, b, w2) && Gives(w2, c, w3) && Gives(w3, d, 0)
  {
    var w4;
    w1, a := LowByte(m);
    w2, b := LowByte(w1);
    w3, c := LowByte(w2);
    w4, d := LowByte(w3);
    ShiftedOut(m, w1, w2, w3, w4);
    ZeroIsZero(w4);
    Digits256(m as int, w1 as int, w2 as int, a, b, c, d);
  }

  // The register takes in its own bytes

  lemma XorRegroups(s: bv32, m: bv32, x: bv32)
    ensures Xor(Xor(s, m), x) == Xor(s, Xor(m, x))
  {
  }

  lemma WithoutLowByte(m: bv32, x: bv32, h: bv32)
    requires x == m & 0xff && h == Xor(m, x)
    ensures h & 0xff == 0 && h >> 8 == m >> 8 && x & 0xff == x
  {
  }

  /** Fed with the low byte of `m`, the register `s ^ m` becomes `s`, eight steps on, and the rest of `m`. */
  lemma OwnByte(s: bv32, m: bv32, x: bv32, n: nat)
    requires n == 8 && x == m & 0xff
    ensures FeedBits(FeedBit, LowBit, DropBit, Xor(s, m), x, n) == Xor(Iterate(ShiftOut, s, n), m >> 8)
  {
    var h := Xor(m, x);
    WithoutLowByte(m, x, h);
    FedByteIsIterated(Xor(s, m), x, n);
    XorRegroups(s, m, x);
    ShiftOutLinearEverywhere();
    IterateLinear(ShiftOut, Xor, s, h, n);
    HighPart(h);
  }

  lemma FeedsOwnByte(register: bv32, s: bv32, m: bv32, t: bv32, rest: bv32, b: Byte, n: nat)
    requires register == Xor(s, m) && Iterate(ShiftOut, s, n) == t && Gives(m, b, rest) && n == 8
    ensures FeedByte(register, b) == Xor(t, rest)
  {
    OwnByte(s, m, b as bv32, n);
  }

  // Thirty-two steps from all ones

  lemma EightTo(a: bv32, b: bv32, c: bv32, d: bv32, e: bv32, f: bv32, g: bv32, h: bv32, i: bv32, n: nat)
    requires ShiftOut(a) == b && ShiftOut(b) == c && ShiftOut(c) == d && ShiftOut(d) == e
    requires ShiftOut(e) == f && ShiftOut(f) == g && ShiftOut(g) == h && ShiftOut(h) == i && n == 8
    ensures Iterate(ShiftOut, a, n) == i
  {
    TwoSteps(ShiftOut, a, b, c);
    TwoSteps(ShiftOut, c, d, e);
    TwoSteps(ShiftOut, e, f, g);
    TwoSteps(ShiftOut, g, h, i);
    Eight(ShiftOut, a, c, e, g, i);
  }

  lemma TwoSteps<T>(f: T -> T, a: T, b: T, c: T)
    requires f(a) == b && f(b) == c
    ensures Iterate(f, a, 2) == c
  {
    IterateTwice(f, a);
  }

  lemma Ones8(n: nat)
    requires n == 8
    ensures Iterate(ShiftOut, 0xffffffff, n) == 0x2dfd1072
  {
    EightTo(0xffffffff, 0x92477cdf, 0xa49b3d4f, 0xbff51d87, 0xb2420de3, 0xb49985d1, 0xb7f441c8, 0x5bfa20e4, 0x2dfd1072, n);
  }

  lemma Ones16(n: nat)
    requires n == 8
    ensures Iterate(ShiftOut, 0x2dfd1072, n) == 0xbe26ed00
  {
    EightTo(0x2dfd1072, 0x16fe8839, 0xe6c7c73c, 0x7363e39e, 0x39b1f1cf, 0xf1607bc7, 0x9508bec3, 0xa73cdc41, 0xbe26ed00, n);
  }

  lemma Ones24(n: nat)
    requires n == 8
    ensures Iterate(ShiftOut, 0xbe26ed00, n) == 0x00be26ed
  {
    EightTo(0xbe26ed00, 0x5f137680, 0x2f89bb40, 0x17c4dda0, 0x0be26ed0, 0x05f13768, 0x02f89bb4, 0x017c4dda, 0x00be26ed, n);
  }

  lemma Ones32(n: nat)
    requires n == 8
    ensures Iterate(ShiftOut, 0x00be26ed, n) == 0xdebb20e3
  {
    EightTo(0x00be26ed, 0xede79056, 0x76f3c82b, 0xd6c16735, 0x86d830ba, 0x436c185d, 0xcc0e8f0e, 0x66074787, 0xdebb20e3, n);
  }

  // The law

  lemma FeedsLast(register: bv32, bytes: seq<Byte>, b: Byte)
    ensures FeedBytes(register, bytes + [b]) == FeedByte(FeedBytes(register, bytes), b)
  {
    assert (bytes + [b])[..|bytes|] == bytes;
  }

  lemma FeedsTwo(register: bv32, bytes: seq<Byte>, a: Byte, b: Byte)
    ensures FeedBytes(register, bytes + [a, b]) == FeedByte(FeedByte(FeedBytes(register, bytes), a), b)
  {
    FeedsLast(register, bytes, a);
    FeedsLast(register, bytes + [a], b);
    assert bytes + [a] + [b] == bytes + [a, b];
  }

  lemma TwoAndTwo(bytes: seq<Byte>, a: Byte, b: Byte, c: Byte, d: Byte)
    ensures bytes + [a, b] + [c, d] == bytes + [a, b, c, d]
  {
  }

  lemma FeedsFour(register: bv32, bytes: seq<Byte>, a: Byte, b: Byte, c: Byte, d: Byte)
    ensures FeedBytes(register, bytes + [a, b, c, d])
         == FeedByte(FeedByte(FeedByte(FeedByte(FeedBytes(register, bytes), a), b), c), d)
  {
    FeedsTwo(register, bytes, a, b);
    FeedsTwo(register, bytes + [a, b], c, d);
    TwoAndTwo(bytes, a, b, c, d);
  }

  lemma XorTwice(x: bv32, y: bv32)
    ensures Xor(y, Xor(x, y)) == x && Xor(x, 0) == x
  {
  }

  lemma TakesInItself(r: bv32, m: bv32, a: Byte, b: Byte, c: Byte, d: Byte, w1: bv32, w2: bv32, w3: bv32, n: nat)
    requires r == Xor(0xffffffff, m) && n == 8
    requires Gives(m, a, w1) && Gives(w1, b, w2) && Gives(w2, c, w3) && Gives(w3, d, 0)
    ensures FeedByte(FeedByte(FeedByte(FeedByte(r, a), b), c), d) == 0xdebb20e3
  {
    Ones8(n);
    Ones16(n);
    Ones24(n);
    Ones32(n);
    FeedsOwnByte(r, 0xffffffff, m, 0x2dfd1072, w1, a, n);
    FeedsOwnByte(FeedByte(r, a), 0x2dfd1072, w1, 0xbe26ed00, w2, b, n);
    FeedsOwnByte(FeedByte(FeedByte(r, a), b), 0xbe26ed00, w2, 0x00be26ed, w3, c, n);
    FeedsOwnByte(FeedByte(FeedByte(FeedByte(r, a), b), c), 0x00be26ed, w3, 0xdebb20e3, 0, d, n);
    XorTwice(0xdebb20e3, 0);
  }

  lemma RegisterOf(bytes: seq<Byte>)
    ensures FeedBytes(START, bytes) == Xor(0xffffffff, Crc(bytes))
  {
    XorTwice(FeedBytes(START, bytes), START);
  }

  /** Whatever the bytes, a register that also takes in their checksum ends in one constant; no bytes have checksum zero. */
  lemma ResidueIsConstant(bytes: seq<Byte>)
    ensures Fits32(Crc(bytes) as int)
    ensures FeedBytes(START, bytes + Le32(Crc(bytes) as int)) == 0xdebb20e3
    ensures Crc([]) == 0
  {
    var a, b, c, d, w1, w2, w3 := FourBytes(Crc(bytes));
    FeedsFour(START, bytes, a, b, c, d);
    RegisterOf(bytes);
    TakesInItself(FeedBytes(START, bytes), Crc(bytes), a, b, c, d, w1, w2, w3, 8);
  }
}
