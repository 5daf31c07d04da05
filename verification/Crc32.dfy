/**
 * The table-driven CRC of `host-package-zip.ts`, against the bit-serial shift register of RFC 1952
 * (section 8). JavaScript's `>>>` and `^` on 32-bit numbers are `>>` and `^` on `bv32`.
 */
module Crc32 {

  import opened Bytes

  const POLYNOMIAL: bv32 := 0xedb88320

  /** All ones: the register's start, and what the result is complemented with. */
  const START: bv32 := 0xffffffff

  /** One step of the table's inner loop: shift right, and add the polynomial when a one falls out. */
  function ShiftOut(v: bv32): bv32 {
    if v & 1 == 1 then POLYNOMIAL ^ (v >> 1) else v >> 1
  }

  /** `f` applied `n` times. */
  function Iterate<T>(f: T -> T, v: T, n: nat): T
    decreases n
  {
    if n == 0 then v else Iterate(f, f(v), n - 1)
  }

  // The reference: message bits enter the register one at a time, lowest bit of a byte first

  function FeedBit(register: bv32, bit: bool): bv32 {
    if (register & 1 == 1) != bit then POLYNOMIAL ^ (register >> 1) else register >> 1
  }

  function LowBit(m: bv32): bool {
    m & 1 == 1
  }

  function DropBit(m: bv32): bv32 {
    m >> 1
  }

  /** The register after the `n` lowest bits of `m`. */
  function FeedBits<T>(feed: (T, bool) -> T, low: T -> bool, drop: T -> T, register: T, m: T, n: nat): T
    decreases n
  {
    if n == 0 then register else FeedBits(feed, low, drop, feed(register, low(m)), drop(m), n - 1)
  }

  function FeedByte(register: bv32, byte: Byte): bv32 {
    FeedBits(FeedBit, LowBit, DropBit, register, byte as bv32, 8)
  }

  function FeedBytes(register: bv32, bytes: seq<Byte>): bv32 {
    if bytes == [] then register
    else FeedByte(FeedBytes(register, bytes[..|bytes| - 1]), bytes[|bytes| - 1])
  }

  /** The CRC-32 of RFC 1952. */
  function Crc(bytes: seq<Byte>): bv32 {
    Xor(FeedBytes(START, bytes), START)
  }

  // Bit arithmetic

  lemma ShiftXor(x: bv32, y: bv32)
    ensures (x ^ y) >> 1 == (x >> 1) ^ (y >> 1)
    ensures (x ^ y) & 1 == (x & 1) ^ (y & 1)
    ensures x & 1 == 0 || x & 1 == 1
    ensures y & 1 == 0 || y & 1 == 1
  {
  }

  lemma XorMoves(a: bv32, b: bv32, p: bv32)
    ensures p ^ (a ^ b) == (p ^ a) ^ b && p ^ (a ^ b) == a ^ (p ^ b) && (p ^ a) ^ (p ^ b) == a ^ b
  {
  }

  lemma ShiftOutIsLinear(x: bv32, y: bv32)
    ensures ShiftOut(x ^ y) == ShiftOut(x) ^ ShiftOut(y)
  {
    ShiftXor(x, y);
    XorMoves(x >> 1, y >> 1, POLYNOMIAL);
  }

  /** Feeding a bit is shifting out a register to which the bit has been added. */
  lemma FeedIsShift(s: bv32, m: bv32)
    ensures FeedBit(s ^ m, LowBit(m)) == ShiftOut(s) ^ DropBit(m)
  {
    ShiftXor(s, m);
    XorMoves(s >> 1, m >> 1, POLYNOMIAL);
  }

  function Xor(a: bv32, b: bv32): bv32 {
    a ^ b
  }

  lemma {:induction false} IterateLinear<T(!new)>(f: T -> T, plus: (T, T) -> T, x: T, y: T, n: nat)
    requires forall a, b :: f(plus(a, b)) == plus(f(a), f(b))
    ensures Iterate(f, plus(x, y), n) == plus(Iterate(f, x, n), Iterate(f, y, n))
    decreases n
  {
    if n > 0 {
      IterateLinear(f, plus, f(x), f(y), n - 1);
    }
  }

  lemma {:induction false} FeedBitsIsIterate<T(!new)>(
    feed: (T, bool) -> T, low: T -> bool, drop: T -> T, shift: T -> T, plus: (T, T) -> T, s: T, m: T, n: nat)
    requires forall a, b :: feed(plus(a, b), low(b)) == plus(shift(a), drop(b))
    ensures FeedBits(feed, low, drop, plus(s, m), m, n) == plus(Iterate(shift, s, n), Iterate(drop, m, n))
    decreases n
  {
    if n > 0 {
      FeedBitsIsIterate(feed, low, drop, shift, plus, shift(s), drop(m), n - 1);
    }
  }

  lemma DropOutTwice(v: bv32)
    requires v & 1 == 0 && (v >> 1) & 1 == 0
    ensures ShiftOut(ShiftOut(v)) == v >> 2
  {
    assert (v >> 1) >> 1 == v >> 2;
  }

  lemma {:induction false} IterateSplits<T>(f: T -> T, v: T, m: nat, n: nat)
    ensures Iterate(f, v, m + n) == Iterate(f, Iterate(f, v, m), n)
    decreases m
  {
    if m > 0 {
      IterateSplits(f, f(v), m - 1, n);
    }
  }

  lemma IterateTwice<T>(f: T -> T, v: T)
    ensures Iterate(f, v, 2) == f(f(v))
  {
    assert Iterate(f, f(v), 1) == f(f(v));
  }

  /** Two zero bits fall out. */
  lemma TwoZeros(v: bv32)
    requires v & 1 == 0 && (v >> 1) & 1 == 0
    ensures Iterate(ShiftOut, v, 2) == v >> 2
  {
    IterateTwice(ShiftOut, v);
    DropOutTwice(v);
  }

  lemma TwoZerosTo(v: bv32, w: bv32)
    requires v & 1 == 0 && (v >> 1) & 1 == 0 && v >> 2 == w
    ensures Iterate(ShiftOut, v, 2) == w
  {
    TwoZeros(v);
  }

  // The zeros below the high part fall out two by two

  lemma ZeroPair0(h: bv32)
    requires h & 0xff == 0
    ensures Iterate(ShiftOut, h, 2) == h >> 2
  {
    TwoZerosTo(h, h >> 2);
  }

  lemma ZeroPair1(h: bv32)
    requires h & 0xff == 0
    ensures Iterate(ShiftOut, h >> 2, 2) == h >> 4
  {
    TwoZerosTo(h >> 2, h >> 4);
  }

  lemma ZeroPair2(h: bv32)
    requires h & 0xff == 0
    ensures Iterate(ShiftOut, h >> 4, 2) == h >> 6
  {
    TwoZerosTo(h >> 4, h >> 6);
  }

  lemma ZeroPair3(h: bv32)
    requires h & 0xff == 0
    ensures Iterate(ShiftOut, h >> 6, 2) == h >> 8
  {
    TwoZerosTo(h >> 6, h >> 8);
  }

  lemma Eight<T>(f: T -> T, a: T, b: T, c: T, d: T, e: T)
    requires Iterate(f, a, 2) == b && Iterate(f, b, 2) == c && Iterate(f, c, 2) == d && Iterate(f, d, 2) == e
    ensures Iterate(f, a, 8) == e
  {
    IterateSplits(f, a, 2, 6);
    IterateSplits(f, b, 2, 4);
    IterateSplits(f, c, 2, 2);
  }

  /** Above the low byte, eight steps only shift. */
  lemma HighPart(h: bv32)
    requires h & 0xff == 0
    ensures Iterate(ShiftOut, h, 8) == h >> 8
  {
    ZeroPair0(h);
    ZeroPair1(h);
    ZeroPair2(h);
    ZeroPair3(h);
    Eight(ShiftOut, h, h >> 2, h >> 4, h >> 6, h >> 8);
  }

  lemma DropTwice(m: bv32)
    ensures Iterate(DropBit, m, 2) == m >> 2
  {
    IterateTwice(DropBit, m);
    assert (m >> 1) >> 1 == m >> 2;
  }

  lemma ByteBits(m: bv32)
    requires m & 0xff == m
    ensures (m >> 2) >> 2 == m >> 4 && (m >> 4) >> 2 == m >> 6 && (m >> 6) >> 2 == 0
  {
  }

  lemma ByteDropsOut(m: bv32)
    requires m & 0xff == m
    ensures Iterate(DropBit, m, 8) == 0
  {
    ByteBits(m);
    DropTwice(m);
    DropTwice(m >> 2);
    DropTwice(m >> 4);
    DropTwice(m >> 6);
    Eight(DropBit, m, m >> 2, m >> 4, m >> 6, 0);
  }

  lemma SplitLowByte(v: bv32)
    ensures Xor(v & 0xff, v & 0xffffff00) == v
    ensures (v & 0xffffff00) & 0xff == 0 && (v & 0xffffff00) >> 8 == v >> 8
  {
  }

  lemma XorByte(c: bv32, m: bv32)
    requires m & 0xff == m
    ensures Xor(Xor(c, m), m) == c
    ensures Xor(c, m) >> 8 == c >> 8
  {
  }

  lemma XorZero(x: bv32)
    ensures Xor(x, 0) == x
  {
  }

  lemma ByteFits(b: Byte)
    ensures (b as bv32) & 0xff == b as bv32
  {
  }

  lemma ShiftOutLinearEverywhere()
    ensures forall a, b :: ShiftOut(Xor(a, b)) == Xor(ShiftOut(a), ShiftOut(b))
  {
    forall a, b
      ensures ShiftOut(Xor(a, b)) == Xor(ShiftOut(a), ShiftOut(b))
    {
      ShiftOutIsLinear(a, b);
    }
  }

  lemma FeedIsShiftEverywhere()
    ensures forall a, b :: FeedBit(Xor(a, b), LowBit(b)) == Xor(ShiftOut(a), DropBit(b))
  {
    forall a, b
      ensures FeedBit(Xor(a, b), LowBit(b)) == Xor(ShiftOut(a), DropBit(b))
    {
      FeedIsShift(a, b);
    }
  }

  /** Eight steps of the register on any value are one table entry and one shift by a byte. */
  lemma EightSteps(v: bv32, n: nat)
    requires n == 8
    ensures Iterate(ShiftOut, v, n) == Xor(Iterate(ShiftOut, v & 0xff, n), v >> 8)
  {
    ShiftOutLinearEverywhere();
    IterateLinear(ShiftOut, Xor, v & 0xff, v & 0xffffff00, n);
    SplitLowByte(v);
    HighPart(v & 0xffffff00);
  }

  lemma EightStepsTo(v: bv32, rest: bv32, n: nat)
    requires n == 8 && v >> 8 == rest
    ensures Iterate(ShiftOut, v, n) == Xor(Iterate(ShiftOut, v & 0xff, n), rest)
  {
    EightSteps(v, n);
  }

  lemma FedByteIsIterated(c: bv32, m: bv32, n: nat)
    requires m & 0xff == m && n == 8
    ensures FeedBits(FeedBit, LowBit, DropBit, c, m, n) == Iterate(ShiftOut, Xor(c, m), n)
  {
    FeedIsShiftEverywhere();
    FeedBitsIsIterate(FeedBit, LowBit, DropBit, ShiftOut, Xor, Xor(c, m), m, n);
    XorByte(c, m);
    ByteDropsOut(m);
    XorZero(Iterate(ShiftOut, Xor(c, m), n));
  }

  /** Feeding a byte is one table entry and one shift by a byte. */
  lemma ByteStep(c: bv32, m: bv32, n: nat)
    requires m & 0xff == m && n == 8
    ensures FeedBits(FeedBit, LowBit, DropBit, c, m, n) == Xor(Iterate(ShiftOut, Xor(c, m) & 0xff, n), c >> 8)
  {
    FedByteIsIterated(c, m, n);
    XorByte(c, m);
    EightStepsTo(Xor(c, m), c >> 8, n);
  }

  /** The byte step of the table-driven loop is the bit-serial register fed with the byte. */
  lemma TableStep(c: bv32, b: Byte)
    ensures FeedByte(c, b) == Xor(Iterate(ShiftOut, Xor(c, b as bv32) & 0xff, 8), c >> 8)
  {
    ByteFits(b);
    ByteStep(c, b as bv32, 8);
  }

  // The program

  function TableEntry(i: nat): bv32
    requires i < 256
  {
    Iterate(ShiftOut, i as bv32, 8)
  }

  /** The first `n` entries are filled in. */
  ghost predicate FilledTo(table: seq<bv32>, n: nat)
    requires n <= |table| <= 256
  {
    forall i | 0 <= i < n :: table[i] == TableEntry(i)
  }

  ghost predicate IsTable(table: seq<bv32>) {
    |table| == 256 && FilledTo(table, |table|)
  }

  /** The inner loop of the table: eight steps in place. */
  method ComputeEntry(index: nat) returns (value: bv32)
    requires index < 256
    ensures value == TableEntry(index)
  {
    value := index as bv32;
    for bit := 0 to 8
      invariant value == Iterate(ShiftOut, index as bv32, bit)
    {
      IterateSplits(ShiftOut, index as bv32, bit, 1);
      value := ShiftOut(value);
    }
  }

  method FillTable(table: array<bv32>)
    requires table.Length <= 256
    modifies table
    ensures FilledTo(table[..], table.Length)
  {
    for index := 0 to table.Length
      invariant FilledTo(table[..], index)
    {
      var entry := ComputeEntry(index);
      table[index] := entry;
    }
  }

  /** `CRC32_TABLE`. */
  method BuildTable() returns (table: array<bv32>)
    ensures fresh(table) && IsTable(table[..])
  {
    table := new bv32[256];
    FillTable(table);
  }

  function IndexOf(x: bv32): (i: nat)
    ensures i < 256
  {
    (x & 0xff) as int
  }

  lemma EntryAtIndex(x: bv32)
    ensures TableEntry(IndexOf(x)) == Iterate(ShiftOut, x & 0xff, 8)
  {
    IndexFitsBack(x);
  }

  lemma IndexFitsBack(x: bv32)
    ensures IndexOf(x) as bv32 == x & 0xff
  {
    ThereAndBack(x & 0xff);
  }

  lemma ThereAndBack(y: bv32)
    ensures (y as int) as bv32 == y
  {
  }

  lemma LookupStep(table: seq<bv32>, c: bv32, b: Byte)
    requires IsTable(table)
    ensures Xor(table[IndexOf(Xor(c, b as bv32))], c >> 8) == FeedByte(c, b)
  {
    TableStep(c, b);
    EntryAtIndex(Xor(c, b as bv32));
  }

  /** The loop body of `crc32`. */
  method Absorb(table: array<bv32>, checksum: bv32, byte: Byte) returns (r: bv32)
    requires IsTable(table[..])
    ensures r == FeedByte(checksum, byte)
  {
    LookupStep(table[..], checksum, byte);
    r := Xor(table[IndexOf(Xor(checksum, byte as bv32))], checksum >> 8);
  }

  /** `crc32`: one table lookup per byte computes the CRC-32 of RFC 1952. */
  method Crc32(table: array<bv32>, bytes: seq<Byte>) returns (checksum: bv32)
    requires IsTable(table[..])
    ensures checksum == Crc(bytes)
  {
    checksum := START;
    for k := 0 to |bytes|
      invariant checksum == FeedBytes(START, bytes[..k])
    {
      assert bytes[..k + 1][..k] == bytes[..k];
      checksum := Absorb(table, checksum, bytes[k]);
    }
    assert bytes[..|bytes|] == bytes;
    checksum := Xor(checksum, START);
  }

  /** The checksum as the number that `>>> 0` makes of it. */
  function Checksum(bytes: seq<Byte>): (c: int)
    ensures Fits32(c)
  {
    Crc(bytes) as int
  }
}
