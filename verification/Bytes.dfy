/** Bytes, little-endian numbers, and the `Buffer` writes of Node that the ZIP writer uses. */
module Bytes {

  type Byte = b: int | 0 <= b < 256

  /** A value, or the `RangeError` a `Buffer` write throws when the number does not fit its field. */
  datatype Result<+T> = Ok(value: T) | RangeError {
    predicate IsFailure() {
      RangeError?
    }

    function PropagateFailure<U>(): Result<U>
      requires IsFailure()
    {
      RangeError
    }

    function Extract(): T
      requires Ok?
    {
      value
    }
  }

  datatype Written = Done | OutOfRange {
    predicate IsFailure() {
      OutOfRange?
    }

    function PropagateFailure<T>(): Result<T>
      requires IsFailure()
    {
      RangeError
    }
  }

  const TWO_16: int := 0x1_0000
  const TWO_32: int := 0x1_0000_0000

  predicate Fits16(v: int) {
    0 <= v < TWO_16
  }

  predicate Fits32(v: int) {
    0 <= v < TWO_32
  }

  function Le16(v: int): (bytes: seq<Byte>)
    requires Fits16(v)
    ensures |bytes| == 2
  {

    [v % 256, v / 256]
  }

  function Le32(v: int): (bytes: seq<Byte>)
    requires Fits32(v)
    ensures |bytes| == 4
  {
    Le16(v % TWO_16) + Le16(v / TWO_16)
  }

  /** The reader's side: the number stored at `at`. */
  function U16(s: seq<Byte>, at: nat): (v: nat)
    requires at + 2 <= |s|
    ensures Fits16(v)
  {
    s[at] as int + 256 * (s[at + 1] as int)
  }

  function U32(s: seq<Byte>, at: nat): (v: nat)
    requires at + 4 <= |s|
    ensures Fits32(v)
  {
    U16(s, at) + TWO_16 * U16(s, at + 2)
  }

  /** `part` stands in `s` at `at`. */
  predicate Holds(s: seq<Byte>, at: nat, part: seq<Byte>) {
    at + |part| <= |s| && forall i | 0 <= i < |part| :: s[at + i] == part[i]
  }

  lemma ReadsBack16(s: seq<Byte>, at: nat, v: int)
    requires Fits16(v) && Holds(s, at, Le16(v))
    ensures U16(s, at) == v
  {
    assert s[at + 0] == Le16(v)[0] && s[at + 1] == Le16(v)[1];
  }

  lemma ReadsBack32(s: seq<Byte>, at: nat, v: int)
    requires Fits32(v) && Holds(s, at, Le32(v))
    ensures U32(s, at) == v
  {
    HoldsParts(s, at, Le16(v % TWO_16), Le16(v / TWO_16));
    ReadsBack16(s, at, v % TWO_16);
    ReadsBack16(s, at + 2, v / TWO_16);
  }

  lemma HoldsParts(s: seq<Byte>, at: nat, left: seq<Byte>, right: seq<Byte>)
    requires Holds(s, at, left + right)
    ensures Holds(s, at, left) && Holds(s, at + |left|, right)
  {
    forall i | 0 <= i < |left|
      ensures s[at + i] == left[i]
    {
      assert (left + right)[i] == left[i];
    }
    forall i | 0 <= i < |right|
      ensures s[at + |left| + i] == right[i]
    {
      assert s[at + (|left| + i)] == (left + right)[|left| + i];
    }
  }

  lemma HoldsInside(s: seq<Byte>, at: nat, part: seq<Byte>, field: nat, piece: seq<Byte>)
    requires Holds(s, at, part) && Holds(part, field, piece)
    ensures Holds(s, at + field, piece)
  {
    forall i | 0 <= i < |piece|
      ensures s[at + field + i] == piece[i]
    {
      assert s[at + (field + i)] == part[field + i];
    }
  }

  lemma HeldIsSlice(s: seq<Byte>, at: nat, part: seq<Byte>)
    requires Holds(s, at, part)
    ensures s[at..at + |part|] == part
  {
  }

  /** `buffer.writeUInt16LE(value, offset)` of a number that fits. */
  method WriteUInt16LE(buffer: array<Byte>, value: int, offset: nat)
    requires offset + 2 <= buffer.Length && Fits16(value)
    modifies buffer
    ensures buffer[..offset + 2] == old(buffer[..offset]) + Le16(value)
    ensures buffer[offset + 2..] == old(buffer[offset + 2..])
  {
    buffer[offset] := value % 256;
    buffer[offset + 1] := value / 256;
  }

  /** `buffer.writeUInt32LE(value, offset)` of a number that fits. */
  method WriteUInt32LE(buffer: array<Byte>, value: int, offset: nat)
    requires offset + 4 <= buffer.Length && Fits32(value)
    modifies buffer
    ensures buffer[..offset + 4] == old(buffer[..offset]) + Le32(value)
    ensures buffer[offset + 4..] == old(buffer[offset + 4..])
  {
    WriteUInt16LE(buffer, value % TWO_16, offset);
    WriteUInt16LE(buffer, value / TWO_16, offset + 2);
    assert buffer[offset + 4..] == buffer[offset + 2..][2..];
  }

  /** `buffer.writeUInt16LE(value, offset)` of any number. */
  method TryWriteUInt16LE(buffer: array<Byte>, value: int, offset: nat) returns (r: Written)
    requires offset + 2 <= buffer.Length
    modifies buffer
    ensures r.Done? <==> Fits16(value)
    ensures r.Done? ==> buffer[..offset + 2] == old(buffer[..offset]) + Le16(value)
    ensures r.OutOfRange? ==> buffer[..offset + 2] == old(buffer[..offset + 2])
    ensures buffer[offset + 2..] == old(buffer[offset + 2..])
  {
    if !(0 <= value < TWO_16) {
      return OutOfRange;
    }
    WriteUInt16LE(buffer, value, offset);
    r := Done;
  }

  /** `buffer.writeUInt32LE(value, offset)` of any number. */
  method TryWriteUInt32LE(buffer: array<Byte>, value: int, offset: nat) returns (r: Written)
    requires offset + 4 <= buffer.Length
    modifies buffer
    ensures r.Done? <==> Fits32(value)
    ensures r.Done? ==> buffer[..offset + 4] == old(buffer[..offset]) + Le32(value)
    ensures r.OutOfRange? ==> buffer[..offset + 4] == old(buffer[..offset + 4])
    ensures buffer[offset + 4..] == old(buffer[offset + 4..])
  {
    if !(0 <= value < TWO_32) {
      return OutOfRange;
    }
    WriteUInt32LE(buffer, value, offset);
    r := Done;
  }
}
