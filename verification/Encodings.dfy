/** What the byte and text encodings stand for, in the arithmetic of their standards. */
module Encodings {

  import opened JsonText
  import opened Bytes
  import Utf8
  import Base64Url
  import opened PublicAdmissionAssertion

  /** Byte `k` as a number. */
  function At(b: seq<Byte>, k: nat): int
    requires k < |b|
  {
    b[k]
  }

  // Numbers in little-endian order

  /** Byte `k` of a number counts `256^k`. */
  lemma LittleEndian(v: int)
    requires Fits32(v)
    ensures v == At(Le32(v), 0) + 0x100 * At(Le32(v), 1) + 0x1_0000 * At(Le32(v), 2) + 0x100_0000 * At(Le32(v), 3)
    ensures Fits16(v) ==> v == At(Le16(v), 0) + 0x100 * At(Le16(v), 1)
  {
  }

  // UTF-8: sections 3 and 4 of RFC 3629

  /** A character is the payload bits of its bytes, under the marks that tell how many bytes there are. */
  lemma CharacterBits(cp: Utf8.CodePoint)
    ensures var b := Utf8.EncodePoint(cp);
            if cp < 0x80 then b == [cp]
            else if cp < 0x800 then
              |b| == 2 && 0xc0 <= b[0] < 0xe0 && IsTail(b[1]) && cp == 0x40 * (At(b, 0) - 0xc0) + (At(b, 1) - 0x80)
            else if cp < 0x1_0000 then
              |b| == 3 && 0xe0 <= b[0] < 0xf0 && IsTail(b[1]) && IsTail(b[2])
              && cp == 0x1000 * (At(b, 0) - 0xe0) + 0x40 * (At(b, 1) - 0x80) + (At(b, 2) - 0x80)
            else
              |b| == 4 && 0xf0 <= b[0] < 0xf8 && IsTail(b[1]) && IsTail(b[2]) && IsTail(b[3])
              && cp == 0x4_0000 * (At(b, 0) - 0xf0) + 0x1000 * (At(b, 1) - 0x80) + 0x40 * (At(b, 2) - 0x80) + (At(b, 3) - 0x80)
  {
    Utf8.Digits64(cp);
  }

  predicate IsTail(b: Byte) {
    0x80 <= b < 0xc0
  }

  /** A pair of surrogates is a character beyond the Basic Multilingual Plane (section 2.1 of RFC 2781). */
  lemma PairIsCharacter(high: Unit, low: Unit, rest: Text)
    requires 0xd800 <= high < 0xdc00 <= low < 0xe000
    ensures Utf8.Encode([high, low] + rest)
         == Utf8.EncodePoint(0x1_0000 + 0x400 * (high - 0xd800) + (low - 0xdc00)) + Utf8.Encode(rest)
  {
    assert ([high, low] + rest)[2..] == rest;
  }

  /** Any other unit is its own character, except that a stray surrogate is written as U+FFFD. */
  lemma UnitIsCharacter(u: Unit, rest: Text)
    requires !StartsWithPair([u] + rest)
    ensures Utf8.Encode([u] + rest) == Utf8.EncodePoint(if 0xd800 <= u < 0xe000 then 0xfffd else u) + Utf8.Encode(rest)
  {
    assert ([u] + rest)[1..] == rest;
  }

  // base64url: sections 4 and 5 of RFC 4648

  const ALPHABET := "ABCDEFGHIJKLMNOPQRSTUVWXYZ" + "abcdefghijklmnopqrstuvwxyz" + "0123456789-_"

  lemma LetterIsInAlphabet(n: Base64Url.Sextet)
    ensures |ALPHABET| == 64 && Base64Url.Letter(n) == ALPHABET[n] as int
  {
    if n < 26 {
      Capitals(n);
    } else if n < 52 {
      SmallLetters(n);
    } else {
      DigitsAndMarks(n);
    }
  }

  lemma Capitals(n: Base64Url.Sextet)
    requires n < 26
    ensures Base64Url.Letter(n) == ALPHABET[n] as int
  {
    CapitalAt(n);
  }

  lemma CapitalAt(n: nat)
    requires n < 26
    ensures "ABCDEFGHIJKLMNOPQRSTUVWXYZ"[n] as int == 0x41 + n
  {
  }

  lemma SmallLetters(n: Base64Url.Sextet)
    requires 26 <= n < 52
    ensures Base64Url.Letter(n) == ALPHABET[n] as int
  {
    SmallLetterAt(n - 26);
  }

  lemma SmallLetterAt(n: nat)
    requires n < 26
    ensures "abcdefghijklmnopqrstuvwxyz"[n] as int == 0x61 + n
  {
  }

  lemma DigitsAndMarks(n: Base64Url.Sextet)
    requires n >= 52
    ensures Base64Url.Letter(n) == ALPHABET[n] as int
  {
  }

  /** The text is the letters at these places of the alphabet. */
  predicate Spelled(t: Text, places: seq<Base64Url.Sextet>) {
    |t| == |places| && forall k | 0 <= k < |t| :: t[k] == Base64Url.Letter(places[k])
  }

  /** Three bytes are one number of 24 bits, in four digits to the base of 64; one or two bytes are padded with zero bits. */
  lemma GroupIsNumber(a: Byte, b: Byte, c: Byte) returns (p: Base64Url.Sextet, q: Base64Url.Sextet, r: Base64Url.Sextet, s: Base64Url.Sextet)
    ensures Spelled(Base64Url.Group(a, b, c), [p, q, r, s])
    ensures 0x4_0000 * p + 0x1000 * q + 0x40 * r + s == 0x1_0000 * a + 0x100 * b + c
  {
    p, q, r, s := a / 4, a % 4 * 16 + b / 16, b % 16 * 4 + c / 64, c % 64;
  }

  lemma TwoBytesAreNumber(a: Byte, b: Byte) returns (p: Base64Url.Sextet, q: Base64Url.Sextet, r: Base64Url.Sextet)
    ensures Spelled(Base64Url.Encode([a, b]), [p, q, r]) && 0x1000 * p + 0x40 * q + r == 4 * (0x100 * a + b)
  {
    p, q, r := a / 4, a % 4 * 16 + b / 16, b % 16 * 4;
  }

  lemma OneByteIsNumber(a: Byte) returns (p: Base64Url.Sextet, q: Base64Url.Sextet)
    ensures Spelled(Base64Url.Encode([a]), [p, q]) && 0x40 * p + q == 16 * a
  {
    p, q := a / 4, a % 4 * 16;
  }

  lemma GroupByGroup(a: Byte, b: Byte, c: Byte, rest: seq<Byte>)
    ensures Base64Url.Encode([a, b, c] + rest) == Base64Url.Group(a, b, c) + Base64Url.Encode(rest)
  {
    assert ([a, b, c] + rest)[3..] == rest;
  }

  // Hexadecimal

  const HEX := "0123456789abcdef"

  lemma HexDigitIs(n: nat)
    requires n < 16
    ensures HexDigit(n) == HEX[n] as int
  {
  }

  /** A byte is two digits, the high one first. */
  lemma {:induction false} HexAt(bytes: seq<Byte>, k: nat)
    requires k < |bytes|
    ensures var t := Hex(bytes);
            t[2 * k] == HEX[bytes[k] / 16] as int && t[2 * k + 1] == HEX[bytes[k] % 16] as int
  {
    HexDigitIs(bytes[k] / 16);
    HexDigitIs(bytes[k] % 16);
    if k > 0 {
      HexAt(bytes[1..], k - 1);
    }
  }
}
