/** base64url without padding, as `Buffer` writes it and reads it back (section 5 of RFC 4648). */
module Base64Url {

  import opened JsonText
  import opened Bytes

  type Sextet = n: int | 0 <= n < 64

  function Letter(n: Sextet): Unit {
    if n < 26 then 0x41 + n
    else if n < 52 then 0x61 + (n - 26)
    else if n < 62 then 0x30 + (n - 52)
    else if n == 62 then 0x2d
    else 0x5f
  }

  /** `[A-Za-z0-9_-]`. */
  predicate IsLetter(u: Unit) {
    0x41 <= u <= 0x5a || 0x61 <= u <= 0x7a || 0x30 <= u <= 0x39 || u == 0x2d || u == 0x5f
  }

  function SextetOf(u: Unit): Sextet
    requires IsLetter(u)
  {
    if 0x41 <= u <= 0x5a then u - 0x41
    else if 0x61 <= u <= 0x7a then u - 0x61 + 26
    else if 0x30 <= u <= 0x39 then u - 0x30 + 52
    else if u == 0x2d then 62
    else 63
  }

  /** `/^[A-Za-z0-9_-]*$/`. */
  predicate AreLetters(t: Text) {
    forall k | 0 <= k < |t| :: IsLetter(t[k])
  }

  function Encode(b: seq<Byte>): Text {
    if b == [] then []
    else if |b| == 1 then [Letter(b[0] / 4), Letter(b[0] % 4 * 16)]
    else if |b| == 2 then [Letter(b[0] / 4), Letter(b[0] % 4 * 16 + b[1] / 16), Letter(b[1] % 16 * 4)]
    else Group(b[0], b[1], b[2]) + Encode(b[3..])
  }

  /** Three bytes in four letters. */
  function Group(a: Byte, b: Byte, c: Byte): (t: Text)
    ensures |t| == 4 && AreLetters(t)
  {
    [Letter(a / 4), Letter(a % 4 * 16 + b / 16), Letter(b % 16 * 4 + c / 64), Letter(c % 64)]
  }

  function FirstByte(p: Sextet, q: Sextet): Byte {
    p * 4 + q / 16
  }

  function SecondByte(q: Sextet, r: Sextet): Byte {
    q % 16 * 16 + r / 4
  }

  function ThirdByte(r: Sextet, s: Sextet): Byte {
    r % 4 * 64 + s
  }

  /** The bytes of a text in the alphabet; bits that fill no byte are dropped. */
  function Decode(t: Text): seq<Byte>
    requires AreLetters(t)
  {
    if |t| < 2 then []
    else
      var p, q := SextetOf(t[0]), SextetOf(t[1]);
      if |t| == 2 then [FirstByte(p, q)]
      else
        var r := SextetOf(t[2]);
        if |t| == 3 then [FirstByte(p, q), SecondByte(q, r)]
        else [FirstByte(p, q), SecondByte(q, r), ThirdByte(r, SextetOf(t[3]))] + Decode(t[4..])
  }

  lemma LetterRoundTrip(n: Sextet)
    ensures IsLetter(Letter(n)) && SextetOf(Letter(n)) == n
  {
  }

  lemma SplitsBack(a: Byte, b: Byte, c: Byte)
    ensures FirstByte(a / 4, a % 4 * 16 + b / 16) == a
    ensures SecondByte(a % 4 * 16 + b / 16, b % 16 * 4 + c / 64) == b
    ensures ThirdByte(b % 16 * 4 + c / 64, c % 64) == c
  {
  }

  function Length(n: nat): nat {
    (4 * n + 2) / 3
  }

  lemma LengthStep(n: nat)
    requires n >= 3
    ensures Length(n) == 4 + Length(n - 3)
  {
  }

  lemma {:induction false} EncodedIsLetters(b: seq<Byte>)
    ensures AreLetters(Encode(b)) && |Encode(b)| == Length(|b|)
  {
    if |b| >= 3 {
      EncodedIsLetters(b[3..]);
      LengthStep(|b|);
    }
  }

  /** The first four letters give three bytes. */
  lemma DecodeUnfolds(t: Text)
    requires |t| >= 4 && AreLetters(t)
    ensures Decode(t) == [FirstByte(SextetOf(t[0]), SextetOf(t[1])), SecondByte(SextetOf(t[1]), SextetOf(t[2])),
                          ThirdByte(SextetOf(t[2]), SextetOf(t[3]))] + Decode(t[4..])
  {
  }

  lemma DecodesLetters(p: Sextet, q: Sextet, r: Sextet, s: Sextet, rest: Text)
    requires AreLetters(rest)
    ensures var t := [Letter(p), Letter(q), Letter(r), Letter(s)] + rest;
            AreLetters(t) && Decode(t) == [FirstByte(p, q), SecondByte(q, r), ThirdByte(r, s)] + Decode(rest)
  {
    var t := [Letter(p), Letter(q), Letter(r), Letter(s)] + rest;
    LetterRoundTrip(p);
    LetterRoundTrip(q);
    LetterRoundTrip(r);
    LetterRoundTrip(s);
    assert t[0] == Letter(p) && t[1] == Letter(q) && t[2] == Letter(r) && t[3] == Letter(s);
    assert t[4..] == rest;
    DecodeUnfolds(t);
  }

  lemma DecodesGroup(a: Byte, b: Byte, c: Byte, rest: Text)
    requires AreLetters(rest)
    ensures Decode(Group(a, b, c) + rest) == [a, b, c] + Decode(rest)
  {
    SplitsBack(a, b, c);
    DecodesLetters(a / 4, a % 4 * 16 + b / 16, b % 16 * 4 + c / 64, c % 64, rest);
  }

  lemma DecodesTwo(p: Sextet, q: Sextet)
    ensures AreLetters([Letter(p), Letter(q)]) && Decode([Letter(p), Letter(q)]) == [FirstByte(p, q)]
  {
    LetterRoundTrip(p);
    LetterRoundTrip(q);
  }

  lemma DecodesThree(p: Sextet, q: Sextet, r: Sextet)
    ensures AreLetters([Letter(p), Letter(q), Letter(r)])
    ensures Decode([Letter(p), Letter(q), Letter(r)]) == [FirstByte(p, q), SecondByte(q, r)]
  {
    LetterRoundTrip(p);
    LetterRoundTrip(q);
    LetterRoundTrip(r);
  }

  lemma DecodesOneByte(a: Byte)
    ensures AreLetters(Encode([a])) && Decode(Encode([a])) == [a]
  {
    DecodesTwo(a / 4, a % 4 * 16);
    SplitsBack(a, 0, 0);
  }

  lemma DecodesTwoBytes(a: Byte, b: Byte)
    ensures AreLetters(Encode([a, b])) && Decode(Encode([a, b])) == [a, b]
  {
    DecodesThree(a / 4, a % 4 * 16 + b / 16, b % 16 * 4);
    SplitsBack(a, b, 0);
  }

  /** Every sequence of bytes reads back from its text, which has four letters for three bytes. */
  lemma {:induction false} DecodesEncoded(b: seq<Byte>)
    ensures AreLetters(Encode(b)) && |Encode(b)| == Length(|b|)
    ensures Decode(Encode(b)) == b
  {
    EncodedIsLetters(b);
    if |b| == 1 {
      DecodesOneByte(b[0]);
      assert b == [b[0]];
    } else if |b| == 2 {
      DecodesTwoBytes(b[0], b[1]);
      assert b == [b[0], b[1]];
    } else if |b| >= 3 {
      DecodesEncoded(b[3..]);
      DecodesGroup(b[0], b[1], b[2], Encode(b[3..]));
      assert b == [b[0], b[1], b[2]] + b[3..];
    }
  }
}
