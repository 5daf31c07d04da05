/** UTF-8 as `Buffer` writes and reads it (section 3 of RFC 3629), over JavaScript strings. */
module Utf8 {

  import opened JsonText
  import opened Bytes

  type CodePoint = cp: int | 0 <= cp < 0x11_0000

  const REPLACEMENT: CodePoint := 0xfffd

  predicate IsSurrogate(u: int) {
    0xd800 <= u < 0xe000
  }

  // Written

  /** The units of a character: one, or a surrogate pair. */
  function Units(cp: CodePoint): (t: Text)
    ensures 1 <= |t| <= 2
  {
    if cp < 0x1_0000 then [cp] else [0xd800 + (cp - 0x1_0000) / 0x400, 0xdc00 + (cp - 0x1_0000) % 0x400]
  }

  /** The first character of a text; a surrogate without its partner is replaced. */
  function FirstPoint(t: Text): CodePoint
    requires t != []
  {
    if StartsWithPair(t) then 0x1_0000 + (t[0] - 0xd800) * 0x400 + (t[1] - 0xdc00)
    else if IsSurrogate(t[0]) then REPLACEMENT
    else t[0]
  }

  function FirstLength(t: Text): (n: nat)
    requires t != []
    ensures 1 <= n <= |t|
  {
    if StartsWithPair(t) then 2 else 1
  }

  function EncodePoint(cp: CodePoint): (bytes: seq<Byte>)
    ensures 1 <= |bytes| <= 4
  {
    if cp < 0x80 then [cp]
    else if cp < 0x800 then [0xc0 + cp / 0x40, 0x80 + cp % 0x40]
    else if cp < 0x1_0000 then [0xe0 + cp / 0x1000, 0x80 + cp / 0x40 % 0x40, 0x80 + cp % 0x40]
    else [0xf0 + cp / 0x4_0000, 0x80 + cp / 0x1000 % 0x40, 0x80 + cp / 0x40 % 0x40, 0x80 + cp % 0x40]
  }

  /** `Buffer.from(t)`. */
  function Encode(t: Text): seq<Byte> {
    if t == [] then [] else EncodePoint(FirstPoint(t)) + Encode(t[FirstLength(t)..])
  }

  // Read

  /** What a lead byte announces: further bytes, the range of the next one, and its own bits. */
  datatype Lead = Lead(more: nat, lower: int, upper: int, bits: nat)

  function LeadOf(b: Byte): (r: Option<Lead>)
    ensures r.Some? ==> InRange(r.value)
  {
    if b < 0x80 then Some(Lead(0, 0, 0, b))
    else if 0xc2 <= b <= 0xdf then Some(Lead(1, 0x80, 0xbf, b - 0xc0))
    else if 0xe0 <= b <= 0xef then
      Some(Lead(2, if b == 0xe0 then 0xa0 else 0x80, if b == 0xed then 0x9f else 0xbf, b - 0xe0))
    else if 0xf0 <= b <= 0xf4 then
      Some(Lead(3, if b == 0xf0 then 0x90 else 0x80, if b == 0xf4 then 0x8f else 0xbf, b - 0xf0))
    else None
  }

  /** A character from the front of some bytes, and how many bytes it took. */
  datatype Taken = Taken(cp: CodePoint, n: nat)

  /** Whatever bytes follow, the character is in range. */
  predicate InRange(lead: Lead) {
    match lead.more
    case 0 => lead.bits < 0x11_0000
    case 1 => lead.bits * 0x40 + (lead.upper - 0x80) < 0x11_0000
    case 2 => lead.bits * 0x40 + (lead.upper - 0x80) < 0x4400
    case 3 => lead.bits * 0x40 + (lead.upper - 0x80) < 0x110
    case _ => false
  }

  /** The bytes behind a lead byte; at the first byte out of range, what came before is replaced. */
  function Continue(bytes: seq<Byte>, at: nat, lead: Lead): (r: Taken)
    requires at <= |bytes| && InRange(lead)
    ensures at <= r.n <= |bytes|
    decreases lead.more
  {
    if lead.more == 0 then Taken(lead.bits, at)
    else if at < |bytes| && lead.lower <= bytes[at] <= lead.upper && 0x80 <= bytes[at] then
      Continue(bytes, at + 1, Lead(lead.more - 1, 0x80, 0xbf, lead.bits * 0x40 + (bytes[at] - 0x80)))
    else Taken(REPLACEMENT, at)
  }

  function DecodeFirst(bytes: seq<Byte>): (r: Taken)
    requires bytes != []
    ensures 1 <= r.n <= |bytes|
  {
    match LeadOf(bytes[0])
    case None => Taken(REPLACEMENT, 1)
    case Some(lead) => Continue(bytes, 1, lead)
  }

  /** `toString('utf8')`. */
  function Decode(bytes: seq<Byte>): Text {
    if bytes == [] then []
    else
      Units(DecodeFirst(bytes).cp) + Decode(bytes[DecodeFirst(bytes).n..])
  }

  // There and back

  /** No surrogate without its partner. */
  predicate WellFormed(t: Text) {
    t == [] || ((StartsWithPair(t) || !IsSurrogate(t[0])) && WellFormed(t[FirstLength(t)..]))
  }

  /** Each surrogate without its partner replaced. */
  function Repaired(t: Text): Text {
    if t == [] then [] else Units(FirstPoint(t)) + Repaired(t[FirstLength(t)..])
  }

  lemma ContinuesOne(bytes: seq<Byte>, at: nat, lead: Lead)
    requires at + 1 <= |bytes| && InRange(lead) && lead.more == 1
    requires lead.lower <= bytes[at] <= lead.upper && 0x80 <= bytes[at]
    ensures var r := Continue(bytes, at, lead);
            r.n == at + 1 && r.cp == lead.bits * 0x40 + (bytes[at] - 0x80)
  {
    var next := Lead(0, 0x80, 0xbf, lead.bits * 0x40 + (bytes[at] - 0x80));
    assert Continue(bytes, at, lead) == Continue(bytes, at + 1, next);
  }

  lemma ContinuesTwo(bytes: seq<Byte>, at: nat, lead: Lead)
    requires at + 2 <= |bytes| && InRange(lead) && lead.more == 2
    requires lead.lower <= bytes[at] <= lead.upper && 0x80 <= bytes[at] && 0x80 <= bytes[at + 1] <= 0xbf
    ensures var r := Continue(bytes, at, lead);
            r.n == at + 2 && r.cp == (lead.bits * 0x40 + (bytes[at] - 0x80)) * 0x40 + (bytes[at + 1] - 0x80)
  {
    var next := Lead(1, 0x80, 0xbf, lead.bits * 0x40 + (bytes[at] - 0x80));
    assert Continue(bytes, at, lead) == Continue(bytes, at + 1, next);
    ContinuesOne(bytes, at + 1, next);
  }

  lemma ContinuesThree(bytes: seq<Byte>, at: nat, lead: Lead)
    requires at + 3 <= |bytes| && InRange(lead) && lead.more == 3
    requires lead.lower <= bytes[at] <= lead.upper && 0x80 <= bytes[at]
    requires 0x80 <= bytes[at + 1] <= 0xbf && 0x80 <= bytes[at + 2] <= 0xbf
    ensures var r := Continue(bytes, at, lead);
            && r.n == at + 3
            && r.cp == ((lead.bits * 0x40 + (bytes[at] - 0x80)) * 0x40 + (bytes[at + 1] - 0x80)) * 0x40 + (bytes[at + 2] - 0x80)
  {
    var next := Lead(2, 0x80, 0xbf, lead.bits * 0x40 + (bytes[at] - 0x80));
    assert Continue(bytes, at, lead) == Continue(bytes, at + 1, next);
    ContinuesTwo(bytes, at + 1, next);
  }

  lemma DecodesTwo(a: nat, b: nat, rest: seq<Byte>)
    requires 2 <= a < 0x20 && b < 0x40
    ensures var r := DecodeFirst([0xc0 + a, 0x80 + b] + rest); r.n == 2 && r.cp == a * 0x40 + b
  {
    ContinuesOne([0xc0 + a, 0x80 + b] + rest, 1, LeadOf(0xc0 + a).value);
  }

  lemma DecodesThree(a: nat, b: nat, c: nat, rest: seq<Byte>)
    requires a < 0x10 && b < 0x40 && c < 0x40 && (a == 0 ==> b >= 0x20) && (a == 0xd ==> b < 0x20)
    ensures var r := DecodeFirst([0xe0 + a, 0x80 + b, 0x80 + c] + rest);
            r.n == 3 && r.cp == (a * 0x40 + b) * 0x40 + c
  {
    ContinuesTwo([0xe0 + a, 0x80 + b, 0x80 + c] + rest, 1, LeadOf(0xe0 + a).value);
  }

  lemma DecodesFour(a: nat, b: nat, c: nat, d: nat, rest: seq<Byte>)
    requires a <= 4 && b < 0x40 && c < 0x40 && d < 0x40 && (a == 0 ==> b >= 0x10) && (a == 4 ==> b < 0x10)
    ensures var r := DecodeFirst([0xf0 + a, 0x80 + b, 0x80 + c, 0x80 + d] + rest);
            r.n == 4 && r.cp == ((a * 0x40 + b) * 0x40 + c) * 0x40 + d
  {
    ContinuesThree([0xf0 + a, 0x80 + b, 0x80 + c, 0x80 + d] + rest, 1, LeadOf(0xf0 + a).value);
  }

  lemma Digits64(cp: CodePoint)
    ensures cp == cp / 0x40 * 0x40 + cp % 0x40
    ensures cp / 0x40 == cp / 0x1000 * 0x40 + cp / 0x40 % 0x40
    ensures cp / 0x1000 == cp / 0x4_0000 * 0x40 + cp / 0x1000 % 0x40
  {
    assert cp / 0x1000 == cp / 0x40 / 0x40 && cp / 0x4_0000 == cp / 0x1000 / 0x40;
  }

  lemma DecodesPoint(cp: CodePoint, rest: seq<Byte>)
    requires !IsSurrogate(cp)
    ensures DecodeFirst(EncodePoint(cp) + rest) == Taken(cp, |EncodePoint(cp)|)
  {
    Digits64(cp);
    if 0x80 <= cp < 0x800 {
      DecodesTwo(cp / 0x40, cp % 0x40, rest);
    } else if 0x800 <= cp < 0x1_0000 {
      DecodesThree(cp / 0x1000, cp / 0x40 % 0x40, cp % 0x40, rest);
    } else if cp >= 0x1_0000 {
      DecodesFour(cp / 0x4_0000, cp / 0x1000 % 0x40, cp / 0x40 % 0x40, cp % 0x40, rest);
    }
  }

  lemma FirstIsNoSurrogate(t: Text)
    requires t != []
    ensures !IsSurrogate(FirstPoint(t))
    ensures StartsWithPair(t) || !IsSurrogate(t[0]) <==> Units(FirstPoint(t)) == t[..FirstLength(t)]
  {
  }

  /** Reading written text gives it back with its stray surrogates replaced. */
  lemma {:induction false} DecodesEncoded(t: Text)
    ensures Decode(Encode(t)) == Repaired(t)
  {
    if t != [] {
      var cp, rest := FirstPoint(t), Encode(t[FirstLength(t)..]);
      FirstIsNoSurrogate(t);
      DecodesPoint(cp, rest);
      DecodesEncoded(t[FirstLength(t)..]);
      assert (EncodePoint(cp) + rest)[|EncodePoint(cp)|..] == rest;
    }
  }

  lemma {:induction false} RepairedIffWellFormed(t: Text)
    ensures Repaired(t) == t <==> WellFormed(t)
    ensures |Repaired(t)| == |t|
  {
    if t != [] {
      var n, rest := FirstLength(t), t[FirstLength(t)..];
      RepairedIffWellFormed(rest);
      FirstIsNoSurrogate(t);
      var first := Units(FirstPoint(t));
      assert t == t[..n] + rest;
      assert |first| == n;
      assert (first + Repaired(rest))[..n] == first && (first + Repaired(rest))[n..] == Repaired(rest);
    }
  }

  /** Text survives UTF-8 exactly when every surrogate in it has its partner. */
  lemma SurvivesIffWellFormed(t: Text)
    ensures Decode(Encode(t)) == t <==> WellFormed(t)
  {
    DecodesEncoded(t);
    RepairedIffWellFormed(t);
  }

  // Well-formed text

  lemma {:induction false} WellFormedAppend(a: Text, b: Text)
    requires WellFormed(a) && WellFormed(b)
    ensures WellFormed(a + b)
  {
    if a == [] {
      assert a + b == b;
    } else {
      var n := FirstLength(a);
      WellFormedAppend(a[n..], b);
      assert (a + b)[n..] == a[n..] + b && (a + b)[0] == a[0];
      assert StartsWithPair(a) ==> (a + b)[1] == a[1];
    }
  }

  lemma {:induction false} NoSurrogates(t: Text)
    requires forall k | 0 <= k < |t| :: !IsSurrogate(t[k])
    ensures WellFormed(t)
  {
    if t != [] {
      NoSurrogates(t[1..]);
    }
  }

  /** ASCII text takes a byte for each character. */
  lemma {:induction false} AsciiLength(t: Text)
    requires forall k | 0 <= k < |t| :: t[k] < 0x80
    ensures |Encode(t)| == |t|
  {
    if t != [] {
      AsciiLength(t[1..]);
    }
  }

  /** Every unit takes at least a byte. */
  lemma {:induction false} AtLeastAByteEach(t: Text)
    ensures |Encode(t)| >= |t|
  {
    if t != [] {
      AtLeastAByteEach(t[FirstLength(t)..]);
    }
  }
}
