/** The string and number syntax of JSON, as `JSON.stringify` writes it and as RFC 8259 (sections 6 and 7) reads it. */
module JsonText {

  /** A UTF-16 code unit; a JavaScript string is a sequence of these, well formed or not. */
  type Unit = u: int | 0 <= u < 0x1_0000

  type Text = seq<Unit>

  datatype Option<+T> = Some(value: T) | None

  /** A value read from the front of a text, and what is left of the text. */
  datatype Parsed<+T> = Parsed(value: T, rest: Text)

  /** The units of an ASCII literal. */
  function Ascii(s: string): (t: Text)
    ensures |t| == |s| && (forall k | 0 <= k < |t| :: t[k] < 0x80)
    ensures forall k | 0 <= k < |s| && s[k] < '\U{80}' :: t[k] == s[k] as int
  {
    seq(|s|, k requires 0 <= k < |s| => if s[k] < '\U{80}' then s[k] as int else 0)
  }

  const QUOTE: Unit := 0x22
  const BACKSLASH: Unit := 0x5c
  const MINUS: Unit := 0x2d
  const ZERO: Unit := 0x30
  const LOWER_U: Unit := 0x75

  // Strings, written

  predicate IsHighSurrogate(u: Unit) {
    0xd800 <= u < 0xdc00
  }

  predicate IsLowSurrogate(u: Unit) {
    0xdc00 <= u < 0xe000
  }

  function HexDigit(n: nat): Unit
    requires n < 16
  {
    if n < 10 then 0x30 + n else 0x57 + n
  }

  /** A backslash, `u`, and four lower-case hexadecimal digits. */
  function UnicodeEscape(u: Unit): (t: Text)
    ensures |t| == 6
  {
    [BACKSLASH, LOWER_U, HexDigit(u / 4096), HexDigit(u / 256 % 16), HexDigit(u / 16 % 16), HexDigit(u % 16)]
  }

  /** The letter of a two-character escape. */
  function ShortEscape(u: Unit): Option<Unit> {
    if u == 0x08 then Some(0x62)
    else if u == 0x09 then Some(0x74)
    else if u == 0x0a then Some(0x6e)
    else if u == 0x0c then Some(0x66)
    else if u == 0x0d then Some(0x72)
    else if u == QUOTE || u == BACKSLASH then Some(u)
    else None
  }

  /** A code unit on its own: a surrogate here has no partner. */
  function Escape(u: Unit): Text {
    match ShortEscape(u)
    case Some(letter) => [BACKSLASH, letter]
    case None => if u < 0x20 || IsHighSurrogate(u) || IsLowSurrogate(u) then UnicodeEscape(u) else [u]
  }

  function Escaped(s: Text): Text {
    if s == [] then []
    else if StartsWithPair(s) then [s[0], s[1]] + Escaped(s[2..])
    else Escape(s[0]) + Escaped(s[1..])
  }

  /** `JSON.stringify` of a string. */
  function Quote(s: Text): Text {
    [QUOTE] + Escaped(s) + [QUOTE]
  }

  // Strings, read

  function HexValue(u: Unit): (n: Option<nat>)
    ensures n.Some? ==> n.value < 16
  {
    if 0x30 <= u <= 0x39 then Some(u - 0x30)
    else if 0x61 <= u <= 0x66 then Some(u - 0x57)
    else if 0x41 <= u <= 0x46 then Some(u - 0x37)
    else None
  }

  function LongUnescape(t: Text): Option<Unit>
    requires |t| >= 6
  {
    match (HexValue(t[2]), HexValue(t[3]), HexValue(t[4]), HexValue(t[5]))
    case (Some(a), Some(b), Some(c), Some(d)) => Some(4096 * a + 256 * b + 16 * c + d)
    case _ => None
  }

  function ShortUnescape(letter: Unit): Option<Unit> {
    if letter == 0x62 then Some(0x08)
    else if letter == 0x74 then Some(0x09)
    else if letter == 0x6e then Some(0x0a)
    else if letter == 0x66 then Some(0x0c)
    else if letter == 0x72 then Some(0x0d)
    else if letter == QUOTE || letter == BACKSLASH || letter == 0x2f then Some(letter)
    else None
  }

  /** The first character of a string's inside. */
  function ReadCharacter(t: Text): (r: Option<Parsed<Unit>>)
    requires t != []
    ensures r.Some? ==> |r.value.rest| < |t|
  {
    if t[0] == BACKSLASH then
      if |t| >= 6 && t[1] == LOWER_U then
        match LongUnescape(t)
        case Some(u) => Some(Parsed(u, t[6..]))
        case None => None
      else if |t| >= 2 then
        match ShortUnescape(t[1])
        case Some(u) => Some(Parsed(u, t[2..]))
        case None => None
      else None
    else if t[0] < 0x20 then None
    else Some(Parsed(t[0], t[1..]))
  }

  /** The rest of a string behind its opening quote. */
  function ReadString(t: Text): (r: Option<Parsed<Text>>)
    ensures r.Some? ==> |r.value.rest| < |t|
    decreases |t|
  {
    if t == [] then None
    else if t[0] == QUOTE then Some(Parsed([], t[1..]))
    else
      match ReadCharacter(t)
      case None => None
      case Some(first) =>
        match ReadString(first.rest)
        case None => None
        case Some(more) => Some(Parsed([first.value] + more.value, more.rest))
  }

  lemma HexRoundTrip(n: nat)
    requires n < 16
    ensures HexValue(HexDigit(n)) == Some(n)
  {
  }

  lemma FourDigits(u: Unit)
    ensures 4096 * (u / 4096) + 256 * (u / 256 % 16) + 16 * (u / 16 % 16) + u % 16 == u
  {
    assert u / 256 == 16 * (u / 4096) + u / 256 % 16;
    assert u / 16 == 16 * (u / 256) + u / 16 % 16;
  }

  lemma ReadsUnicodeEscape(u: Unit, rest: Text)
    ensures ReadCharacter(UnicodeEscape(u) + rest) == Some(Parsed(u, rest))
  {
    var t := UnicodeEscape(u) + rest;
    HexRoundTrip(u / 4096);
    HexRoundTrip(u / 256 % 16);
    HexRoundTrip(u / 16 % 16);
    HexRoundTrip(u % 16);
    FourDigits(u);
    assert t[6..] == rest;
  }

  lemma ReadsEscape(u: Unit, rest: Text)
    ensures Escape(u) != [] && Escape(u)[0] != QUOTE
    ensures ReadCharacter(Escape(u) + rest) == Some(Parsed(u, rest))
  {
    ReadsUnicodeEscape(u, rest);
    var t := Escape(u) + rest;
    match ShortEscape(u) {
      case Some(letter) => assert t[2..] == rest;
      case None => assert |Escape(u)| == 1 ==> t[1..] == rest;
    }
  }

  lemma ReadsOne(t: Text, u: Unit, tail: Text, s: Text, rest: Text)
    requires t != [] && t[0] != QUOTE && ReadCharacter(t) == Some(Parsed(u, tail))
    requires ReadString(tail) == Some(Parsed(s, rest))
    ensures ReadString(t) == Some(Parsed([u] + s, rest))
  {
  }

  lemma ReadsEscapedUnit(u: Unit, tail: Text, s: Text, rest: Text)
    requires ReadString(tail) == Some(Parsed(s, rest))
    ensures ReadString(Escape(u) + tail) == Some(Parsed([u] + s, rest))
  {
    ReadsEscape(u, tail);
    ReadsOne(Escape(u) + tail, u, tail, s, rest);
  }

  lemma ReadsSurrogate(u: Unit, tail: Text, s: Text, rest: Text)
    requires 0xd800 <= u < 0xe000 && ReadString(tail) == Some(Parsed(s, rest))
    ensures ReadString([u] + tail) == Some(Parsed([u] + s, rest))
  {
    assert ([u] + tail)[1..] == tail;
    ReadsOne([u] + tail, u, tail, s, rest);
  }

  lemma ReadsPair(high: Unit, low: Unit, tail: Text, s: Text, rest: Text)
    requires IsHighSurrogate(high) && IsLowSurrogate(low) && ReadString(tail) == Some(Parsed(s, rest))
    ensures ReadString([high, low] + tail) == Some(Parsed([high, low] + s, rest))
  {
    ReadsSurrogate(low, tail, s, rest);
    ReadsSurrogate(high, [low] + tail, [low] + s, rest);
    assert [high, low] + tail == [high] + ([low] + tail);
    assert [high, low] + s == [high] + ([low] + s);
  }

  predicate StartsWithPair(s: Text) {
    |s| >= 2 && IsHighSurrogate(s[0]) && IsLowSurrogate(s[1])
  }

  lemma Reassociate(a: Text, b: Text, c: Text)
    ensures a + b + c == a + (b + c)
  {
  }

  lemma EscapedStep(s: Text)
    requires s != [] && !StartsWithPair(s)
    ensures Escaped(s) == Escape(s[0]) + Escaped(s[1..])
  {
  }

  lemma EscapedPair(s: Text, after: Text)
    requires StartsWithPair(s)
    ensures Escaped(s) + after == [s[0], s[1]] + (Escaped(s[2..]) + after)
    ensures [s[0], s[1]] + s[2..] == s
  {
    Reassociate([s[0], s[1]], Escaped(s[2..]), after);
  }

  lemma EscapedUnit(s: Text, after: Text)
    requires s != [] && !StartsWithPair(s)
    ensures Escaped(s) + after == Escape(s[0]) + (Escaped(s[1..]) + after)
    ensures [s[0]] + s[1..] == s
  {
    EscapedStep(s);
    Reassociate(Escape(s[0]), Escaped(s[1..]), after);
  }

  /** Reading an escaped string gives the string back. */
  lemma {:induction false} ReadsEscaped(s: Text, after: Text, rest: Text)
    requires after != [] && after[0] == QUOTE && after[1..] == rest
    ensures ReadString(Escaped(s) + after) == Some(Parsed(s, rest))
    decreases |s|
  {
    if s == [] {
      assert Escaped(s) + after == after;
    } else if StartsWithPair(s) {
      ReadsEscaped(s[2..], after, rest);
      ReadsPair(s[0], s[1], Escaped(s[2..]) + after, s[2..], rest);
      EscapedPair(s, after);
    } else {
      ReadsEscaped(s[1..], after, rest);
      ReadsEscapedUnit(s[0], Escaped(s[1..]) + after, s[1..], rest);
      EscapedUnit(s, after);
    }
  }

  // Whole numbers

  predicate IsDigit(u: Unit) {
    0x30 <= u <= 0x39
  }

  predicate AllDigits(t: Text) {
    forall k | 0 <= k < |t| :: IsDigit(t[k])
  }

  function Digits(n: nat): (t: Text)
    ensures t != []
  {
    if n < 10 then [ZERO + n] else Digits(n / 10) + [ZERO + n % 10]
  }

  /** How many digits a text starts with. */
  function DigitCount(t: Text): (n: nat)
    ensures n <= |t|
  {
    if t == [] || !IsDigit(t[0]) then 0 else 1 + DigitCount(t[1..])
  }

  function Value(digits: Text): (n: nat)
    requires AllDigits(digits)
  {
    if digits == [] then 0 else 10 * Value(digits[..|digits| - 1]) + (digits[|digits| - 1] - ZERO)
  }

  lemma {:induction false} DigitsAreDigits(n: nat)
    ensures AllDigits(Digits(n))
    ensures n >= 10 ==> Digits(n)[0] != ZERO
    ensures n < 10 ==> |Digits(n)| == 1
  {
    if n >= 10 {
      DigitsAreDigits(n / 10);
    }
  }

  lemma {:induction false} ValueOfDigits(n: nat)
    requires AllDigits(Digits(n))
    ensures Value(Digits(n)) == n
  {
    if n >= 10 {
      DigitsAreDigits(n / 10);
      ValueOfDigits(n / 10);
      assert Digits(n)[..|Digits(n)| - 1] == Digits(n / 10);
    }
  }

  /** A text that does not go on with a digit. */
  predicate NoDigit(rest: Text) {
    rest == [] || !IsDigit(rest[0])
  }

  lemma {:induction false} CountsDigits(digits: Text, rest: Text)
    requires AllDigits(digits) && NoDigit(rest)
    ensures DigitCount(digits + rest) == |digits|
  {
    if digits == [] {
      assert digits + rest == rest;
    } else {
      CountsDigits(digits[1..], rest);
      assert (digits + rest)[1..] == digits[1..] + rest;
    }
  }

  lemma {:induction false} CountedAreDigits(t: Text)
    ensures AllDigits(t[..DigitCount(t)])
  {
    if t != [] && IsDigit(t[0]) {
      CountedAreDigits(t[1..]);
      assert t[..DigitCount(t)] == [t[0]] + t[1..][..DigitCount(t[1..])];
    }
  }

  /** The digits of a number without leading zeros. */
  function ReadDigits(t: Text): (r: Option<Parsed<nat>>)
    ensures r.Some? ==> |r.value.rest| < |t|
  {
    var n := DigitCount(t);
    CountedAreDigits(t);
    if n == 0 || (n > 1 && t[0] == ZERO) then None else Some(Parsed(Value(t[..n]), t[n..]))
  }

  lemma ReadsDigits(n: nat, rest: Text)
    requires NoDigit(rest)
    ensures ReadDigits(Digits(n) + rest) == Some(Parsed(n, rest))
  {
    var digits := Digits(n);
    DigitsAreDigits(n);
    CountsDigits(digits, rest);
    ValueOfDigits(n);
    assert (digits + rest)[..|digits|] == digits && (digits + rest)[|digits|..] == rest;
  }
}
