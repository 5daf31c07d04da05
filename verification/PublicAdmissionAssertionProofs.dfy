/** Signed assertions: what comes back from their text, when they verify, and how long they are. */
module PublicAdmissionAssertionProofs {

  import Calendar
  import CounterRows
  import Decimals = Text
  import opened JsonText
  import opened CanonicalJson
  import opened CanonicalJsonOrder
  import opened Bytes
  import opened JsonBytes
  import Utf8
  import Base64Url
  import opened PublicAdmissionAssertion

  // Property names

  /** The place of a name in `NAMES`, from its length and its third letter. */
  function PlaceOf(t: Text): nat {
    if |t| < 3 then 99
    else if |t| == 9 then if t[2] == 0x72 then SURFACE else EXPIRES_AT
    else if |t| == 14 then if t[2] == 0x73 then INSTALLATION else IDEMPOTENCY_KEY
    else if |t| == 5 then if t[2] == 0x75 then ROUTE else EPOCH
    else if |t| == 6 then if t[2] == 0x74 then METHOD else ISSUER
    else if |t| == 13 then REQUEST_DIGEST
    else if |t| == 10 then KEY_VERSION
    else if |t| == 8 then if t[2] == 0x64 then AUDIENCE else ISSUED_AT
    else if t[2] == 0x72 then VERSION
    else if t[2] == 0x74 then NETWORK
    else VISITOR
  }

  lemma PlaceOfName(k: nat)
    requires k < |NAMES|
    ensures PlaceOf(Ascii(NAMES[k])) == k
  {
    var t := Ascii(NAMES[k]);
    assert t[2] == NAMES[k][2] as int;
  }

  lemma NamesDiffer(j: nat, k: nat)
    requires j < |NAMES| && k < |NAMES| && j != k
    ensures Ascii(NAMES[j]) != Ascii(NAMES[k])
  {
    PlaceOfName(j);
    PlaceOfName(k);
  }

  lemma {:induction false} LookupFinds(fields: seq<Field>, k: nat)
    requires k < |fields| && forall j | k < j < |fields| :: fields[j].key != fields[k].key
    ensures Lookup(fields, fields[k].key) == Some(fields[k].value)
  {
    if k < |fields| - 1 {
      LookupFinds(fields[..|fields| - 1], k);
    }
  }

  lemma {:induction false} LookupFails(fields: seq<Field>, key: Text)
    requires forall j | 0 <= j < |fields| :: fields[j].key != key
    ensures Lookup(fields, key) == None
  {
    if fields != [] {
      LookupFails(fields[..|fields| - 1], key);
    }
  }

  /** A property that was written is found again; one that was not is absent. */
  lemma PropertyIs(values: seq<Json>, k: nat)
    requires |values| <= |NAMES| && k < |NAMES|
    ensures Property(Fields(values), k) == if k < |values| then Some(values[k]) else None
  {
    var fields := Fields(values);
    forall j | 0 <= j < |fields| && j != k
      ensures fields[j].key != Ascii(NAMES[k])
    {
      NamesDiffer(j, k);
    }
    if k < |values| {
      LookupFinds(fields, k);
    } else {
      LookupFails(fields, Ascii(NAMES[k]));
    }
  }

  // The text of an assertion

  lemma AssertionIsPlain(a: Assertion)
    ensures Plain(AssertionJson(a))
  {
    var values := Values(a);
    assert forall k | 0 <= k < |values| :: Plain(values[k]);
  }

  lemma PrintIsNotEmpty(fields: seq<Field>)
    ensures Utf8.Encode(Print(Obj(fields))) != []
  {
    Utf8.AtLeastAByteEach(Print(Obj(fields)));
  }

  /** The text is in the alphabet of base64url and parses back to the object. */
  lemma EncodedParses(v: Json)
    requires Plain(v) && v.Obj?
    ensures Encoded(v) != [] && Base64Url.AreLetters(Encoded(v))
    ensures |Encoded(v)| == Base64Url.Length(|Utf8.Encode(Print(v))|)
    ensures Parse(Encoded(v)) == Some(v)
  {
    PrintIsNotEmpty(v.fields);
    Base64Url.DecodesEncoded(Utf8.Encode(Print(v)));
    BytesReadBack(v);
  }

  // Tokens

  lemma {:induction false} DotIsFound(t: Text, rest: Text)
    requires Base64Url.AreLetters(t)
    ensures DotAt(t + [DOT] + rest) == |t|
  {
    if t != [] {
      DotIsFound(t[1..], rest);
      assert (t + [DOT] + rest)[1..] == t[1..] + [DOT] + rest;
    }
  }

  lemma TokenSplits(encoded: Text, supplied: Text)
    requires encoded != [] && Base64Url.AreLetters(encoded) && supplied != [] && Base64Url.AreLetters(supplied)
    ensures TwoParts(encoded + [DOT] + supplied) == Some((encoded, supplied))
  {
    DotIsFound(encoded, supplied);
    var token := encoded + [DOT] + supplied;
    assert token[..|encoded|] == encoded && token[|encoded| + 1..] == supplied;
  }

  lemma MacText(mac: Mac)
    ensures Base64Url.AreLetters(Base64Url.Encode(mac)) && |Base64Url.Encode(mac)| == 43
    ensures Base64Url.Decode(Base64Url.Encode(mac)) == mac
  {
    Base64Url.DecodesEncoded(mac);
  }

  // What the verifier reads in a signed assertion

  /** What is known of an assertion that is signed. */
  predicate Signable(a: Assertion) {
    && ValidBinding(a.binding) && IsDigest(a.network) && (a.visitor.Some? ==> IsDigest(a.visitor.value))
    && Base64Url.AreLetters(a.keyVersion) && 1 <= |a.keyVersion| <= 32 && |a.epoch| == 10
  }

  lemma NamesAreNames(values: seq<Json>)
    requires |values| <= |NAMES|
    ensures forall k | 0 <= k < |values| :: IsName(Fields(values)[k].key)
  {
    forall k | 0 <= k < |values|
      ensures IsName(Fields(values)[k].key)
    {
      assert Fields(values)[k].key == Ascii(NAMES[k]);
    }
  }

  lemma BindingReadsBack(a: Assertion, fields: seq<Field>)
    requires fields == AssertionJson(a).fields
    ensures Property(fields, SURFACE) == Some(Str(a.binding.surfaceId))
    ensures Property(fields, INSTALLATION) == Some(Str(a.binding.installationId))
    ensures Property(fields, ROUTE) == Some(Str(a.binding.route))
    ensures Property(fields, METHOD) == Some(Str(a.binding.method_))
    ensures Property(fields, IDEMPOTENCY_KEY) == Some(Str(a.binding.idempotencyKey))
    ensures Property(fields, REQUEST_DIGEST) == Some(Str(a.binding.requestDigest))
  {
    PropertyIs(Values(a), SURFACE);
    PropertyIs(Values(a), INSTALLATION);
    PropertyIs(Values(a), ROUTE);
    PropertyIs(Values(a), METHOD);
    PropertyIs(Values(a), IDEMPOTENCY_KEY);
    PropertyIs(Values(a), REQUEST_DIGEST);
  }

  lemma HeaderReadsBack(a: Assertion, fields: seq<Field>)
    requires fields == AssertionJson(a).fields
    ensures Property(fields, VERSION) == Some(Num(1))
    ensures Property(fields, KEY_VERSION) == Some(Str(a.keyVersion))
    ensures Property(fields, ISSUER) == Some(Str(Ascii("noodle-portal")))
    ensures Property(fields, AUDIENCE) == Some(Str(Ascii("noodle-public-admission")))
  {
    PropertyIs(Values(a), VERSION);
    PropertyIs(Values(a), KEY_VERSION);
    PropertyIs(Values(a), ISSUER);
    PropertyIs(Values(a), AUDIENCE);
  }

  function VisitorJson(a: Assertion): Option<Json> {
    if a.visitor.Some? then Some(Str(a.visitor.value)) else None
  }

  lemma RestReadsBack(a: Assertion, fields: seq<Field>)
    requires fields == AssertionJson(a).fields
    ensures Property(fields, EPOCH) == Some(Str(a.epoch))
    ensures Property(fields, ISSUED_AT) == Some(Num(a.issuedAt))
    ensures Property(fields, EXPIRES_AT) == Some(Num(a.expiresAt))
    ensures Property(fields, NETWORK) == Some(Str(a.network))
    ensures Property(fields, VISITOR) == VisitorJson(a)
  {
    PropertyIs(Values(a), EPOCH);
    PropertyIs(Values(a), ISSUED_AT);
    PropertyIs(Values(a), EXPIRES_AT);
    PropertyIs(Values(a), NETWORK);
    PropertyIs(Values(a), VISITOR);
  }

  lemma SignedIsAssertion(a: Assertion)
    requires Signable(a)
    ensures IsAssertion(AssertionJson(a))
  {
    var fields := AssertionJson(a).fields;
    BindingReadsBack(a, fields);
    HeaderReadsBack(a, fields);
    RestReadsBack(a, fields);
    NamesAreNames(Values(a));
  }

  lemma MatchesIff(a: Assertion, expected: Binding)
    ensures Matches(AssertionJson(a).fields, expected) <==> a.binding == expected
  {
    BindingReadsBack(a, AssertionJson(a).fields);
  }

  /** What the checks behind `isAssertion` make of a signed assertion. */
  lemma VerifiesParts(hmac: Hmac, a: Assertion, encoded: Text, key: Text, expected: Binding, keys: SigningKeys, now: Calendar.Time)
    requires IsAssertion(AssertionJson(a)) && SigningKey(keys, a.keyVersion) == Some(key)
    requires Base64Url.AreLetters(Base64Url.Encode(hmac(key, encoded)))
    ensures VerifyAssertion(hmac, encoded, Base64Url.Encode(hmac(key, encoded)), AssertionJson(a).fields, expected, keys, now)
         == if InTime(a.epoch, a.issuedAt, a.expiresAt, now) && a.binding == expected
            then Some(Attribution(a.network, VisitorJson(a))) else None
  {
    HeaderReadsBack(a, AssertionJson(a).fields);
    RestReadsBack(a, AssertionJson(a).fields);
    MatchesIff(a, expected);
    MacText(hmac(key, encoded));
  }

  lemma VerifiesSigned(hmac: Hmac, a: Assertion, key: Text, token: Text, expected: Binding, keys: SigningKeys, now: Calendar.Time)
    requires Signable(a) && SigningKey(keys, a.keyVersion) == Some(key) && ValidBinding(expected)
    requires var encoded := Encoded(AssertionJson(a)); token == encoded + [DOT] + Base64Url.Encode(hmac(key, encoded))
    ensures Verify(hmac, token, expected, keys, now)
         == if |token| <= MAX_TOKEN_CHARS && InTime(a.epoch, a.issuedAt, a.expiresAt, now) && a.binding == expected
            then Some(Attribution(a.network, VisitorJson(a))) else None
  {
    var encoded := Encoded(AssertionJson(a));
    AssertionIsPlain(a);
    EncodedParses(AssertionJson(a));
    MacText(hmac(key, encoded));
    TokenSplits(encoded, Base64Url.Encode(hmac(key, encoded)));
    SignedIsAssertion(a);
    VerifiesParts(hmac, a, encoded, key, expected, keys, now);
  }

  // Time

  lemma DayTextsAgreeIff(s: string, t: string)
    requires (forall c <- s :: '0' <= c <= '9' || c == '-') && forall c <- t :: '0' <= c <= '9' || c == '-'
    ensures Ascii(s) == Ascii(t) <==> s == t
  {
    if Ascii(s) == Ascii(t) {
      forall k | 0 <= k < |s|
        ensures s[k] == t[k]
      {
        assert s[k] in s && t[k] in t;
        assert Ascii(s)[k] == Ascii(t)[k];
      }
    }
  }

  lemma EpochsAgreeIff(t: Calendar.Time, u: Calendar.Time)
    ensures Epoch(t) == Epoch(u) <==> Calendar.DayOf(t) == Calendar.DayOf(u)
  {
    CounterRows.DayKeyCharacters(t);
    CounterRows.DayKeyCharacters(u);
    DayTextsAgreeIff(CounterRows.DayKey(t), CounterRows.DayKey(u));
    CounterRows.DayKeyOrder(t, u);
  }

  lemma SecondOfDay(t: Calendar.Time)
    ensures EpochOf(Seconds(t)) == Some(Epoch(t))
  {
    var u := Seconds(t) * Calendar.MS_PER_SECOND;
    assert u / Calendar.MS_PER_DAY == t / Calendar.MS_PER_DAY;
    EpochsAgreeIff(u, t);
  }

  /** The time window, to the second. */
  lemma WindowIff(signed: Calendar.Time, now: Calendar.Time)
    ensures InTime(Epoch(signed), Seconds(signed), Seconds(signed) + TTL_SECONDS, now)
       <==> Calendar.DayOf(signed) == Calendar.DayOf(now) && -5 <= Seconds(now) - Seconds(signed) <= 65
  {
    SecondOfDay(signed);
    EpochsAgreeIff(signed, now);
  }

  /** Signing gives a token made from the assertion and its keyed digest. */
  lemma SignedParts(hmac: Hmac, b: Binding, address: Text, visitor: Option<Text>, keys: SigningKeys, now: Calendar.Time, token: Text)
    requires Sign(hmac, b, Some(address), visitor, keys, now) == Some(token)
    ensures var a := AssertionFor(hmac, b, address, visitor, keys, now);
            var encoded := Encoded(AssertionJson(a));
            && Signable(a) && SigningKey(keys, a.keyVersion).Some?
            && token == encoded + [DOT] + Base64Url.Encode(hmac(SigningKey(keys, a.keyVersion).value, encoded))
  {
  }

  /**
   * A signed token verifies at another time, against keys that still hold its signing key, exactly when
   * it is not too long, the binding is the one it was signed for, both times are on one UTC day, and the
   * later second is at most 5 before and at most 65 after the earlier one; and then it gives back the
   * signed pseudonyms.
   */
  lemma SignedVerifiesIff(hmac: Hmac, b: Binding, address: Text, visitor: Option<Text>, keys: SigningKeys, signed: Calendar.Time,
                          token: Text, expected: Binding, later: SigningKeys, now: Calendar.Time)
    requires Sign(hmac, b, Some(address), visitor, keys, signed) == Some(token)
    requires SigningKey(later, keys.activeVersion) == SigningKey(keys, keys.activeVersion)
    ensures Verify(hmac, token, expected, later, now)
         == (var a := AssertionFor(hmac, b, address, visitor, keys, signed);
             if && |token| <= MAX_TOKEN_CHARS && b == expected
                && Calendar.DayOf(signed) == Calendar.DayOf(now) && -5 <= Seconds(now) - Seconds(signed) <= 65
             then Some(Attribution(a.network, VisitorJson(a))) else None)
  {
    var a := AssertionFor(hmac, b, address, visitor, keys, signed);
    SignedParts(hmac, b, address, visitor, keys, signed, token);
    WindowIff(signed, now);
    if ValidBinding(expected) {
      VerifiesSigned(hmac, a, SigningKey(keys, keys.activeVersion).value, token, expected, later, now);
    }
  }

  // How long a token is

  /** The limit on tokens is a limit of 3,039 on the bytes of the JSON text. */
  lemma TokenLength(hmac: Hmac, key: Text, v: Json, token: Text)
    requires Plain(v) && v.Obj? && token == Encoded(v) + [DOT] + Base64Url.Encode(hmac(key, Encoded(v)))
    ensures |token| <= MAX_TOKEN_CHARS <==> |Utf8.Encode(Print(v))| <= 3039
  {
    EncodedParses(v);
    MacText(hmac(key, Encoded(v)));
  }

  // Plain fields

  /** A value whose text is ASCII and at most `n` long. */
  predicate Fits(v: Json, n: nat) {
    |Print(v)| <= n && IsAscii(Print(v))
  }

  lemma PlainStringFits(s: Text)
    requires IsPlainText(s)
    ensures Fits(Str(s), |s| + 2)
  {
    PlainIsVerbatim(s);
  }

  lemma {:induction false} DigitsFit(n: nat, k: nat)
    requires n < Decimals.Pow10(k) && k >= 1
    ensures |Digits(n)| <= k
  {
    if n >= 10 {
      DigitsFit(n / 10, k - 1);
    }
  }

  lemma TenToThe16()
    ensures Decimals.Pow10(16) == 10_000_000_000_000_000
  {
    assert Decimals.Pow10(4) == 10000;
    assert Decimals.Pow10(8) == 10000 * Decimals.Pow10(4);
    assert Decimals.Pow10(12) == 10000 * Decimals.Pow10(8);
    assert Decimals.Pow10(16) == 10000 * Decimals.Pow10(12);
  }

  lemma NumberFits(n: SafeInt)
    ensures Fits(Num(n), 17)
  {
    var m := if n < 0 then -n else n;
    TenToThe16();
    DigitsFit(m, 16);
    DigitsAreDigits(m);
  }

  lemma LettersArePlain(t: Text)
    requires Base64Url.AreLetters(t) || (forall k | 0 <= k < |t| :: IsHexDigit(t[k]))
    ensures IsPlainText(t)
  {
  }

  lemma IssuerFits()
    ensures Fits(Str(Ascii("noodle-portal")), 66)
  {
    PlainStringFits(Ascii("noodle-portal"));
  }

  lemma AudienceFits()
    ensures Fits(Str(Ascii("noodle-public-admission")), 66)
  {
    PlainStringFits(Ascii("noodle-public-admission"));
  }

  lemma PostFits()
    ensures Fits(Str(Ascii("POST")), 66)
  {
    PlainStringFits(Ascii("POST"));
  }

  lemma EpochFits(t: Calendar.Time)
    ensures Fits(Str(Epoch(t)), 66)
  {
    CounterRows.DayKeyCharacters(t);
    DayTextFits(CounterRows.DayKey(t));
  }

  lemma DayTextFits(s: string)
    requires |s| == 10 && forall c <- s :: '0' <= c <= '9' || c == '-'
    ensures Fits(Str(Ascii(s)), 66)
  {
    forall k | 0 <= k < |s|
      ensures 0x2d <= Ascii(s)[k] <= 0x39
    {
      assert s[k] in s;
    }
    PlainStringFits(Ascii(s));
  }

  predicate PlainBinding(b: Binding) {
    IsPlainText(b.surfaceId) && IsPlainText(b.installationId) && IsPlainText(b.route) && IsPlainText(b.idempotencyKey)
  }

  /** The most characters that the value of a property takes. */
  function Room(k: nat): nat {
    if k == ROUTE then 514 else if k in {SURFACE, INSTALLATION, IDEMPOTENCY_KEY} then 130 else 66
  }

  predicate AllFit(values: seq<Json>) {
    forall k | 0 <= k < |values| :: Fits(values[k], Room(k))
  }

  lemma BindingFits(b: Binding)
    requires ValidBinding(b) && PlainBinding(b)
    ensures AllFit(BindingValues(b))
  {
    PlainStringFits(b.surfaceId);
    PlainStringFits(b.installationId);
    PlainStringFits(b.route);
    PlainStringFits(b.idempotencyKey);
    LettersArePlain(b.requestDigest);
    PlainStringFits(b.requestDigest);
    PostFits();
  }

  lemma FourFit(p: Json, q: Json, r: Json, s: Json)
    requires Fits(p, 66) && Fits(q, 66) && Fits(r, 66) && Fits(s, 66)
    ensures forall k | 0 <= k < 4 :: Fits([p, q, r, s][k], 66)
  {
  }

  lemma HeaderFits(a: Assertion)
    requires Signable(a)
    ensures forall k | 0 <= k < |HeaderValues(a)| :: Fits(HeaderValues(a)[k], 66)
  {
    LettersArePlain(a.keyVersion);
    PlainStringFits(a.keyVersion);
    NumberFits(1);
    IssuerFits();
    AudienceFits();
    FourFit(Num(1), Str(a.keyVersion), Str(Ascii("noodle-portal")), Str(Ascii("noodle-public-admission")));
  }

  lemma TimesFit(a: Assertion)
    requires Signable(a) && Fits(Str(a.epoch), 66)
    ensures forall k | 0 <= k < |TimeValues(a)| :: Fits(TimeValues(a)[k], 66)
  {
    NumberFits(a.issuedAt);
    NumberFits(a.expiresAt);
    LettersArePlain(a.network);
    PlainStringFits(a.network);
    FourFit(Str(a.epoch), Num(a.issuedAt), Num(a.expiresAt), Str(a.network));
  }

  lemma FitAppend(values: seq<Json>, more: seq<Json>)
    requires AllFit(values) && |values| > IDEMPOTENCY_KEY && forall k | 0 <= k < |more| :: Fits(more[k], 66)
    ensures AllFit(values + more)
  {
  }

  lemma ValuesFit(a: Assertion)
    requires Signable(a) && PlainBinding(a.binding) && Fits(Str(a.epoch), 66)
    ensures AllFit(Values(a))
  {
    BindingFits(a.binding);
    HeaderFits(a);
    TimesFit(a);
    FitAppend(BindingValues(a.binding), HeaderValues(a));
    FitAppend(BindingValues(a.binding) + HeaderValues(a), TimeValues(a));
    if a.visitor.Some? {
      LettersArePlain(a.visitor.value);
      PlainStringFits(a.visitor.value);
      FitAppend(BindingValues(a.binding) + HeaderValues(a) + TimeValues(a), [Str(a.visitor.value)]);
    }
  }

  lemma NameIsShort(k: nat)
    requires k < |NAMES|
    ensures |NAMES[k]| <= 14
  {
  }

  lemma FieldFits(f: Field, n: nat)
    requires IsAscii(f.key) && |f.key| <= 14 && Fits(f.value, n)
    ensures |FieldText(f)| <= n + 87 && IsAscii(FieldText(f))
  {
    EscapedIsBounded(f.key);
  }

  lemma FieldsFit(values: seq<Json>)
    requires |values| <= |NAMES| && AllFit(values)
    ensures var fields := Fields(values);
            forall k | 0 <= k < |fields| :: |FieldText(fields[k])| <= Room(k) + 87 && IsAscii(FieldText(fields[k]))
  {
    var fields := Fields(values);
    forall k | 0 <= k < |fields|
      ensures |FieldText(fields[k])| <= Room(k) + 87 && IsAscii(FieldText(fields[k]))
    {
      NameIsShort(k);
      FieldFits(fields[k], Room(k));
    }
  }

  /** The most that the values of the first `n` properties take beyond 66 characters each. */
  function Excess(n: nat): nat {
    (if n > SURFACE then 64 else 0) + (if n > INSTALLATION then 64 else 0)
    + (if n > ROUTE then 448 else 0) + (if n > IDEMPOTENCY_KEY then 64 else 0)
  }

  lemma {:induction false} CostFits(fields: seq<Field>)
    requires forall k | 0 <= k < |fields| :: |FieldText(fields[k])| <= Room(k) + 87
    ensures Cost(fields) <= 154 * |fields| + Excess(|fields|)
  {
    if fields != [] {
      CostFits(fields[..|fields| - 1]);
    }
  }

  lemma FieldsAreShort(fields: seq<Field>)
    requires 1 <= |fields| <= 15
    requires forall k | 0 <= k < |fields| :: |FieldText(fields[k])| <= Room(k) + 87 && IsAscii(FieldText(fields[k]))
    ensures |Utf8.Encode(Print(Obj(fields)))| <= 3039
  {
    CostFits(fields);
    ObjectLength(fields);
    FieldsAreAscii(fields);
    Utf8.AsciiLength(Print(Obj(fields)));
  }

  lemma PlainAssertionFits(a: Assertion)
    requires Signable(a) && PlainBinding(a.binding) && Fits(Str(a.epoch), 66)
    ensures |Utf8.Encode(Print(AssertionJson(a)))| <= 3039
  {
    ValuesFit(a);
    FieldsFit(Values(a));
    FieldsAreShort(Fields(Values(a)));
  }

  /** Every token signed for fields of unescaped ASCII is within the limit of the verifier. */
  lemma PlainTokensAreShort(hmac: Hmac, b: Binding, address: Text, visitor: Option<Text>, keys: SigningKeys, now: Calendar.Time, token: Text)
    requires Sign(hmac, b, Some(address), visitor, keys, now) == Some(token) && PlainBinding(b)
    ensures |token| <= MAX_TOKEN_CHARS
  {
    var a := AssertionFor(hmac, b, address, visitor, keys, now);
    SignedParts(hmac, b, address, visitor, keys, now, token);
    EpochFits(now);
    PlainAssertionFits(a);
    AssertionIsPlain(a);
    TokenLength(hmac, SigningKey(keys, a.keyVersion).value, AssertionJson(a), token);
  }

  /** A text of one letter, repeated. */
  function Letters(n: nat): (t: Text)
    ensures |t| == n && Base64Url.AreLetters(t) && IsPlainText(t) && forall k | 0 <= k < n :: IsHexDigit(t[k])
  {
    seq(n, _ => 0x61)
  }

  function SomeBinding(): (b: Binding)
    ensures ValidBinding(b) && PlainBinding(b)
  {
    Binding(Letters(1), Letters(1), [0x2f], Ascii("POST"), Letters(1), Letters(64))
  }

  function SomeKeys(): (keys: SigningKeys)
    ensures SigningKey(keys, keys.activeVersion).Some? && |keys.pseudonymKey| == 32
  {
    SigningKeys(Letters(1), map[Letters(1) := Letters(32)], Letters(32))
  }

  /** Whatever the digest and the moment, some tokens are signed and verify at once. */
  lemma SomeTokenVerifies(hmac: Hmac, address: Text, now: Calendar.Time) returns (token: Text)
    ensures Sign(hmac, SomeBinding(), Some(address), None, SomeKeys(), now) == Some(token)
    ensures Verify(hmac, token, SomeBinding(), SomeKeys(), now).Some?
  {
    token := Sign(hmac, SomeBinding(), Some(address), None, SomeKeys(), now).value;
    PlainTokensAreShort(hmac, SomeBinding(), address, None, SomeKeys(), now, token);
    SignedVerifiesIff(hmac, SomeBinding(), address, None, SomeKeys(), now, token, SomeBinding(), SomeKeys(), now);
  }

  // Too long

  function Zeros(n: nat): Text {
    seq(n, _ => 0)
  }

  lemma {:induction false} ZerosEscape(n: nat)
    ensures |Escaped(Zeros(n))| == 6 * n
  {
    if n > 0 {
      ZerosEscape(n - 1);
      assert Zeros(n)[1..] == Zeros(n - 1);
    }
  }

  /** A valid route of 512 units whose JSON text has over 3,000. */
  function LongRoute(): Text {
    [0x2f] + Zeros(511)
  }

  lemma LongRouteIsLong()
    ensures IsRoute(LongRoute()) && |Quote(LongRoute())| > 3039
  {
    ZerosEscape(511);
    assert LongRoute()[1..] == Zeros(511);
  }

  lemma LongRouteMakesLongText(a: Assertion)
    requires a.binding.route == LongRoute()
    ensures |Utf8.Encode(Print(AssertionJson(a)))| > 3039
  {
    var fields := Fields(Values(a));
    assert fields[ROUTE].value == Str(LongRoute());
    LongRouteIsLong();
    CostOfOne(fields, ROUTE);
    ObjectLength(fields);
    Utf8.AtLeastAByteEach(Print(AssertionJson(a)));
  }

  lemma LongRouteMakesLongToken(hmac: Hmac, b: Binding, address: Text, visitor: Option<Text>, keys: SigningKeys, now: Calendar.Time, token: Text)
    requires Sign(hmac, b, Some(address), visitor, keys, now) == Some(token) && b.route == LongRoute()
    ensures |token| > MAX_TOKEN_CHARS
  {
    var a := AssertionFor(hmac, b, address, visitor, keys, now);
    SignedParts(hmac, b, address, visitor, keys, now, token);
    LongRouteMakesLongText(a);
    AssertionIsPlain(a);
    TokenLength(hmac, SigningKey(keys, a.keyVersion).value, AssertionJson(a), token);
  }

  lemma SignsLongRoutes(hmac: Hmac, b: Binding, address: Text, visitor: Option<Text>, keys: SigningKeys, now: Calendar.Time)
    requires Sign(hmac, b, Some(address), visitor, keys, now).Some?
    ensures Sign(hmac, b.(route := LongRoute()), Some(address), visitor, keys, now).Some?
  {
    LongRouteIsLong();
  }

  /** For every signer there are bindings that it accepts and for which no verifier ever accepts its token. */
  lemma SomeTokensAreTooLong(hmac: Hmac, b: Binding, address: Text, visitor: Option<Text>, keys: SigningKeys, signed: Calendar.Time,
                             expected: Binding, later: SigningKeys, now: Calendar.Time)
    requires Sign(hmac, b, Some(address), visitor, keys, signed).Some?
    ensures var long := Sign(hmac, b.(route := LongRoute()), Some(address), visitor, keys, signed);
            long.Some? && Verify(hmac, long.value, expected, later, now).None?
  {
    SignsLongRoutes(hmac, b, address, visitor, keys, signed);
    var token := Sign(hmac, b.(route := LongRoute()), Some(address), visitor, keys, signed).value;
    LongRouteMakesLongToken(hmac, b.(route := LongRoute()), address, visitor, keys, signed, token);
  }

  // Pseudonyms

  lemma {:induction false} HexIsInjective(x: seq<Byte>, y: seq<Byte>)
    requires |x| == |y|
    ensures Hex(x) == Hex(y) <==> x == y
  {
    if x != [] {
      HexIsInjective(x[1..], y[1..]);
      var s, t := Hex(x), Hex(y);
      assert s[2..] == Hex(x[1..]) && t[2..] == Hex(y[1..]);
      if s == t {
        HexRoundTrip(x[0] / 16);
        HexRoundTrip(x[0] % 16);
        HexRoundTrip(y[0] / 16);
        HexRoundTrip(y[0] % 16);
        assert s[0] == t[0] && s[1] == t[1];
        assert x == [x[0]] + x[1..] && y == [y[0]] + y[1..];
      }
    }
  }

  lemma SourcesAgreeIff(b: Binding, c: Binding, day: Text, other: Text, kind: Text, sort: Text, value: Text, rival: Text)
    ensures Print(PseudonymSource(b, day, kind, value)) == Print(PseudonymSource(c, other, sort, rival))
       <==> b.installationId == c.installationId && b.surfaceId == c.surfaceId && day == other && kind == sort && value == rival
  {
    var v, w := PseudonymSource(b, day, kind, value), PseudonymSource(c, other, sort, rival);
    if Print(v) == Print(w) {
      PrintIsInjective(v, w);
      assert v.items[0] == w.items[0] && v.items[1] == w.items[1] && v.items[2] == w.items[2];
      assert v.items[3] == w.items[3] && v.items[4] == w.items[4];
    }
  }

  /**
   * Under one pseudonym key, whose digest keeps apart the two texts it is given, a visitor has one
   * pseudonym for each installation, surface and UTC day, whatever the signing keys; and no two visitors,
   * installations, surfaces or days share one.
   */
  lemma PseudonymsAgreeIff(hmac: Hmac, b: Binding, c: Binding, address: Text, rival: Text, keys: SigningKeys, other: SigningKeys,
                           t: Calendar.Time, u: Calendar.Time)
    requires keys.pseudonymKey == other.pseudonymKey
    requires var x := Print(PseudonymSource(b, Epoch(t), Ascii("network"), address));
             var y := Print(PseudonymSource(c, Epoch(u), Ascii("network"), rival));
             hmac(keys.pseudonymKey, x) == hmac(keys.pseudonymKey, y) ==> x == y
    ensures AssertionFor(hmac, b, address, None, keys, t).network == AssertionFor(hmac, c, rival, None, other, u).network
       <==> b.installationId == c.installationId && b.surfaceId == c.surfaceId && address == rival
            && Calendar.DayOf(t) == Calendar.DayOf(u)
  {
    EpochsAgreeIff(t, u);
    SourcesAgreeIff(b, c, Epoch(t), Epoch(u), Ascii("network"), Ascii("network"), address, rival);
    HexIsInjective(hmac(keys.pseudonymKey, Print(PseudonymSource(b, Epoch(t), Ascii("network"), address))),
                   hmac(keys.pseudonymKey, Print(PseudonymSource(c, Epoch(u), Ascii("network"), rival))));
  }

  /** Within a day, an address and a visitor keep their pseudonyms when the signing key is rotated. */
  lemma RotationKeepsPseudonyms(hmac: Hmac, b: Binding, address: Text, visitor: Option<Text>,
                                keys: SigningKeys, other: SigningKeys, t: Calendar.Time, u: Calendar.Time)
    requires keys.pseudonymKey == other.pseudonymKey && Calendar.DayOf(t) == Calendar.DayOf(u)
    ensures var x := AssertionFor(hmac, b, address, visitor, keys, t);
            var y := AssertionFor(hmac, b, address, visitor, other, u);
            x.network == y.network && x.visitor == y.visitor
  {
    EpochsAgreeIff(t, u);
  }
}
