/**
 * The signed admission assertion of `public-admission-assertion.ts`, down to its bytes: JSON text,
 * UTF-8, base64url and a keyed digest.
 */
module PublicAdmissionAssertion {

  import Calendar
  import CounterRows
  import opened JsonText
  import opened CanonicalJson
  import opened Bytes
  import Utf8
  import Base64Url

  const TTL_SECONDS := 60
  const CLOCK_SKEW_SECONDS := 5
  const MAX_TOKEN_CHARS := 4096

  /** `createHmac('sha256', key).update(message).digest()`. */
  type Hmac = (Text, Text) -> Mac

  type Mac = bytes: seq<Byte> | |bytes| == 32 witness seq(32, _ => 0)

  datatype Binding = Binding(
    surfaceId: Text, installationId: Text, route: Text, method_: Text, idempotencyKey: Text, requestDigest: Text)

  datatype SigningKeys = SigningKeys(activeVersion: Text, keys: map<Text, Text>, pseudonymKey: Text)

  /** What varies from one signed assertion to the next. */
  datatype Assertion = Assertion(
    binding: Binding, keyVersion: Text, epoch: Text, issuedAt: SafeInt, expiresAt: SafeInt,
    network: Text, visitor: Option<Text>)

  /** `visitor` is what the token says; nothing makes it a string. */
  datatype Attribution = Attribution(network: Text, visitor: Option<Json>)

  // The checks

  predicate IsHexDigit(u: Unit) {
    0x30 <= u <= 0x39 || 0x61 <= u <= 0x66
  }

  /** `digestPattern`. */
  predicate IsDigest(s: Text) {
    |s| == 64 && forall k | 0 <= k < |s| :: IsHexDigit(s[k])
  }

  predicate IsShort(s: Text) {
    1 <= |s| <= 128
  }

  predicate IsRoute(s: Text) {
    s != [] && s[0] == 0x2f && |s| <= 512
  }

  /** `validBinding` of a binding. */
  predicate ValidBinding(b: Binding) {
    && IsShort(b.surfaceId) && IsShort(b.installationId) && IsShort(b.idempotencyKey)
    && b.method_ == Ascii("POST") && IsRoute(b.route) && IsDigest(b.requestDigest)
  }

  /** `signingKey`; None where it throws. */
  function SigningKey(keys: SigningKeys, version: Text): Option<Text> {
    if version in keys.keys && |keys.keys[version]| >= 32
       && Base64Url.AreLetters(version) && 1 <= |version| <= 32
    then Some(keys.keys[version]) else None
  }

  // Objects

  /** The property names of an assertion, in the order in which they are written. */
  const NAMES: seq<string> := [
    "surfaceId", "installationId", "route", "method", "idempotencyKey", "requestDigest",
    "version", "keyVersion", "issuer", "audience", "epoch", "issuedAt", "expiresAt", "network", "visitor"]

  const SURFACE := 0
  const INSTALLATION := 1
  const ROUTE := 2
  const METHOD := 3
  const IDEMPOTENCY_KEY := 4
  const REQUEST_DIGEST := 5
  const VERSION := 6
  const KEY_VERSION := 7
  const ISSUER := 8
  const AUDIENCE := 9
  const EPOCH := 10
  const ISSUED_AT := 11
  const EXPIRES_AT := 12
  const NETWORK := 13
  const VISITOR := 14

  /** The value under a key once the object is parsed: the last one counts. */
  function Lookup(fields: seq<Field>, key: Text): Option<Json> {
    if fields == [] then None
    else if fields[|fields| - 1].key == key then Some(fields[|fields| - 1].value)
    else Lookup(fields[..|fields| - 1], key)
  }

  function Property(fields: seq<Field>, name: nat): Option<Json>
    requires name < |NAMES|
  {
    Lookup(fields, Ascii(NAMES[name]))
  }

  predicate IsString(v: Option<Json>) {
    v.Some? && v.value.Str?
  }

  predicate IsShortString(v: Option<Json>) {
    IsString(v) && IsShort(v.value.text)
  }

  /** `digestPattern.test(v)`, which first makes a string of an array with one item. */
  predicate TestsAsDigest(v: Json)
    decreases v
  {
    match v
    case Str(s) => IsDigest(s)
    case Arr(items) => |items| == 1 && TestsAsDigest(items[0])
    case _ => false
  }

  /** `validBinding` of a parsed object. */
  predicate HasBinding(fields: seq<Field>) {
    && IsShortString(Property(fields, SURFACE)) && IsShortString(Property(fields, INSTALLATION))
    && IsShortString(Property(fields, IDEMPOTENCY_KEY))
    && Property(fields, METHOD) == Some(Str(Ascii("POST")))
    && IsString(Property(fields, ROUTE)) && IsRoute(Property(fields, ROUTE).value.text)
    && Property(fields, REQUEST_DIGEST).Some? && TestsAsDigest(Property(fields, REQUEST_DIGEST).value)
  }

  /** `isAssertion`. */
  predicate IsAssertion(v: Json) {
    && v.Obj? && HasBinding(v.fields)
    && Property(v.fields, VERSION) == Some(Num(1))
    && Property(v.fields, ISSUER) == Some(Str(Ascii("noodle-portal")))
    && Property(v.fields, AUDIENCE) == Some(Str(Ascii("noodle-public-admission")))
    && IsString(Property(v.fields, KEY_VERSION)) && IsString(Property(v.fields, EPOCH))
    && IsNumber(Property(v.fields, ISSUED_AT)) && IsNumber(Property(v.fields, EXPIRES_AT))
    && IsString(Property(v.fields, NETWORK)) && IsDigest(Property(v.fields, NETWORK).value.text)
    && (Property(v.fields, VISITOR).Some? ==> TestsAsDigest(Property(v.fields, VISITOR).value))
    && forall k | 0 <= k < |v.fields| :: IsName(v.fields[k].key)
  }

  predicate IsNumber(v: Option<Json>) {
    v.Some? && v.value.Num?
  }

  predicate IsName(key: Text) {
    exists k | 0 <= k < |NAMES| :: key == Ascii(NAMES[k])
  }

  // Signing

  function Hex(bytes: seq<Byte>): (t: Text)
    ensures |t| == 2 * |bytes| && forall k | 0 <= k < |t| :: IsHexDigit(t[k])
  {
    if bytes == [] then [] else [HexDigit(bytes[0] / 16), HexDigit(bytes[0] % 16)] + Hex(bytes[1..])
  }

  function PseudonymSource(b: Binding, epoch: Text, kind: Text, value: Text): Json {
    Arr([Str(b.installationId), Str(b.surfaceId), Str(epoch), Str(kind), Str(value)])
  }

  function Pseudonym(hmac: Hmac, keys: SigningKeys, b: Binding, epoch: Text, kind: Text, value: Text): (t: Text)
    ensures IsDigest(t)
  {
    Hex(hmac(keys.pseudonymKey, Print(PseudonymSource(b, epoch, kind, value))))
  }

  function Seconds(t: Calendar.Time): SafeInt {
    t / Calendar.MS_PER_SECOND
  }

  function Epoch(t: Calendar.Time): Text {
    Ascii(CounterRows.DayKey(t))
  }

  function AssertionFor(hmac: Hmac, b: Binding, address: Text, visitor: Option<Text>, keys: SigningKeys, now: Calendar.Time): Assertion {
    Assertion(b, keys.activeVersion, Epoch(now), Seconds(now), Seconds(now) + TTL_SECONDS,
              Pseudonym(hmac, keys, b, Epoch(now), Ascii("network"), address),
              if visitor.Some? then Some(Pseudonym(hmac, keys, b, Epoch(now), Ascii("visitor"), visitor.value)) else None)
  }

  /** The properties in order, from `surfaceId` to `network`, and to `visitor` if there is one. */
  function Values(a: Assertion): (values: seq<Json>)
    ensures |values| == |NAMES| - if a.visitor.Some? then 0 else 1
  {
    BindingValues(a.binding) + HeaderValues(a) + TimeValues(a) + if a.visitor.Some? then [Str(a.visitor.value)] else []
  }

  function BindingValues(b: Binding): seq<Json> {
    [Str(b.surfaceId), Str(b.installationId), Str(b.route), Str(b.method_), Str(b.idempotencyKey), Str(b.requestDigest)]
  }

  function HeaderValues(a: Assertion): seq<Json> {
    [Num(1), Str(a.keyVersion), Str(Ascii("noodle-portal")), Str(Ascii("noodle-public-admission"))]
  }

  function TimeValues(a: Assertion): seq<Json> {
    [Str(a.epoch), Num(a.issuedAt), Num(a.expiresAt), Str(a.network)]
  }

  function Fields(values: seq<Json>): (fields: seq<Field>)
    requires |values| <= |NAMES|
    ensures |fields| == |values|
    ensures forall k | 0 <= k < |fields| :: fields[k] == Field(Ascii(NAMES[k]), values[k])
  {
    seq(|values|, k requires 0 <= k < |values| => Field(Ascii(NAMES[k]), values[k]))
  }

  function AssertionJson(a: Assertion): Json {
    Obj(Fields(Values(a)))
  }

  /** `Buffer.from(JSON.stringify(v)).toString('base64url')`. */
  function Encoded(v: Json): Text {
    Base64Url.Encode(Utf8.Encode(Print(v)))
  }

  const DOT: Unit := 0x2e

  /** `signPublicAdmissionAssertion`, given the buckets of address and visitor; None where it throws. */
  function Sign(hmac: Hmac, b: Binding, address: Option<Text>, visitor: Option<Text>, keys: SigningKeys, now: Calendar.Time): Option<Text> {
    if address.None? || |keys.pseudonymKey| < 32 || !ValidBinding(b) then None
    else
      var encoded := Encoded(AssertionJson(AssertionFor(hmac, b, address.value, visitor, keys, now)));
      match SigningKey(keys, keys.activeVersion)
      case None => None
      case Some(key) => Some(encoded + [DOT] + Base64Url.Encode(hmac(key, encoded)))
  }

  // Verifying

  /** The place of the first dot, or the length. */
  function DotAt(t: Text): (n: nat)
    ensures n <= |t|
  {
    if t == [] || t[0] == DOT then 0 else 1 + DotAt(t[1..])
  }

  /** The two parts around the only dot, if they are texts of base64url. */
  function TwoParts(token: Text): (r: Option<(Text, Text)>)
    ensures r.Some? ==> Base64Url.AreLetters(r.value.0) && Base64Url.AreLetters(r.value.1)
  {
    var at := DotAt(token);
    if at == |token| then None
    else
      var first, second := token[..at], token[at + 1..];
      if first != [] && second != [] && Base64Url.AreLetters(first) && Base64Url.AreLetters(second)
      then Some((first, second)) else None
  }

  /** `JSON.parse` of the bytes, where it succeeds. */
  function Parse(encoded: Text): Option<Json>
    requires Base64Url.AreLetters(encoded)
  {
    match Read(Utf8.Decode(Base64Url.Decode(encoded)))
    case None => None
    case Some(r) => if r.rest == [] then Some(r.value) else None
  }

  /** The day of a second; None beyond the years that a day text of ten digits and hyphens can name. */
  function EpochOf(second: int): Option<Text> {
    var t := second * Calendar.MS_PER_SECOND;
    if Calendar.FIRST_DAY * Calendar.MS_PER_DAY <= t < Calendar.END_DAY * Calendar.MS_PER_DAY then Some(Epoch(t)) else None
  }

  /** The time checks. */
  predicate InTime(epoch: Text, issuedAt: int, expiresAt: int, now: Calendar.Time) {
    && epoch == Epoch(now) && EpochOf(issuedAt) == Some(epoch)
    && issuedAt <= Seconds(now) + CLOCK_SKEW_SECONDS && Seconds(now) - CLOCK_SKEW_SECONDS <= expiresAt
    && issuedAt < expiresAt && expiresAt - issuedAt <= TTL_SECONDS
  }

  /** Every property of the expected binding is in the assertion, with the same value. */
  predicate Matches(fields: seq<Field>, expected: Binding) {
    && Property(fields, SURFACE) == Some(Str(expected.surfaceId))
    && Property(fields, INSTALLATION) == Some(Str(expected.installationId))
    && Property(fields, ROUTE) == Some(Str(expected.route))
    && Property(fields, METHOD) == Some(Str(expected.method_))
    && Property(fields, IDEMPOTENCY_KEY) == Some(Str(expected.idempotencyKey))
    && Property(fields, REQUEST_DIGEST) == Some(Str(expected.requestDigest))
  }

  /** The checks behind `isAssertion`. */
  function VerifyAssertion(hmac: Hmac, encoded: Text, supplied: Text, fields: seq<Field>, expected: Binding, keys: SigningKeys, now: Calendar.Time)
    : Option<Attribution>
    requires Base64Url.AreLetters(supplied) && IsAssertion(Obj(fields))
  {
    match SigningKey(keys, Property(fields, KEY_VERSION).value.text)
    case None => None
    case Some(key) =>
      if Base64Url.Decode(supplied) != hmac(key, encoded) then None
      else if !InTime(Property(fields, EPOCH).value.text, Property(fields, ISSUED_AT).value.number,
                      Property(fields, EXPIRES_AT).value.number, now) then None
      else if !Matches(fields, expected) then None
      else Some(Attribution(Property(fields, NETWORK).value.text, Property(fields, VISITOR)))
  }

  /** `verifyPublicAdmissionAssertion`. */
  function Verify(hmac: Hmac, token: Text, expected: Binding, keys: SigningKeys, now: Calendar.Time): Option<Attribution> {
    if |token| > MAX_TOKEN_CHARS || !ValidBinding(expected) then None
    else
      match TwoParts(token)
      case None => None
      case Some((encoded, supplied)) =>
        match Parse(encoded)
        case None => None
        case Some(v) =>
          if IsAssertion(v) then VerifyAssertion(hmac, encoded, supplied, v.fields, expected, keys, now) else None
  }
}
