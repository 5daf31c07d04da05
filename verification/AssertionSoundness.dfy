/** What any verified token proves, whoever made it: the exact condition on its text and its keyed digest. */
module AssertionSoundness {

  import Calendar
  import CounterRows
  import opened JsonText
  import opened CanonicalJson
  import opened PublicAdmissionAssertion
  import Proofs = PublicAdmissionAssertionProofs
  import Utf8
  import Base64Url

  // Properties of a parsed object

  /** The object has this value under this name: it is the last one written there. */
  ghost predicate Says(fields: seq<Field>, name: string, value: Json) {
    exists i | 0 <= i < |fields| ::
      fields[i] == Field(Ascii(name), value) && forall j | i < j < |fields| :: fields[j].key != Ascii(name)
  }

  ghost predicate Silent(fields: seq<Field>, name: string) {
    forall i | 0 <= i < |fields| :: fields[i].key != Ascii(name)
  }

  lemma {:induction false} LookupIsLast(fields: seq<Field>, key: Text) returns (i: int)
    ensures -1 <= i < |fields| && forall j | i < j < |fields| :: fields[j].key != key
    ensures if i < 0 then Lookup(fields, key) == None
            else fields[i].key == key && Lookup(fields, key) == Some(fields[i].value)
  {
    if fields == [] {
      i := -1;
    } else if fields[|fields| - 1].key == key {
      i := |fields| - 1;
    } else {
      i := LookupIsLast(fields[..|fields| - 1], key);
    }
  }

  lemma SaysIff(fields: seq<Field>, name: string, value: Json)
    ensures Says(fields, name, value) <==> Lookup(fields, Ascii(name)) == Some(value)
    ensures Silent(fields, name) <==> Lookup(fields, Ascii(name)) == None
  {
    var last := LookupIsLast(fields, Ascii(name));
    if Says(fields, name, value) {
      var i :| 0 <= i < |fields| && fields[i] == Field(Ascii(name), value)
               && forall j | i < j < |fields| :: fields[j].key != Ascii(name);
      assert i == last;
    }
    if last >= 0 {
      assert fields[last] == Field(Ascii(name), fields[last].value);
    }
  }

  // What a token says

  datatype Reading = Reading(
    encoded: Text, supplied: Text, fields: seq<Field>, keyVersion: Text, issuedAt: SafeInt, expiresAt: SafeInt)

  /** The token is this text and this signature, and the text is JSON for these properties. */
  ghost predicate Spells(r: Reading, token: Text) {
    && token == r.encoded + [0x2e] + r.supplied && |token| <= 4096
    && r.encoded != [] && Base64Url.AreLetters(r.encoded) && r.supplied != [] && Base64Url.AreLetters(r.supplied)
    && Read(Utf8.Decode(Base64Url.Decode(r.encoded))) == Some(Parsed(Obj(r.fields), []))
  }

  /** The signature is the keyed digest of the text, under a long key that is held for the version the text names. */
  ghost predicate SignedUnder(hmac: Hmac, r: Reading, keys: SigningKeys) {
    && Says(r.fields, "keyVersion", Str(r.keyVersion)) && 1 <= |r.keyVersion| <= 32 && Base64Url.AreLetters(r.keyVersion)
    && r.keyVersion in keys.keys && |keys.keys[r.keyVersion]| >= 32
    && Base64Url.AreLetters(r.supplied) && Base64Url.Decode(r.supplied) == hmac(keys.keys[r.keyVersion], r.encoded)
  }

  /** The text is for this request, and the request is one that can be signed for. */
  ghost predicate IsFor(fields: seq<Field>, b: Binding) {
    && Says(fields, "surfaceId", Str(b.surfaceId)) && Says(fields, "installationId", Str(b.installationId))
    && Says(fields, "idempotencyKey", Str(b.idempotencyKey)) && Says(fields, "route", Str(b.route))
    && Says(fields, "method", Str(b.method_)) && Says(fields, "requestDigest", Str(b.requestDigest)) && CanBeSigned(b)
  }

  /** Texts of reasonable length, an absolute route, and the digest of a posted body. */
  predicate CanBeSigned(b: Binding) {
    && 1 <= |b.surfaceId| <= 128 && 1 <= |b.installationId| <= 128 && 1 <= |b.idempotencyKey| <= 128
    && 1 <= |b.route| <= 512 && b.route[0] == 0x2f && b.method_ == Ascii("POST") && IsHex64(b.requestDigest)
  }

  predicate IsHex64(s: Text) {
    |s| == 64 && forall k | 0 <= k < |s| :: 0x30 <= s[k] <= 0x39 || 0x61 <= s[k] <= 0x66
  }

  /** The text was issued today, not over a minute ago and not in the future, give or take five seconds. */
  ghost predicate IsCurrent(r: Reading, now: Calendar.Time) {
    && Says(r.fields, "epoch", Str(Ascii(CounterRows.DayKey(now))))
    && Says(r.fields, "issuedAt", Num(r.issuedAt)) && Says(r.fields, "expiresAt", Num(r.expiresAt))
    && IsTimely(r.issuedAt, r.expiresAt, now)
  }

  predicate IsTimely(issuedAt: int, expiresAt: int, now: Calendar.Time) {
    && 1000 * issuedAt / 86_400_000 == now / 86_400_000
    && issuedAt <= now / 1000 + 5 && now / 1000 - 5 <= expiresAt && issuedAt < expiresAt <= issuedAt + 60
  }

  ghost predicate IsPortals(fields: seq<Field>) {
    && Says(fields, "version", Num(1)) && Says(fields, "issuer", Str(Ascii("noodle-portal")))
    && Says(fields, "audience", Str(Ascii("noodle-public-admission")))
    && forall k | 0 <= k < |fields| :: IsKnown(fields[k].key)
  }

  predicate IsKnown(key: Text) {
    || key == Ascii("surfaceId") || key == Ascii("installationId") || key == Ascii("route") || key == Ascii("method")
    || key == Ascii("idempotencyKey") || key == Ascii("requestDigest") || key == Ascii("version")
    || key == Ascii("keyVersion") || key == Ascii("issuer") || key == Ascii("audience") || key == Ascii("epoch")
    || key == Ascii("issuedAt") || key == Ascii("expiresAt") || key == Ascii("network") || key == Ascii("visitor")
  }

  /** The pseudonyms stand in the text. */
  ghost predicate Attributes(fields: seq<Field>, a: Attribution) {
    && Says(fields, "network", Str(a.network)) && IsHex64(a.network)
    && (match a.visitor
        case None => Silent(fields, "visitor")
        case Some(v) => Says(fields, "visitor", v) && TestsAsDigest(v))
  }

  /** Everything that a verified token has to be. */
  ghost predicate Vouches(hmac: Hmac, r: Reading, token: Text, expected: Binding, keys: SigningKeys, now: Calendar.Time, a: Attribution) {
    && Spells(r, token) && SignedUnder(hmac, r, keys) && IsFor(r.fields, expected) && IsCurrent(r, now)
    && IsPortals(r.fields) && Attributes(r.fields, a)
  }

  /** What is signed is known before it is verified: the signer refuses everything else. */
  lemma SignsIff(hmac: Hmac, b: Binding, address: Option<Text>, visitor: Option<Text>, keys: SigningKeys, now: Calendar.Time)
    ensures Sign(hmac, b, address, visitor, keys, now).Some? <==>
            && address.Some? && CanBeSigned(b) && |keys.pseudonymKey| >= 32
            && 1 <= |keys.activeVersion| <= 32 && Base64Url.AreLetters(keys.activeVersion)
            && keys.activeVersion in keys.keys && |keys.keys[keys.activeVersion]| >= 32
  {
  }

  /** A pseudonym is the keyed digest of a JSON array: installation, surface, day, what it is for, and the bucket. */
  lemma PseudonymText(b: Binding, epoch: Text, kind: Text, value: Text)
    ensures Print(PseudonymSource(b, epoch, kind, value))
         == Ascii("[") + (Quote(b.installationId) + Ascii(",") + (Quote(b.surfaceId) + Ascii(",") + (Quote(epoch) + Ascii(",")
            + (Quote(kind) + Ascii(",") + Quote(value))))) + Ascii("]")
  {
    var items := [Str(b.installationId), Str(b.surfaceId), Str(epoch), Str(kind), Str(value)];
    CommaText();
    FirstItem(items[0], [items[1], items[2], items[3], items[4]]);
    FirstItem(items[1], [items[2], items[3], items[4]]);
    FirstItem(items[2], [items[3], items[4]]);
    FirstItem(items[3], [items[4]]);
    assert items == [items[0]] + [items[1], items[2], items[3], items[4]];
    assert [items[1], items[2], items[3], items[4]] == [items[1]] + [items[2], items[3], items[4]];
    assert [items[2], items[3], items[4]] == [items[2]] + [items[3], items[4]];
    assert [items[3], items[4]] == [items[3]] + [items[4]];
  }

  lemma FirstItem(first: Json, rest: seq<Json>)
    requires rest != []
    ensures PrintItems([first] + rest) == Print(first) + Ascii(",") + PrintItems(rest)
  {
    CommaText();
    assert ([first] + rest)[1..] == rest;
  }

  lemma CommaText()
    ensures Ascii("[") == [OPEN_ARRAY] && Ascii("]") == [CLOSE_ARRAY] && Ascii(",") == [COMMA]
  {
  }

  /** The pseudonyms of an assertion are for the network and the visitor. */
  lemma PseudonymsAre(hmac: Hmac, b: Binding, address: Text, visitor: Option<Text>, keys: SigningKeys, now: Calendar.Time)
    ensures var a, day := AssertionFor(hmac, b, address, visitor, keys, now), Ascii(CounterRows.DayKey(now));
            && a.network == Hex(hmac(keys.pseudonymKey, Print(PseudonymSource(b, day, Ascii("network"), address))))
            && (visitor.None? <==> a.visitor.None?)
            && (visitor.Some? ==>
                  a.visitor.value == Hex(hmac(keys.pseudonymKey, Print(PseudonymSource(b, day, Ascii("visitor"), visitor.value)))))
  {
  }

  // The names

  lemma KnownIffName(key: Text)
    ensures IsKnown(key) <==> IsName(key)
  {
    if IsName(key) {
      var k :| 0 <= k < |NAMES| && key == Ascii(NAMES[k]);
    }
    if IsKnown(key) {
      KnownIsName(key);
    }
  }

  lemma KnownIsName(key: Text)
    requires IsKnown(key)
    ensures IsName(key)
  {
    var k :=
      if key == Ascii("surfaceId") then SURFACE else if key == Ascii("installationId") then INSTALLATION
      else if key == Ascii("route") then ROUTE else if key == Ascii("method") then METHOD
      else if key == Ascii("idempotencyKey") then IDEMPOTENCY_KEY else if key == Ascii("requestDigest") then REQUEST_DIGEST
      else if key == Ascii("version") then VERSION else if key == Ascii("keyVersion") then KEY_VERSION
      else if key == Ascii("issuer") then ISSUER else if key == Ascii("audience") then AUDIENCE
      else if key == Ascii("epoch") then EPOCH else if key == Ascii("issuedAt") then ISSUED_AT
      else if key == Ascii("expiresAt") then EXPIRES_AT else if key == Ascii("network") then NETWORK
      else VISITOR;
    assert key == Ascii(NAMES[k]);
  }

  lemma PortalsIff(fields: seq<Field>)
    ensures IsPortals(fields) <==>
            && Property(fields, VERSION) == Some(Num(1))
            && Property(fields, ISSUER) == Some(Str(Ascii("noodle-portal")))
            && Property(fields, AUDIENCE) == Some(Str(Ascii("noodle-public-admission")))
            && forall k | 0 <= k < |fields| :: IsName(fields[k].key)
  {
    SaysIff(fields, "version", Num(1));
    SaysIff(fields, "issuer", Str(Ascii("noodle-portal")));
    SaysIff(fields, "audience", Str(Ascii("noodle-public-admission")));
    forall k | 0 <= k < |fields|
      ensures IsKnown(fields[k].key) <==> IsName(fields[k].key)
    {
      KnownIffName(fields[k].key);
    }
  }

  lemma ForIff(fields: seq<Field>, b: Binding)
    ensures IsFor(fields, b) <==> Matches(fields, b) && ValidBinding(b)
  {
    SignableIff(b);
    SaysText(fields, SURFACE, b.surfaceId);
    SaysText(fields, INSTALLATION, b.installationId);
    SaysText(fields, IDEMPOTENCY_KEY, b.idempotencyKey);
    SaysText(fields, ROUTE, b.route);
    SaysText(fields, METHOD, b.method_);
    SaysText(fields, REQUEST_DIGEST, b.requestDigest);
  }

  lemma SaysText(fields: seq<Field>, name: nat, t: Text)
    requires name < |NAMES|
    ensures Says(fields, NAMES[name], Str(t)) <==> Property(fields, name) == Some(Str(t))
  {
    SaysIff(fields, NAMES[name], Str(t));
  }

  lemma SignableIff(b: Binding)
    ensures CanBeSigned(b) <==> ValidBinding(b)
  {
  }

  lemma MatchingHasBinding(fields: seq<Field>, b: Binding)
    requires Matches(fields, b) && ValidBinding(b)
    ensures HasBinding(fields)
  {
  }

  lemma AttributesIff(fields: seq<Field>, a: Attribution)
    ensures Attributes(fields, a) <==>
            && Property(fields, NETWORK) == Some(Str(a.network)) && IsDigest(a.network) && Property(fields, VISITOR) == a.visitor
            && (a.visitor.Some? ==> TestsAsDigest(a.visitor.value))
  {
    SaysIff(fields, "network", Str(a.network));
    match a.visitor
    case None => SaysIff(fields, "visitor", Null);
    case Some(v) => SaysIff(fields, "visitor", v);
  }

  // Time

  lemma DayOfSecond(second: int, now: Calendar.Time)
    ensures EpochOf(second) == Some(Epoch(now)) <==> 1000 * second / 86_400_000 == now / 86_400_000
  {
    var t := second * 1000;
    if Calendar.FIRST_DAY * Calendar.MS_PER_DAY <= t < Calendar.END_DAY * Calendar.MS_PER_DAY {
      Proofs.EpochsAgreeIff(t, now);
    }
  }

  lemma InTimeIff(issuedAt: int, expiresAt: int, now: Calendar.Time)
    ensures InTime(Epoch(now), issuedAt, expiresAt, now) <==> IsTimely(issuedAt, expiresAt, now)
  {
    DayOfSecond(issuedAt, now);
  }

  lemma SaysEpoch(fields: seq<Field>, now: Calendar.Time)
    ensures Says(fields, "epoch", Str(Ascii(CounterRows.DayKey(now)))) <==> Property(fields, EPOCH) == Some(Str(Epoch(now)))
  {
    SaysIff(fields, "epoch", Str(Epoch(now)));
  }

  lemma CurrentIff(r: Reading, now: Calendar.Time)
    ensures IsCurrent(r, now) <==>
            && Property(r.fields, EPOCH) == Some(Str(Epoch(now))) && Property(r.fields, ISSUED_AT) == Some(Num(r.issuedAt))
            && Property(r.fields, EXPIRES_AT) == Some(Num(r.expiresAt))
            && InTime(Epoch(now), r.issuedAt, r.expiresAt, now)
  {
    SaysEpoch(r.fields, now);
    SaysIff(r.fields, "issuedAt", Num(r.issuedAt));
    SaysIff(r.fields, "expiresAt", Num(r.expiresAt));
    InTimeIff(r.issuedAt, r.expiresAt, now);
  }

  lemma SignedIff(hmac: Hmac, r: Reading, keys: SigningKeys)
    requires Base64Url.AreLetters(r.supplied)
    ensures SignedUnder(hmac, r, keys) <==>
            && Property(r.fields, KEY_VERSION) == Some(Str(r.keyVersion))
            && SigningKey(keys, r.keyVersion).Some?
            && Base64Url.Decode(r.supplied) == hmac(SigningKey(keys, r.keyVersion).value, r.encoded)
  {
    SaysIff(r.fields, "keyVersion", Str(r.keyVersion));
  }

  // Tokens

  lemma {:induction false} DotStands(token: Text)
    ensures DotAt(token) < |token| ==> token[DotAt(token)] == DOT
  {
    if token != [] && token[0] != DOT {
      DotStands(token[1..]);
    }
  }

  lemma PartsJoin(token: Text)
    requires TwoParts(token).Some?
    ensures var (first, second) := TwoParts(token).value;
            token == first + [DOT] + second && first != [] && second != []
  {
    var at := DotAt(token);
    DotStands(token);
    assert token == token[..at] + [token[at]] + token[at + 1..];
  }

  /** What a verified token is found to say. */
  lemma ReadingOf(hmac: Hmac, token: Text, expected: Binding, keys: SigningKeys, now: Calendar.Time) returns (r: Reading)
    requires Verify(hmac, token, expected, keys, now).Some?
    ensures Spells(r, token) && ValidBinding(expected) && IsAssertion(Obj(r.fields))
    ensures Property(r.fields, KEY_VERSION) == Some(Str(r.keyVersion))
    ensures Property(r.fields, ISSUED_AT) == Some(Num(r.issuedAt)) && Property(r.fields, EXPIRES_AT) == Some(Num(r.expiresAt))
    ensures Verify(hmac, token, expected, keys, now)
         == VerifyAssertion(hmac, r.encoded, r.supplied, r.fields, expected, keys, now)
  {
    PartsJoin(token);
    var (encoded, supplied) := TwoParts(token).value;
    var fields := Parse(encoded).value.fields;
    r := Reading(encoded, supplied, fields, Property(fields, KEY_VERSION).value.text,
                 Property(fields, ISSUED_AT).value.number, Property(fields, EXPIRES_AT).value.number);
  }

  lemma CheckedVouches(hmac: Hmac, r: Reading, token: Text, expected: Binding, keys: SigningKeys, now: Calendar.Time, a: Attribution)
    requires Spells(r, token) && ValidBinding(expected) && IsAssertion(Obj(r.fields))
    requires Property(r.fields, KEY_VERSION) == Some(Str(r.keyVersion))
    requires Property(r.fields, ISSUED_AT) == Some(Num(r.issuedAt)) && Property(r.fields, EXPIRES_AT) == Some(Num(r.expiresAt))
    requires VerifyAssertion(hmac, r.encoded, r.supplied, r.fields, expected, keys, now) == Some(a)
    ensures Vouches(hmac, r, token, expected, keys, now, a)
  {
    SignedIff(hmac, r, keys);
    ForIff(r.fields, expected);
    CurrentIff(r, now);
    PortalsIff(r.fields);
    AttributesIff(r.fields, a);
  }

  lemma SpelledParses(r: Reading, token: Text)
    requires Spells(r, token)
    ensures TwoParts(token) == Some((r.encoded, r.supplied)) && Parse(r.encoded) == Some(Obj(r.fields))
  {
    Proofs.TokenSplits(r.encoded, r.supplied);
  }

  lemma VouchedIsAssertion(hmac: Hmac, r: Reading, token: Text, expected: Binding, keys: SigningKeys, now: Calendar.Time, a: Attribution)
    requires Vouches(hmac, r, token, expected, keys, now, a)
    ensures IsAssertion(Obj(r.fields)) && ValidBinding(expected)
    ensures VerifyAssertion(hmac, r.encoded, r.supplied, r.fields, expected, keys, now) == Some(a)
  {
    SignedIff(hmac, r, keys);
    ForIff(r.fields, expected);
    CurrentIff(r, now);
    PortalsIff(r.fields);
    AttributesIff(r.fields, a);
    MatchingHasBinding(r.fields, expected);
  }

  /**
   * Any token, whoever made it, verifies exactly when it is a text and a signature, the signature is the
   * keyed digest of the text under a key the verifier holds for the version the text names, and the text
   * is a current assertion of the portal for the expected request; the attribution is what the text says.
   */
  lemma VerifiesIff(hmac: Hmac, token: Text, expected: Binding, keys: SigningKeys, now: Calendar.Time, a: Attribution)
    ensures Verify(hmac, token, expected, keys, now) == Some(a)
       <==> exists r: Reading :: Vouches(hmac, r, token, expected, keys, now, a)
  {
    if Verify(hmac, token, expected, keys, now) == Some(a) {
      var r := ReadingOf(hmac, token, expected, keys, now);
      CheckedVouches(hmac, r, token, expected, keys, now, a);
    }
    forall r: Reading | Vouches(hmac, r, token, expected, keys, now, a)
      ensures Verify(hmac, token, expected, keys, now) == Some(a)
    {
      SpelledParses(r, token);
      VouchedIsAssertion(hmac, r, token, expected, keys, now, a);
    }
  }

  /** A text that no held key has signed is refused, whatever it says. */
  lemma ForgedIsRefused(hmac: Hmac, encoded: Text, supplied: Text, expected: Binding, keys: SigningKeys, now: Calendar.Time)
    requires Base64Url.AreLetters(encoded) && Base64Url.AreLetters(supplied)
    requires forall version | version in keys.keys :: hmac(keys.keys[version], encoded) != Base64Url.Decode(supplied)
    ensures Verify(hmac, encoded + [DOT] + supplied, expected, keys, now) == None
  {
    var token := encoded + [DOT] + supplied;
    if a :| Verify(hmac, token, expected, keys, now) == Some(a) {
      VerifiesIff(hmac, token, expected, keys, now, a);
      var r: Reading :| Vouches(hmac, r, token, expected, keys, now, a);
      SamePlace(encoded, supplied, r.encoded, r.supplied);
    }
  }

  lemma SamePlace(a: Text, b: Text, c: Text, d: Text)
    requires Base64Url.AreLetters(a) && Base64Url.AreLetters(c) && a + [DOT] + b == c + [DOT] + d
    ensures a == c && b == d
  {
    Proofs.DotIsFound(a, b);
    Proofs.DotIsFound(c, d);
    assert (a + [DOT] + b)[..|a|] == a && (c + [DOT] + d)[..|c|] == c;
    assert (a + [DOT] + b)[|a| + 1..] == b && (c + [DOT] + d)[|c| + 1..] == d;
  }
}
