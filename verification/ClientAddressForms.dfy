/** Which texts an address is read from, and what hexadecimal groups stand for. */
module ClientAddressForms {

  import opened TextSearch
  import opened ClientAddress
  import opened ClientAddressProofs

  // Hexadecimal groups

  const SMALL := "0123456789abcdef"
  const CAPITAL := "0123456789ABCDEF"

  lemma DigitIs(n: nat)
    requires n < 16
    ensures IsHex(SMALL[n]) && HexDigit(SMALL[n]) == n && IsHex(CAPITAL[n]) && HexDigit(CAPITAL[n]) == n
  {
  }

  /** Digit `n`, small or capital. */
  predicate IsDigitOf(c: char, n: nat) {
    n < 16 && (c == SMALL[n] || c == CAPITAL[n])
  }

  lemma DigitOfIs(c: char, n: nat)
    requires IsDigitOf(c, n)
    ensures IsHex(c) && HexDigit(c) == n
  {
    DigitIs(n);
  }

  /** Each digit counts sixteen times the next; leading zeros count nothing. */
  lemma GroupValue(p: char, q: char, r: char, s: char, a: nat, b: nat, c: nat, d: nat)
    requires IsDigitOf(p, a) && IsDigitOf(q, b) && IsDigitOf(r, c) && IsDigitOf(s, d)
    ensures ParseHex([s]) == d
    ensures ParseHex([r, s]) == 16 * c + d
    ensures ParseHex([q, r, s]) == 256 * b + 16 * c + d
    ensures ParseHex([p, q, r, s]) == 4096 * a + 256 * b + 16 * c + d
  {
    DigitOfIs(p, a);
    DigitOfIs(q, b);
    DigitOfIs(r, c);
    DigitOfIs(s, d);
    ParseLast([], s);
    assert [] + [s] == [s];
    FrontValue(p, q, r, s);
  }

  lemma ParseLast(front: string, last: char)
    requires IsHex(last)
    ensures ParseHex(front + [last]) == 16 * ParseHex(front) + HexDigit(last)
  {
    assert (front + [last])[..|front|] == front;
  }

  lemma FrontValue(p: char, q: char, r: char, s: char)
    requires IsHex(p) && IsHex(q) && IsHex(r) && IsHex(s)
    ensures ParseHex([r, s]) == 16 * ParseHex([r]) + HexDigit(s) && ParseHex([r]) == HexDigit(r)
    ensures ParseHex([q, r, s]) == 256 * HexDigit(q) + 16 * HexDigit(r) + HexDigit(s)
    ensures ParseHex([p, q, r, s]) == 4096 * HexDigit(p) + 256 * HexDigit(q) + 16 * HexDigit(r) + HexDigit(s)
  {
    TwoDigits(r, s);
    TwoDigits(q, r);
    TwoDigits(p, q);
    ParseLast([q, r], s);
    ParseLast([p, q], r);
    ParseLast([p, q, r], s);
    assert [q, r] + [s] == [q, r, s] && [p, q] + [r] == [p, q, r] && [p, q, r] + [s] == [p, q, r, s];
  }

  lemma TwoDigits(r: char, s: char)
    requires IsHex(r) && IsHex(s)
    ensures ParseHex([r]) == HexDigit(r) && ParseHex([r, s]) == 16 * HexDigit(r) + HexDigit(s)
  {
    ParseLast([], r);
    ParseLast([r], s);
    assert [] + [r] == [r] && [r] + [s] == [r, s];
  }

  /** Decimal digits from the front; a number under ten is one digit. */
  lemma DecimalText(n: nat)
    ensures n < 10 ==> Decimal(n) == ["0123456789"[n]]
    ensures n >= 10 ==> Decimal(n) == Decimal(n / 10) + ["0123456789"[n % 10]]
  {
  }

  // Which texts are read

  predicate AreDigits(s: string) {
    s != "" && forall k | 0 <= k < |s| :: '0' <= s[k] <= '9'
  }

  /** `text` is `core`, or `core` in brackets, with a port or without. */
  ghost predicate Wraps(text: string, core: string) {
    || text == core
    || (core != "" && ']' !in core && text == "[" + core + "]")
    || (core != "" && ']' !in core && exists port :: AreDigits(port) && text == "[" + core + "]" + (":" + port))
  }

  /** The address that a text without white space around it stands for. */
  ghost predicate StandsFor(isIP: IsIP, core: string, address: string) {
    || (isIP(core) == 6 && address == NormalizeIpv6(isIP, core))
    || (isIP(core) == 4 && address == core)
    || (isIP(core) != 6 && isIP(core) != 4 && isIP(address) == 4 && address != "" && ':' !in address
        && exists port :: AreDigits(port) && core == address + (":" + port))
  }

  lemma {:induction false} StartTrimmed(s: string) returns (before: string)
    ensures s == before + TrimStart(s) && Spaces(before)
    ensures TrimStart(s) != "" ==> !IsSpace(TrimStart(s)[0])
  {
    if s != "" && IsSpace(s[0]) {
      before := StartTrimmed(s[1..]);
      before := [s[0]] + before;
    } else {
      before := "";
    }
  }

  lemma {:induction false} EndTrimmed(s: string) returns (after: string)
    ensures s == TrimEnd(s) + after && Spaces(after)
    ensures TrimEnd(s) != "" ==> !IsSpace(TrimEnd(s)[|TrimEnd(s)| - 1]) && TrimEnd(s)[0] == s[0]
  {
    if s != "" && IsSpace(s[|s| - 1]) {
      after := EndTrimmed(s[..|s| - 1]);
      after := after + [s[|s| - 1]];
    } else {
      after := "";
    }
  }

  lemma PortText(s: string)
    requires IsPort(s)
    ensures s == "" || (AreDigits(s[1..]) && s == ":" + s[1..])
  {
  }

  lemma FoundAt(s: string, c: char)
    ensures var at := Find(s, [c], 0); -1 <= at < |s| && (at >= 0 ==> s[at] == c && c !in s[..at])
  {
    FindIsFirst(s, [c], 0);
    var at := Find(s, [c], 0);
    if at >= 0 {
      assert s[at..at + 1] == [c];
      forall i | 0 <= i < at
        ensures s[i] != c
      {
        assert !Occurs(s, [c], i);
        assert s[i..i + 1] == [s[i]];
      }
    }
  }

  lemma UnbracketedWraps(s: string)
    ensures Wraps(s, Unbracketed(s))
  {
    FoundAt(s, ']');
    var close := Find(s, "]", 0);
    if close >= 2 && s[0] == '[' && IsPort(s[close + 1..]) {
      var core, port := s[1..close], s[close + 1..];
      assert ']' !in core by {
        assert forall k | 0 <= k < |core| :: core[k] == s[..close][k + 1];
      }
      assert s == "[" + core + "]" + port;
      PortText(port);
      if port != "" {
        assert AreDigits(port[1..]) && s == "[" + core + "]" + (":" + port[1..]);
      }
    }
  }

  lemma PortIsBehind(s: string)
    ensures WithoutPort(s).Some? ==>
              var host := WithoutPort(s).value;
              host != "" && ':' !in host && exists port :: AreDigits(port) && s == host + (":" + port)
  {
    FoundAt(s, ':');
    var colon := Find(s, ":", 0);
    if WithoutPort(s).Some? {
      PortText(s[colon..]);
      assert s == s[..colon] + s[colon..];
      assert AreDigits(s[colon..][1..]) && s == s[..colon] + (":" + s[colon..][1..]);
    }
  }

  /**
   * Every address that is read comes from a text that holds it: white space around it, brackets with or without a
   * port, and an address that `isIP` knows, or an IPv4 address and a port.
   */
  lemma OnlyAddressesAreRead(isIP: IsIP, text: string) returns (before: string, after: string, inner: string, core: string)
    requires Canonical(isIP, text).Some?
    ensures text == before + inner + after && Spaces(before) && Spaces(after)
    ensures inner != "" && !IsSpace(inner[0]) && !IsSpace(inner[|inner| - 1])
    ensures Wraps(inner, core) && StandsFor(isIP, core, Canonical(isIP, text).value)
  {
    before := StartTrimmed(text);
    after := EndTrimmed(TrimStart(text));
    inner := TrimEnd(TrimStart(text));
    core := Unbracketed(inner);
    UnbracketedWraps(inner);
    PortIsBehind(core);
    assert text == before + (inner + after);
  }

  /** The wrapped IPv4 address is found in any case of the prefix. */
  lemma MappedInAnyCase(isIP: IsIP, prefix: string, quad: string)
    requires LowerAll(prefix) == "::ffff:" && IsQuad(quad) && isIP(quad) == 4
    ensures NormalizeIpv6(isIP, prefix + quad) == quad
  {
    var s := prefix + quad;
    assert |prefix| == 7 && s[..7] == prefix && s[7..] == quad;
    QuadIsNotEmpty(quad);
  }

  lemma QuadIsNotEmpty(quad: string)
    requires IsQuad(quad)
    ensures quad != ""
  {
    SplitLast("", '.');
  }
}
