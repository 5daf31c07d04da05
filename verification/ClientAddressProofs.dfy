/** Two ways to write an IPv6 address fall into one bucket exactly when they denote the same eight groups. */
module ClientAddressProofs {

  import opened TextSearch
  import opened ClientAddress

  // Colons

  /** No colon at either end, and no two in a row. */
  predicate Tidy(s: string) {
    && (s != "" ==> s[0] != ':' && s[|s| - 1] != ':')
    && forall k | 0 <= k < |s| - 1 :: s[k] != ':' || s[k + 1] != ':'
  }

  predicate Colonless(parts: seq<string>) {
    forall k | 0 <= k < |parts| :: parts[k] != "" && ':' !in parts[k]
  }

  lemma TidyAppend(part: string, rest: string)
    requires part != "" && ':' !in part && rest != "" && Tidy(rest)
    ensures Tidy(part + [':'] + rest)
  {
    var s := part + [':'] + rest;
    forall k | 0 <= k < |s| - 1
      ensures s[k] != ':' || s[k + 1] != ':'
    {
      if k < |part| {
        assert s[k] == part[k];
      } else if k > |part| {
        assert s[k] == rest[k - |part| - 1] && s[k + 1] == rest[k - |part|];
      }
    }
    assert s[0] == part[0];
  }

  lemma {:induction false} JoinTidy(parts: seq<string>)
    requires Colonless(parts)
    ensures Tidy(Join(parts, ':')) && (parts != [] ==> Join(parts, ':') != "")
  {
    if |parts| == 1 {
      assert parts[0][0] in parts[0] && parts[0][|parts[0]| - 1] in parts[0];
      forall k | 0 <= k < |parts[0]|
        ensures parts[0][k] != ':'
      {
        assert parts[0][k] in parts[0];
      }
    } else if parts != [] {
      JoinTidy(parts[1..]);
      TidyAppend(parts[0], Join(parts[1..], ':'));
    }
  }

  lemma ColonsAt(s: string, i: int)
    requires Occurs(s, "::", i)
    ensures s[i] == ':' && s[i + 1] == ':'
  {
    assert s[i] == s[i..i + 2][0] && s[i + 1] == s[i..i + 2][1];
  }

  lemma NoGap(s: string)
    requires Tidy(s)
    ensures Find(s, "::", 0) == -1
  {
    FindIsFirst(s, "::", 0);
    var at := Find(s, "::", 0);
    if at >= 0 {
      ColonsAt(s, at);
    }
  }

  lemma GapChars(x: string, y: string, s: string)
    requires s == x + "::" + y
    ensures |s| == |x| + 2 + |y|
    ensures forall k | 0 <= k < |x| :: s[k] == x[k]
    ensures forall k | |x| + 2 <= k < |s| :: s[k] == y[k - |x| - 2]
    ensures Occurs(s, "::", |x|)
    ensures s[..|x|] == x && s[|x| + 2..] == y
  {
    assert s[|x|..|x| + 2] == "::";
  }

  lemma GapPlace(x: string, y: string, s: string, i: int)
    requires Tidy(x) && Tidy(y) && s == x + "::" + y && Occurs(s, "::", i)
    ensures i == |x|
  {
    GapChars(x, y, s);
    ColonsAt(s, i);
  }

  lemma FirstGap(x: string, y: string, s: string)
    requires Tidy(x) && Tidy(y) && s == x + "::" + y
    ensures Find(s, "::", 0) == |x|
  {
    GapChars(x, y, s);
    forall i | 0 <= i < |x|
      ensures !Occurs(s, "::", i)
    {
      if Occurs(s, "::", i) {
        GapPlace(x, y, s, i);
      }
    }
    FoundFirst(s, "::", 0, |x|);
  }

  lemma NoSecondGap(x: string, y: string, s: string)
    requires Tidy(x) && Tidy(y) && s == x + "::" + y
    ensures Find(s, "::", |x| + 2) == -1
  {
    FindIsFirst(s, "::", |x| + 2);
    var at := Find(s, "::", |x| + 2);
    if at >= 0 {
      GapPlace(x, y, s, at);
    }
  }

  // Case

  lemma LowerAppend(a: string, b: string)
    ensures LowerAll(a + b) == LowerAll(a) + LowerAll(b)
  {
  }

  lemma {:induction false} LowerJoin(parts: seq<string>)
    ensures LowerAll(Join(parts, ':')) == Join(Map(LowerAll, parts), ':')
  {
    if |parts| > 1 {
      LowerJoin(parts[1..]);
      LowerAppend(parts[0] + [':'], Join(parts[1..], ':'));
      LowerAppend(parts[0], [':']);
      assert Map(LowerAll, parts)[1..] == Map(LowerAll, parts[1..]);
      assert LowerAll([':']) == [':'];
    }
  }

  lemma LowerHex(c: char)
    requires IsHex(c)
    ensures IsHex(Lower(c)) && HexDigit(Lower(c)) == HexDigit(c) && Lower(c) != ':'
  {
    if 'A' <= c <= 'F' {
      assert Lower(c) as int == c as int + 32;
    }
  }

  lemma {:induction false} LowerValue(s: string)
    requires forall k | 0 <= k < |s| :: IsHex(s[k])
    ensures ParseHex(LowerAll(s)) == ParseHex(s)
  {
    if s != "" {
      LowerHex(s[|s| - 1]);
      LowerValue(s[..|s| - 1]);
      assert LowerAll(s)[..|s| - 1] == LowerAll(s[..|s| - 1]);
    }
  }

  lemma LowerGroup(g: string)
    requires IsGroup(g)
    ensures LowerAll(g) != "" && ':' !in LowerAll(g) && Expand(LowerAll(g)) == Decimal(ParseHex(g))
  {
    LowerValue(g);
    forall k | 0 <= k < |g|
      ensures LowerAll(g)[k] != ':'
    {
      LowerHex(g[k]);
    }
  }

  lemma LowerGroups(groups: seq<string>)
    requires AreGroups(groups)
    ensures Colonless(Map(LowerAll, groups))
    ensures forall k | 0 <= k < |groups| :: Expand(LowerAll(groups[k])) == Decimal(ParseHex(groups[k]))
  {
    forall k | 0 <= k < |groups|
      ensures LowerAll(groups[k]) != "" && ':' !in LowerAll(groups[k])
      ensures Expand(LowerAll(groups[k])) == Decimal(ParseHex(groups[k]))
    {
      LowerGroup(groups[k]);
    }
  }

  // The normal form

  function Decimals(words: seq<nat>): (r: seq<string>)
    ensures |r| == |words|
  {
    seq(|words|, k requires 0 <= k < |words| => Decimal(words[k]))
  }

  function Printed(words: seq<nat>): string {
    Join(Decimals(words), ':')
  }

  lemma SplitGroups(groups: seq<string>)
    requires Colonless(groups)
    ensures GroupsOf(Join(groups, ':')) == groups
    ensures groups != [] ==> Split(Join(groups, ':'), ':') == groups
  {
    JoinTidy(groups);
    if groups != [] {
      SplitOfJoin(groups, ':');
    }
  }

  lemma NormalizeFull(groups: seq<string>)
    requires Valid(Full(groups))
    ensures Normalize(Render(Full(groups))) == Printed(Words(Full(groups)))
  {
    var lower := Map(LowerAll, groups);
    LowerGroups(groups);
    LowerJoin(groups);
    JoinTidy(lower);
    NoGap(Join(lower, ':'));
    SplitGroups(lower);
    assert Map(Expand, lower) == Decimals(Words(Full(groups)));
  }

  lemma ZeroExpands()
    ensures Expand("0") == Decimal(0)
  {
    assert ParseHex("0") == 16 * ParseHex("0"[..0]) + HexDigit('0');
  }

  lemma ZerosExpand(n: int, k: nat)
    requires k < |Zeros(n)|
    ensures Expand(Zeros(n)[k]) == Decimal(0)
  {
    assert Zeros(n)[k] in Zeros(n);
    ZeroExpands();
  }

  lemma ExpandsToDecimals(groups: seq<string>)
    requires AreGroups(groups)
    ensures Map(Expand, Map(LowerAll, groups)) == Decimals(Values(groups))
  {
    LowerGroups(groups);
  }

  lemma ZerosToDecimals(n: nat)
    ensures Map(Expand, Zeros(n)) == Decimals(ZeroWords(n))
  {
    forall k | 0 <= k < n
      ensures Expand(Zeros(n)[k]) == Decimal(0)
    {
      ZerosExpand(n, k);
    }
  }

  lemma MapOfThree(f: string -> string, a: seq<string>, b: seq<string>, c: seq<string>)
    ensures Map(f, a + b + c) == Map(f, a) + Map(f, b) + Map(f, c)
  {
  }

  lemma DecimalsOfThree(a: seq<nat>, b: seq<nat>, c: seq<nat>)
    ensures Decimals(a + b + c) == Decimals(a) + Decimals(b) + Decimals(c)
  {
  }

  lemma FilledIsPrinted(left: seq<string>, right: seq<string>, ls: seq<string>, rs: seq<string>)
    requires Valid(Compressed(left, right)) && ls == Map(LowerAll, left) && rs == Map(LowerAll, right)
    ensures Filled(ls, rs) == Printed(Words(Compressed(left, right)))
  {
    var n := 8 - |left| - |right|;
    ExpandsToDecimals(left);
    ExpandsToDecimals(right);
    ZerosToDecimals(n);
    MapOfThree(Expand, ls, Zeros(n), rs);
    DecimalsOfThree(Values(left), ZeroWords(n), Values(right));
  }

  lemma NormalizeAt(address: string, lower: string, at: nat)
    requires lower == LowerAll(address) && at + 2 <= |lower|
    ensures Find(lower, "::", 0) == at && Find(lower, "::", at + 2) == -1 ==>
              Normalize(address) == Filled(GroupsOf(lower[..at]), GroupsOf(lower[at + 2..]))
  {
  }

  lemma NormalizeGap(address: string, lower: string, x: string, y: string)
    requires lower == LowerAll(address) && lower == x + "::" + y && Tidy(x) && Tidy(y)
    ensures Normalize(address) == Filled(GroupsOf(x), GroupsOf(y))
  {
    FirstGap(x, y, lower);
    NoSecondGap(x, y, lower);
    GapChars(x, y, lower);
    NormalizeAt(address, lower, |x|);
  }

  lemma LowerCompressed(left: seq<string>, right: seq<string>)
    ensures LowerAll(Render(Compressed(left, right)))
         == Join(Map(LowerAll, left), ':') + "::" + Join(Map(LowerAll, right), ':')
  {
    LowerJoin(left);
    LowerJoin(right);
    LowerAppend(Join(left, ':') + "::", Join(right, ':'));
    LowerAppend(Join(left, ':'), "::");
    assert LowerAll("::") == "::";
  }

  lemma GroupsAgain(groups: seq<string>, ls: seq<string>)
    requires AreGroups(groups) && ls == Map(LowerAll, groups)
    ensures Tidy(Join(ls, ':')) && GroupsOf(Join(ls, ':')) == ls
  {
    LowerGroups(groups);
    JoinTidy(ls);
    SplitGroups(ls);
  }

  lemma NormalizeCompressed(left: seq<string>, right: seq<string>, text: string)
    requires Valid(Compressed(left, right)) && text == Render(Compressed(left, right))
    ensures Normalize(text) == Printed(Words(Compressed(left, right)))
  {
    var ls, rs := Map(LowerAll, left), Map(LowerAll, right);
    GroupsAgain(left, ls);
    GroupsAgain(right, rs);
    LowerCompressed(left, right);
    NormalizeGap(text, LowerAll(text), Join(ls, ':'), Join(rs, ':'));
    FilledIsPrinted(left, right, ls, rs);
  }

  /** Normalizing prints the eight groups in decimal. */
  lemma NormalizeIsPrinted(a: Address)
    requires Valid(a)
    ensures Normalize(Render(a)) == Printed(Words(a))
  {
    match a {
      case Full(groups) => NormalizeFull(groups);
      case Compressed(left, right) => NormalizeCompressed(left, right, Render(a));
    }
  }

  // Decimal text determines the number

  function DecimalValue(s: string): int {
    if s == "" then 0 else 10 * DecimalValue(s[..|s| - 1]) + (s[|s| - 1] as int - '0' as int)
  }

  lemma {:induction false} DecimalRoundTrip(n: nat)
    ensures DecimalValue(Decimal(n)) == n
    ensures forall c | c in Decimal(n) :: IsDecimal(c)
  {
    if n >= 10 {
      DecimalRoundTrip(n / 10);
      assert Decimal(n)[..|Decimal(n)| - 1] == Decimal(n / 10);
    } else {
      assert Decimal(n)[..0] == "";
    }
  }

  lemma DecimalsAreColonless(words: seq<nat>)
    ensures Colonless(Decimals(words))
  {
    forall k | 0 <= k < |words|
      ensures ':' !in Decimals(words)[k]
    {
      DecimalRoundTrip(words[k]);
    }
  }

  lemma PrintedIsInjective(v: seq<nat>, w: seq<nat>)
    requires |v| == |w| && v != [] && Printed(v) == Printed(w)
    ensures v == w
  {
    DecimalsAreColonless(v);
    DecimalsAreColonless(w);
    SplitGroups(Decimals(v));
    SplitGroups(Decimals(w));
    forall k | 0 <= k < |v|
      ensures v[k] == w[k]
    {
      DecimalRoundTrip(v[k]);
      DecimalRoundTrip(w[k]);
      assert Decimals(v)[k] == Decimals(w)[k];
    }
  }

  // Whole texts, with brackets, ports and space around

  /** Hexadecimal digits and colons only. */
  predicate Plain(s: string) {
    forall k | 0 <= k < |s| :: IsHex(s[k]) || s[k] == ':'
  }

  lemma {:induction false} JoinPlain(groups: seq<string>)
    requires AreGroups(groups)
    ensures Plain(Join(groups, ':'))
    ensures groups != [] ==> Join(groups, ':') != ""
  {
    if groups != [] {
      assert IsGroup(groups[0]);
      if |groups| > 1 {
        JoinPlain(groups[1..]);
      }
    }
  }

  lemma RenderPlain(a: Address)
    requires Valid(a)
    ensures Plain(Render(a)) && Render(a) != ""
  {
    match a {
      case Full(groups) => JoinPlain(groups);
      case Compressed(left, right) =>
        JoinPlain(left);
        JoinPlain(right);
    }
  }

  lemma PlainHasNo(s: string, c: char)
    requires Plain(s) && !IsHex(c) && c != ':'
    ensures c !in s
  {
  }

  lemma NotMapped(s: string)
    requires Plain(s)
    ensures Mapped(s).None?
  {
    if |s| > 7 {
      PlainHasNo(s[7..], '.');
      SplitLast(s[7..], '.');
    }
  }

  predicate Spaces(s: string) {
    forall k | 0 <= k < |s| :: IsSpace(s[k])
  }

  lemma {:induction false} TrimsStart(before: string, s: string)
    requires Spaces(before) && s != "" && !IsSpace(s[0])
    ensures TrimStart(before + s) == s
  {
    if before == "" {
      assert before + s == s;
    } else {
      TrimsStart(before[1..], s);
      assert (before + s)[1..] == before[1..] + s;
    }
  }

  lemma {:induction false} TrimsEnd(s: string, after: string)
    requires Spaces(after) && s != "" && !IsSpace(s[|s| - 1])
    ensures TrimEnd(s + after) == s
  {
    if after == "" {
      assert s + after == s;
    } else {
      TrimsEnd(s, after[..|after| - 1]);
      assert (s + after)[..|s + after| - 1] == s + after[..|after| - 1];
    }
  }

  lemma Trimmed(before: string, s: string, after: string)
    requires Spaces(before) && Spaces(after) && s != "" && !IsSpace(s[0]) && !IsSpace(s[|s| - 1])
    ensures TrimEnd(TrimStart(before + s + after)) == s
  {
    assert before + s + after == before + (s + after);
    TrimsStart(before, s + after);
    TrimsEnd(s, after);
  }

  lemma BracketCloses(t: string, port: string)
    requires Plain(t)
    ensures Find("[" + t + "]" + port, "]", 0) == |t| + 1
  {
    FoundCharacter("[" + t + "]" + port, ']', |t| + 1);
  }

  lemma UnbracketsTo(t: string, port: string)
    requires Plain(t) && t != "" && IsPort(port)
    ensures Unbracketed("[" + t + "]" + port) == t
  {
    var s := "[" + t + "]" + port;
    BracketCloses(t, port);
    assert s[|t| + 2..] == port && s[1..|t| + 1] == t;
  }

  /** How an address may be dressed: in brackets, with or without a port, and in white space. */
  datatype Dress = Dress(before: string, brackets: Option<string>, after: string)

  function Bracketed(brackets: Option<string>, t: string): string {
    match brackets
    case None => t
    case Some(port) => "[" + t + "]" + port
  }

  function Dressed(dress: Dress, t: string): string {
    dress.before + Bracketed(dress.brackets, t) + dress.after
  }

  predicate Wearable(dress: Dress) {
    Spaces(dress.before) && Spaces(dress.after) && (dress.brackets.Some? ==> IsPort(dress.brackets.value))
  }

  lemma BracketedEnds(brackets: Option<string>, t: string)
    requires Plain(t) && t != "" && (brackets.Some? ==> IsPort(brackets.value))
    ensures var s := Bracketed(brackets, t); s != "" && !IsSpace(s[0]) && !IsSpace(s[|s| - 1])
  {
  }

  lemma Undressed(brackets: Option<string>, t: string)
    requires Plain(t) && t != "" && (brackets.Some? ==> IsPort(brackets.value))
    ensures Unbracketed(Bracketed(brackets, t)) == t
  {
    match brackets {
      case None => assert t[0] != '[';
      case Some(port) => UnbracketsTo(t, port);
    }
  }

  /** Any way to write an IPv6 address gives its eight groups in decimal. */
  lemma CanonicalIsPrinted(isIP: IsIP, a: Address, dress: Dress)
    requires Valid(a) && isIP(Render(a)) == 6 && Wearable(dress)
    ensures Canonical(isIP, Dressed(dress, Render(a))) == Some(Printed(Words(a)))
  {
    var t := Render(a);
    RenderPlain(a);
    BracketedEnds(dress.brackets, t);
    Trimmed(dress.before, Bracketed(dress.brackets, t), dress.after);
    Undressed(dress.brackets, t);
    NotMapped(t);
    NormalizeIsPrinted(a);
  }

  lemma PrintedHasColon(words: seq<nat>)
    requires |words| >= 2
    ensures ':' in Printed(words)
  {
    var s := Printed(words);
    assert s[|Decimals(words)[0]|] == ':';
  }

  lemma PrintedEqualIff(v: seq<nat>, w: seq<nat>)
    requires |v| == |w| && v != []
    ensures Printed(v) == Printed(w) <==> v == w
  {
    if Printed(v) == Printed(w) {
      PrintedIsInjective(v, w);
    }
  }

  /**
   * Two texts for IPv6 addresses, whatever their case, leading zeros, `::`, brackets, port and space
   * around, have one canonical form exactly when they denote the same eight groups; and it is never
   * that of an IPv4 address.
   */
  lemma OneVisitorOneBucket(isIP: IsIP, a: Address, b: Address, da: Dress, db: Dress, quad: string)
    requires Valid(a) && isIP(Render(a)) == 6 && Wearable(da)
    requires Valid(b) && isIP(Render(b)) == 6 && Wearable(db)
    requires ':' !in quad
    ensures Canonical(isIP, Dressed(da, Render(a))) == Canonical(isIP, Dressed(db, Render(b))) <==> Words(a) == Words(b)
    ensures Canonical(isIP, Dressed(da, Render(a))) != Some(quad)
  {
    CanonicalIsPrinted(isIP, a, da);
    CanonicalIsPrinted(isIP, b, db);
    PrintedHasColon(Words(a));
    PrintedEqualIff(Words(a), Words(b));
  }

  // IPv4

  /** Digits and dots only. */
  predicate Dotted(s: string) {
    s != "" && forall k | 0 <= k < |s| :: IsDecimal(s[k]) || s[k] == '.'
  }

  lemma ColonFound(quad: string, port: string)
    requires Dotted(quad) && IsPort(port) && port != ""
    ensures Find(quad + port, ":", 0) == |quad|
  {
    FoundCharacter(quad + port, ':', |quad|);
  }

  lemma TrimmedBare(s: string)
    requires s != "" && !IsSpace(s[0]) && !IsSpace(s[|s| - 1])
    ensures TrimEnd(TrimStart(s)) == s
  {
    Trimmed("", s, "");
    assert "" + s + "" == s;
  }

  lemma PortDropped(quad: string, port: string)
    requires Dotted(quad) && IsPort(port) && port != ""
    ensures WithoutPort(quad + port) == Some(quad) && Unbracketed(quad + port) == quad + port
  {
    ColonFound(quad, port);
    var s := quad + port;
    assert s[|quad|..] == port && s[..|quad|] == quad && s[0] == quad[0];
  }

  lemma QuadMapped(quad: string)
    requires Dotted(quad) && IsQuad(quad)
    ensures Mapped("::ffff:" + quad) == Some(quad) && Unbracketed("::ffff:" + quad) == "::ffff:" + quad
  {
    var m := "::ffff:" + quad;
    assert m[..7] == "::ffff:" && m[7..] == quad && m[0] == ':';
    assert LowerAll("::ffff:") == "::ffff:";
  }

  /** A port does not make another visitor of an IPv4 address. */
  lemma Ipv4PortIsIgnored(isIP: IsIP, quad: string, port: string)
    requires Dotted(quad) && isIP(quad) == 4 && IsPort(port) && (port != "" ==> isIP(quad + port) == 0)
    ensures Canonical(isIP, quad + port) == Some(quad)
  {
    TrimmedBare(quad + port);
    if port != "" {
      PortDropped(quad, port);
    } else {
      assert quad + port == quad;
      assert Unbracketed(quad) == quad;
    }
  }

  /** Neither does the IPv6 form that wraps it. */
  lemma MappedIsItsIpv4(isIP: IsIP, quad: string)
    requires Dotted(quad) && IsQuad(quad) && isIP(quad) == 4 && isIP("::ffff:" + quad) == 6
    ensures Canonical(isIP, "::ffff:" + quad) == Some(quad)
  {
    TrimmedBare("::ffff:" + quad);
    QuadMapped(quad);
  }

  // Hops

  predicate IsFirst(isIP: IsIP, hops: seq<string>, k: int) {
    && 0 <= k < |hops| && Canonical(isIP, hops[k]).Some?
    && forall j | 0 <= j < k :: Canonical(isIP, hops[j]).None?
  }

  lemma {:induction false} FirstAddressIs(isIP: IsIP, hops: seq<string>, k: nat)
    requires IsFirst(isIP, hops, k)
    ensures FirstAddress(isIP, hops) == Canonical(isIP, hops[k])
  {
    if k > 0 {
      assert Canonical(isIP, hops[0]).None?;
      FirstAddressIs(isIP, hops[1..], k - 1);
    }
  }

  lemma {:induction false} NoAddress(isIP: IsIP, hops: seq<string>)
    ensures FirstAddress(isIP, hops).None? <==> forall hop | hop in hops :: Canonical(isIP, hop).None?
  {
    if hops != [] {
      NoAddress(isIP, hops[1..]);
      assert forall hop :: hop in hops <==> hop == hops[0] || hop in hops[1..];
    }
  }

  /** There is a bucket exactly when some hop parses; hops that do not parse before it and proxies behind it do not matter. */
  lemma BucketIsFirstHop(isIP: IsIP, digest: string -> string, before: seq<string>, hop: string, proxies: seq<string>)
    requires forall s :: |digest(s)| == 64
    requires forall s | s in before + [hop] + proxies :: ',' !in s
    requires forall s | s in before :: Canonical(isIP, s).None?
    requires Canonical(isIP, hop).Some?
    ensures ClientAddressBucket(isIP, digest, Some(Join(before + [hop] + proxies, ',')))
         == Some("ip_" + digest(Canonical(isIP, hop).value)[..32])
  {
    var hops := before + [hop] + proxies;
    SplitOfJoin(hops, ',');
    assert hops[|before|] == hop;
    assert forall j | 0 <= j < |before| :: hops[j] in before;
    FirstAddressIs(isIP, hops, |before|);
  }

  lemma NoBucketIff(isIP: IsIP, digest: string -> string, text: string)
    requires forall s :: |digest(s)| == 64
    ensures ClientAddressBucket(isIP, digest, Some(text)).None? <==> forall hop | hop in Split(text, ',') :: Canonical(isIP, hop).None?
  {
    NoAddress(isIP, Split(text, ','));
  }

  lemma DressedHasNoComma(dress: Dress, t: string)
    requires Plain(t) && Wearable(dress)
    ensures ',' !in Dressed(dress, t)
  {
    PlainHasNo(t, ',');
    assert ',' !in dress.before && ',' !in dress.after;
    if dress.brackets.Some? {
      assert ',' !in dress.brackets.value;
    }
  }

  lemma BucketOfAddress(isIP: IsIP, digest: string -> string, a: Address, dress: Dress, proxies: seq<string>)
    requires forall s :: |digest(s)| == 64
    requires Valid(a) && isIP(Render(a)) == 6 && Wearable(dress) && forall s | s in proxies :: ',' !in s
    ensures ClientAddressBucket(isIP, digest, Some(Join([Dressed(dress, Render(a))] + proxies, ',')))
         == Some("ip_" + digest(Printed(Words(a)))[..32])
  {
    var hop := Dressed(dress, Render(a));
    RenderPlain(a);
    DressedHasNoComma(dress, Render(a));
    CanonicalIsPrinted(isIP, a, dress);
    BucketIsFirstHop(isIP, digest, [], hop, proxies);
    assert [] + [hop] + proxies == [hop] + proxies;
  }

  /**
   * A visitor has one bucket, however the address is written and whatever proxies follow; two visitors
   * share one only when the truncated digests of their printed groups agree.
   */
  lemma VisitorsShareBucketIff(
    isIP: IsIP, digest: string -> string, a: Address, b: Address, da: Dress, db: Dress, pa: seq<string>, pb: seq<string>)
    requires forall s :: |digest(s)| == 64
    requires Valid(a) && isIP(Render(a)) == 6 && Wearable(da) && forall s | s in pa :: ',' !in s
    requires Valid(b) && isIP(Render(b)) == 6 && Wearable(db) && forall s | s in pb :: ',' !in s
    ensures var left := ClientAddressBucket(isIP, digest, Some(Join([Dressed(da, Render(a))] + pa, ',')));
            var right := ClientAddressBucket(isIP, digest, Some(Join([Dressed(db, Render(b))] + pb, ',')));
            && left.Some? && right.Some?
            && (left == right <==>
                  Words(a) == Words(b) || digest(Printed(Words(a)))[..32] == digest(Printed(Words(b)))[..32])
  {
    BucketOfAddress(isIP, digest, a, da, pa);
    BucketOfAddress(isIP, digest, b, db, pb);
    var x, y := digest(Printed(Words(a)))[..32], digest(Printed(Words(b)))[..32];
    assert ("ip_" + x)[3..] == x && ("ip_" + y)[3..] == y;
  }
}
