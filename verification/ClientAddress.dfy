/** `client-address.ts`: one visitor is one bucket, however the address was written. */
module ClientAddress {

  import opened TextSearch

  datatype Option<+T> = Some(value: T) | None

  /** Node's `isIP`: 4, 6, or 0 for no address. */
  type IsIP = string -> int

  // Characters

  predicate IsDecimal(c: char) {
    '0' <= c <= '9'
  }

  predicate IsHex(c: char) {
    IsDecimal(c) || 'a' <= c <= 'f' || 'A' <= c <= 'F'
  }

  function Lower(c: char): char {
    if 'A' <= c <= 'Z' then (c as int + 32) as char else c
  }

  function LowerAll(s: string): (r: string)
    ensures |r| == |s| && forall k | 0 <= k < |s| :: r[k] == Lower(s[k])
  {
    seq(|s|, k requires 0 <= k < |s| => Lower(s[k]))
  }

  function HexDigit(c: char): (n: nat)
    requires IsHex(c)
    ensures n < 16
  {
    if IsDecimal(c) then c as int - '0' as int
    else if 'a' <= c <= 'f' then c as int - 'a' as int + 10
    else c as int - 'A' as int + 10
  }

  /** `Number.parseInt(s, 16)` of a group of hexadecimal digits. */
  function ParseHex(s: string): nat {
    if s == "" || !IsHex(s[|s| - 1]) then 0 else 16 * ParseHex(s[..|s| - 1]) + HexDigit(s[|s| - 1])
  }

  function Decimal(n: nat): (s: string)
    ensures s != ""
  {
    var last := ['0' + (n % 10) as char];
    if n < 10 then last else Decimal(n / 10) + last
  }

  // The program

  /** `expand`. */
  function Expand(group: string): string {
    Decimal(ParseHex(if group == "" then "0" else group))
  }

  function Map(f: string -> string, parts: seq<string>): (r: seq<string>)
    ensures |r| == |parts| && forall k | 0 <= k < |parts| :: r[k] == f(parts[k])
  {
    seq(|parts|, k requires 0 <= k < |parts| => f(parts[k]))
  }

  function Zeros(n: int): (r: seq<string>)
    ensures |r| == if n < 0 then 0 else n
    ensures forall part | part in r :: part == "0"
  {
    if n <= 0 then [] else ["0"] + Zeros(n - 1)
  }

  /** `/^\d{1,3}(?:\.\d{1,3}){3}$/`. */
  predicate IsQuad(s: string) {
    var parts := Split(s, '.');
    |parts| == 4 && forall part | part in parts :: 1 <= |part| <= 3 && forall k | 0 <= k < |part| :: IsDecimal(part[k])
  }

  /** The IPv4 text behind `::ffff:`, in any case. */
  function Mapped(address: string): Option<string> {
    if |address| > 7 && LowerAll(address[..7]) == "::ffff:" && IsQuad(address[7..]) then Some(address[7..]) else None
  }

  function GroupsOf(s: string): seq<string> {
    if s == "" then [] else Split(s, ':')
  }

  /** `normalizeIpv6`. */
  function NormalizeIpv6(isIP: IsIP, address: string): string {
    match Mapped(address)
    case Some(quad) => if isIP(quad) == 4 then quad else Normalize(address)
    case None => Normalize(address)
  }

  /** Both sides of a gap, with the gap filled in. */
  function Filled(left: seq<string>, right: seq<string>): string {
    Join(Map(Expand, left + Zeros(8 - |left| - |right|) + right), ':')
  }

  /** The rest of `normalizeIpv6`: `split('::', 2)` drops what stands behind a second gap. */
  function Normalize(address: string): string {
    var lower := LowerAll(address);
    var at := Find(lower, "::", 0);
    if at < 0 then Join(Map(Expand, Split(lower, ':')), ':')
    else
      var second := Find(lower, "::", at + 2);
      Filled(GroupsOf(lower[..at]), GroupsOf(if second < 0 then lower[at + 2..] else lower[at + 2..second]))
  }

  function TrimStart(s: string): string {
    if s != "" && IsSpace(s[0]) then TrimStart(s[1..]) else s
  }

  /** What may follow a bracketed address: nothing, or a colon and digits. */
  predicate IsPort(s: string) {
    s == "" || (|s| >= 2 && s[0] == ':' && forall k | 1 <= k < |s| :: IsDecimal(s[k]))
  }

  /** The inside of `[...]` or `[...]:port`, or the text itself. */
  function Unbracketed(s: string): string {
    var close := Find(s, "]", 0);
    if close >= 2 && s[0] == '[' && IsPort(s[close + 1..]) then s[1..close] else s
  }

  /** The host of `host:port` with one colon. */
  function WithoutPort(s: string): Option<string> {
    var colon := Find(s, ":", 0);
    if colon >= 1 && colon + 1 < |s| && IsPort(s[colon..]) then Some(s[..colon]) else None
  }

  /** `canonical`. */
  function Canonical(isIP: IsIP, address: string): Option<string> {
    var trimmed := TrimEnd(TrimStart(address));
    if trimmed == "" then None
    else
      var candidate := Unbracketed(trimmed);
      if isIP(candidate) == 6 then Some(NormalizeIpv6(isIP, candidate))
      else if isIP(candidate) == 4 then Some(candidate)
      else
        match WithoutPort(candidate)
        case None => None
        case Some(host) => if isIP(host) == 4 then Some(host) else None
  }

  /** The loop over the hops of `clientAddressBucket`: the first one that parses. */
  function FirstAddress(isIP: IsIP, hops: seq<string>): Option<string> {
    if hops == [] then None
    else
      match Canonical(isIP, hops[0])
      case Some(address) => Some(address)
      case None => FirstAddress(isIP, hops[1..])
  }

  /** `clientAddressBucket`; `digest` is SHA-256 in hexadecimal. */
  function ClientAddressBucket(isIP: IsIP, digest: string -> string, forwarded: Option<string>): Option<string>
    requires forall s :: |digest(s)| == 64
  {
    match forwarded
    case None => None
    case Some(text) =>
      match FirstAddress(isIP, Split(text, ','))
      case None => None
      case Some(address) => Some("ip_" + digest(address)[..32])
  }

  // Section 2.2 of RFC 4291: forms 1 and 2, with hexadecimal groups only

  /** One to four hexadecimal digits. */
  predicate IsGroup(s: string) {
    1 <= |s| <= 4 && forall k | 0 <= k < |s| :: IsHex(s[k])
  }

  predicate AreGroups(groups: seq<string>) {
    forall g | g in groups :: IsGroup(g)
  }

  /** Eight groups, or fewer around a `::` that stands for at least one zero group. */
  datatype Address = Full(groups: seq<string>) | Compressed(left: seq<string>, right: seq<string>)

  predicate Valid(a: Address) {
    match a
    case Full(groups) => |groups| == 8 && AreGroups(groups)
    case Compressed(left, right) => |left| + |right| <= 7 && AreGroups(left) && AreGroups(right)
  }

  function Render(a: Address): string {
    match a
    case Full(groups) => Join(groups, ':')
    case Compressed(left, right) => Join(left, ':') + "::" + Join(right, ':')
  }

  function Values(groups: seq<string>): (r: seq<nat>)
    ensures |r| == |groups| && forall k | 0 <= k < |groups| :: r[k] == ParseHex(groups[k])
  {
    seq(|groups|, k requires 0 <= k < |groups| => ParseHex(groups[k]))
  }

  function ZeroWords(n: nat): (r: seq<nat>)
    ensures |r| == n && forall k | 0 <= k < n :: r[k] == 0
  {
    seq(n, _ => 0)
  }

  /** The eight 16-bit groups that a text stands for. */
  function Words(a: Address): (words: seq<nat>)
    requires Valid(a)
    ensures |words| == 8
  {
    match a
    case Full(groups) => Values(groups)
    case Compressed(left, right) => Values(left) + ZeroWords(8 - |left| - |right|) + Values(right)
  }
}
