/**
 * `canonicalJson` of `product-skill-renderer.ts`: JSON text that depends on a value but not on the
 * order of its keys, against a reader of JSON text (RFC 8259, without insignificant white space).
 */
module CanonicalJson {

  import opened JsonText

  /** Integers that a JavaScript number holds exactly. */
  type SafeInt = n: int | -0x1f_ffff_ffff_ffff <= n <= 0x1f_ffff_ffff_ffff

  /** `Other` is any value that is no JSON value, such as `undefined`, a function or `NaN`. */
  datatype Json =
    | Null
    | Bool(truth: bool)
    | Num(number: SafeInt)
    | Str(text: Text)
    | Arr(items: seq<Json>)
    | Obj(fields: seq<Field>)
    | Other

  datatype Field = Field(key: Text, value: Json)

  /** The text, or the `TypeError` that a value outside JSON throws. */
  datatype Printed = Printed(text: Text) | TypeError

  const NULL: Text := [0x6e, 0x75, 0x6c, 0x6c]
  const TRUE: Text := [0x74, 0x72, 0x75, 0x65]
  const FALSE: Text := [0x66, 0x61, 0x6c, 0x73, 0x65]
  const COMMA: Unit := 0x2c
  const COLON: Unit := 0x3a
  const OPEN_ARRAY: Unit := 0x5b
  const CLOSE_ARRAY: Unit := 0x5d
  const OPEN_OBJECT: Unit := 0x7b
  const CLOSE_OBJECT: Unit := 0x7d

  // The printer

  function Number(n: int): Text {
    if n < 0 then [MINUS] + Digits(-n) else Digits(n)
  }

  /** A key and the canonical text of its value. */
  datatype Member = Member(key: Text, text: Text)

  /** Comparison by code unit, as `sort()` compares keys. */
  predicate Less(a: Text, b: Text) {
    b != [] && (a == [] || a[0] < b[0] || (a[0] == b[0] && Less(a[1..], b[1..])))
  }

  function Join(texts: seq<Text>): Text {
    if texts == [] then []
    else if |texts| == 1 then texts[0]
    else texts[0] + [COMMA] + Join(texts[1..])
  }

  function Insert<T>(key: T -> Text, x: T, xs: seq<T>): seq<T> {
    if xs == [] || Less(key(x), key(xs[0])) then [x] + xs
    else [xs[0]] + Insert(key, x, xs[1..])
  }

  /** `xs` by their keys. */
  function Sort<T>(key: T -> Text, xs: seq<T>): seq<T> {
    if xs == [] then [] else Insert(key, xs[0], Sort(key, xs[1..]))
  }

  function MemberKey(): Member -> Text {
    (m: Member) => m.key
  }

  function MemberText(m: Member): Text {
    Quote(m.key) + [COLON] + m.text
  }

  function MemberTexts(ms: seq<Member>): seq<Text> {
    if ms == [] then [] else [MemberText(ms[0])] + MemberTexts(ms[1..])
  }

  /** `canonicalJson`. */
  function Canonical(v: Json): Printed
    decreases v
  {
    match v
    case Null => Printed(NULL)
    case Bool(truth) => Printed(if truth then TRUE else FALSE)
    case Num(n) => Printed(Number(n))
    case Str(s) => Printed(Quote(s))
    case Arr(items) =>
      (match CanonicalItems(items)
       case None => TypeError
       case Some(texts) => Printed([OPEN_ARRAY] + Join(texts) + [CLOSE_ARRAY]))
    case Obj(fields) =>
      (match CanonicalFields(fields)
       case None => TypeError
       case Some(ms) => Printed([OPEN_OBJECT] + Join(MemberTexts(Sort(MemberKey(), ms))) + [CLOSE_OBJECT]))
    case Other => TypeError
  }

  /** None as soon as one item throws. */
  function CanonicalItems(items: seq<Json>): Option<seq<Text>>
    decreases items
  {
    if items == [] then Some([])
    else
      match (Canonical(items[0]), CanonicalItems(items[1..]))
      case (Printed(text), Some(texts)) => Some([text] + texts)
      case _ => None
  }

  function CanonicalFields(fields: seq<Field>): Option<seq<Member>>
    decreases fields
  {
    if fields == [] then Some([])
    else
      match (Canonical(fields[0].value), CanonicalFields(fields[1..]))
      case (Printed(text), Some(ms)) => Some([Member(fields[0].key, text)] + ms)
      case _ => None
  }

  // Plain JSON text, with the fields in the order they come

  /** A JSON value through and through. */
  predicate Plain(v: Json)
    decreases v
  {
    match v
    case Arr(items) => forall k | 0 <= k < |items| :: Plain(items[k])
    case Obj(fields) => forall k | 0 <= k < |fields| :: Plain(fields[k].value)
    case Other => false
    case _ => true
  }

  function Print(v: Json): Text
    decreases v
  {
    match v
    case Null => NULL
    case Bool(truth) => if truth then TRUE else FALSE
    case Num(n) => Number(n)
    case Str(s) => Quote(s)
    case Arr(items) => [OPEN_ARRAY] + PrintItems(items) + [CLOSE_ARRAY]
    case Obj(fields) => [OPEN_OBJECT] + PrintFields(fields) + [CLOSE_OBJECT]
    case Other => []
  }

  function PrintItems(items: seq<Json>): Text
    decreases items
  {
    if items == [] then []
    else if |items| == 1 then Print(items[0])
    else Print(items[0]) + [COMMA] + PrintItems(items[1..])
  }

  function PrintFields(fields: seq<Field>): Text
    decreases fields
  {
    if fields == [] then []
    else
      var first := Quote(fields[0].key) + [COLON] + Print(fields[0].value);
      if |fields| == 1 then first else first + [COMMA] + PrintFields(fields[1..])
  }

  // The reader

  predicate Starts(t: Text, word: Text) {
    |word| <= |t| && t[..|word|] == word
  }

  function Read(t: Text): (r: Option<Parsed<Json>>)
    ensures r.Some? ==> |r.value.rest| < |t|
    decreases |t|, 0
  {
    if t == [] then None
    else if Starts(t, NULL) then Some(Parsed(Null, t[4..]))
    else if Starts(t, TRUE) then Some(Parsed(Bool(true), t[4..]))
    else if Starts(t, FALSE) then Some(Parsed(Bool(false), t[5..]))
    else if t[0] == QUOTE then
      match ReadString(t[1..])
      case None => None
      case Some(s) => Some(Parsed(Str(s.value), s.rest))
    else if t[0] == OPEN_ARRAY then
      if |t| >= 2 && t[1] == CLOSE_ARRAY then Some(Parsed(Arr([]), t[2..]))
      else
        match ReadItems(t[1..])
        case None => None
        case Some(items) => Some(Parsed(Arr(items.value), items.rest))
    else if t[0] == OPEN_OBJECT then
      if |t| >= 2 && t[1] == CLOSE_OBJECT then Some(Parsed(Obj([]), t[2..]))
      else
        match ReadFields(t[1..])
        case None => None
        case Some(fields) => Some(Parsed(Obj(fields.value), fields.rest))
    else ReadNumber(t)
  }

  function ReadNumber(t: Text): (r: Option<Parsed<Json>>)
    requires t != []
    ensures r.Some? ==> |r.value.rest| < |t|
  {
    match ReadDigits(if t[0] == MINUS then t[1..] else t)
    case None => None
    case Some(digits) =>
      var n: int := digits.value;
      var n := if t[0] == MINUS then -n else n;
      if -0x1f_ffff_ffff_ffff <= n <= 0x1f_ffff_ffff_ffff then Some(Parsed(Num(n), digits.rest)) else None
  }

  /** The items of an array behind its opening bracket, up to and with the closing one. */
  function ReadItems(t: Text): (r: Option<Parsed<seq<Json>>>)
    ensures r.Some? ==> |r.value.rest| < |t|
    decreases |t|, 1
  {
    match Read(t)
    case None => None
    case Some(first) =>
      if first.rest == [] then None
      else if first.rest[0] == CLOSE_ARRAY then Some(Parsed([first.value], first.rest[1..]))
      else if first.rest[0] != COMMA then None
      else
        match ReadItems(first.rest[1..])
        case None => None
        case Some(more) => Some(Parsed([first.value] + more.value, more.rest))
  }

  /** One field: a quoted key, a colon and a value. */
  function ReadField(t: Text): (r: Option<Parsed<Field>>)
    ensures r.Some? ==> |r.value.rest| < |t|
    decreases |t|, 1
  {
    if t == [] || t[0] != QUOTE then None
    else
      match ReadString(t[1..])
      case None => None
      case Some(key) =>
        if key.rest == [] || key.rest[0] != COLON then None
        else
          match Read(key.rest[1..])
          case None => None
          case Some(value) => Some(Parsed(Field(key.value, value.value), value.rest))
  }

  function ReadFields(t: Text): (r: Option<Parsed<seq<Field>>>)
    ensures r.Some? ==> |r.value.rest| < |t|
    decreases |t|, 2
  {
    match ReadField(t)
    case None => None
    case Some(first) =>
      if first.rest == [] then None
      else if first.rest[0] == CLOSE_OBJECT then Some(Parsed([first.value], first.rest[1..]))
      else if first.rest[0] != COMMA then None
      else
        match ReadFields(first.rest[1..])
        case None => None
        case Some(more) => Some(Parsed([first.value] + more.value, more.rest))
  }
}
