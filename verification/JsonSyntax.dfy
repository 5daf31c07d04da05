/** The characters of JSON text (sections 2 to 7 of RFC 8259), and the order of keys in canonical text. */
module JsonSyntax {

  import opened JsonText
  import opened CanonicalJson
  import opened CanonicalJsonOrder
  import opened JsonBytes
  import opened Encodings

  lemma Words()
    ensures Print(Null) == Ascii("null") && Print(Bool(true)) == Ascii("true") && Print(Bool(false)) == Ascii("false")
    ensures Print(Arr([])) == Ascii("[]") && Print(Obj([])) == Ascii("{}")
  {
  }

  /** Items stand between brackets, with commas between them. */
  lemma ArrayText(x: Json, y: Json, more: seq<Json>)
    ensures Print(Arr([x])) == Ascii("[") + Print(x) + Ascii("]")
    ensures PrintItems([x, y] + more) == Print(x) + Ascii(",") + PrintItems([y] + more)
    ensures Print(Arr([x, y] + more)) == Ascii("[") + PrintItems([x, y] + more) + Ascii("]")
  {
    assert ([x, y] + more)[1..] == [y] + more;
    assert Ascii("[") == [OPEN_ARRAY] && Ascii("]") == [CLOSE_ARRAY] && Ascii(",") == [COMMA];
  }

  /** Fields stand between braces: quoted key, colon and value, with commas between them. */
  lemma ObjectText(f: Field, g: Field, more: seq<Field>)
    ensures Print(Obj([f])) == Ascii("{") + (Ascii("\"") + Escaped(f.key) + Ascii("\"") + Ascii(":") + Print(f.value)) + Ascii("}")
    ensures PrintFields([f, g] + more) == Print1(f) + Ascii(",") + PrintFields([g] + more)
    ensures Print(Obj([f, g] + more)) == Ascii("{") + PrintFields([f, g] + more) + Ascii("}")
    ensures Print(Str(f.key)) == Ascii("\"") + Escaped(f.key) + Ascii("\"")
  {
    assert ([f, g] + more)[1..] == [g] + more;
    assert Ascii("{") == [OPEN_OBJECT] && Ascii("}") == [CLOSE_OBJECT] && Ascii(",") == [COMMA];
    assert Ascii("\"") == [QUOTE] && Ascii(":") == [COLON];
  }

  function Print1(f: Field): Text {
    Ascii("\"") + Escaped(f.key) + Ascii("\"") + Ascii(":") + Print(f.value)
  }

  /** Numbers are decimal, with a minus sign when negative. */
  lemma NumberText(n: int)
    requires n >= 0
    ensures n > 0 ==> Number(-n) == Ascii("-") + Number(n)
    ensures n < 10 ==> Number(n) == [0x30 + n]
    ensures n >= 10 ==> Number(n) == Number(n / 10) + [0x30 + n % 10]
  {
    assert Ascii("-") == [MINUS];
  }

  // Escapes: section 7

  lemma ShortEscapes()
    ensures Escape(0x08) == Ascii("\\b") && Escape(0x09) == Ascii("\\t") && Escape(0x0a) == Ascii("\\n")
    ensures Escape(0x0c) == Ascii("\\f") && Escape(0x0d) == Ascii("\\r")
    ensures Escape(0x22) == Ascii("\\\"") && Escape(0x5c) == Ascii("\\\\")
  {
  }

  predicate NeedsUnicode(u: Unit) {
    (u < 0x20 && u !in {0x08, 0x09, 0x0a, 0x0c, 0x0d}) || 0xd800 <= u < 0xe000
  }

  /** Other control characters and stray surrogates are four hexadecimal digits, high one first; the rest stands for itself. */
  lemma LongEscapes(u: Unit)
    requires u !in {0x08, 0x09, 0x0a, 0x0c, 0x0d, 0x22, 0x5c}
    ensures !NeedsUnicode(u) ==> Escape(u) == [u]
    ensures NeedsUnicode(u) ==>
              Escape(u) == Ascii("\\u") + [HEX[u / 0x1000] as int, HEX[u / 0x100 % 16] as int, HEX[u / 0x10 % 16] as int, HEX[u % 16] as int]
  {
    HexDigitIs(u / 0x1000);
    HexDigitIs(u / 0x100 % 16);
    HexDigitIs(u / 0x10 % 16);
    HexDigitIs(u % 16);
    assert Ascii("\\u") == [BACKSLASH, LOWER_U];
  }

  /** Strings are escaped unit by unit, except that a pair of surrogates stands for itself. */
  lemma StringText(u: Unit, low: Unit, rest: Text)
    ensures !StartsWithPair([u] + rest) ==> Escaped([u] + rest) == Escape(u) + Escaped(rest)
    ensures 0xd800 <= u < 0xdc00 <= low < 0xe000 ==> Escaped([u, low] + rest) == [u, low] + Escaped(rest)
  {
    assert ([u] + rest)[1..] == rest && ([u, low] + rest)[2..] == rest;
  }

  // The order of keys

  /** At the first place where the texts differ, `a` has the smaller unit or has ended. */
  ghost predicate ComesFirst(a: Text, b: Text) {
    exists k :: ComesFirstAt(a, b, k)
  }

  predicate ComesFirstAt(a: Text, b: Text, k: int) {
    0 <= k <= |a| && k < |b| && a[..k] == b[..k] && (k == |a| || a[k] < b[k])
  }

  lemma {:induction false} LessIsFirst(a: Text, b: Text)
    ensures Less(a, b) <==> ComesFirst(a, b)
  {
    if a != [] && b != [] && a[0] == b[0] {
      LessIsFirst(a[1..], b[1..]);
      if k :| ComesFirstAt(a, b, k) {
        assert a[..k][0..][..k] == b[..k];
        if k > 0 {
          assert a[1..][..k - 1] == a[..k][1..] && b[1..][..k - 1] == b[..k][1..];
          assert ComesFirstAt(a[1..], b[1..], k - 1);
        }
      }
      if k :| ComesFirstAt(a[1..], b[1..], k) {
        assert a[..k + 1] == [a[0]] + a[1..][..k] && b[..k + 1] == [b[0]] + b[1..][..k];
        assert ComesFirstAt(a, b, k + 1);
      }
    } else {
      DiffersAtOnce(a, b);
    }
  }

  lemma DiffersAtOnce(a: Text, b: Text)
    requires a == [] || b == [] || a[0] != b[0]
    ensures Less(a, b) <==> ComesFirst(a, b)
  {
    if Less(a, b) {
      assert ComesFirstAt(a, b, 0);
    }
    if k :| ComesFirstAt(a, b, k) {
      if k > 0 {
        assert a[..k][0] == a[0] && b[..k][0] == b[0];
      }
    }
  }

  /** In canonical text the keys of an object rise, unit by unit. */
  lemma KeysRise(fields: seq<Field>)
    requires WellKeyed(Obj(fields)) && Plain(Obj(fields))
    ensures Normal(Obj(fields)).Obj? && |Normal(Obj(fields)).fields| == |fields|
    ensures forall i, j | 0 <= i < j < |fields| ::
              ComesFirst(Normal(Obj(fields)).fields[i].key, Normal(Obj(fields)).fields[j].key)
    ensures Canonical(Obj(fields)) == Printed(Print(Normal(Obj(fields))))
  {
    var sorted := Sort(FieldKey(), NormalFields(fields));
    CanonicalIsNormal(Obj(fields));
    NormalKeysDistinct(fields);
    SortIncreasing(FieldKey(), NormalFields(fields));
    SortElements(FieldKey(), NormalFields(fields));
    assert |sorted| == |multiset(sorted)| == |fields|;
    forall i, j | 0 <= i < j < |fields|
      ensures ComesFirst(sorted[i].key, sorted[j].key)
    {
      assert FieldKey()(sorted[i]) == sorted[i].key && FieldKey()(sorted[j]) == sorted[j].key;
      LessIsFirst(sorted[i].key, sorted[j].key);
    }
  }
}
