/** JSON text survives UTF-8, and how long the text of an object is. */
module JsonBytes {

  import opened JsonText
  import opened CanonicalJson
  import opened CanonicalJsonReading
  import Utf8

  lemma EscapeIsWellFormed(u: Unit)
    ensures Utf8.WellFormed(Escape(u))
  {
    Utf8.NoSurrogates(Escape(u));
  }

  /** A stray surrogate is escaped, so an escaped string has none. */
  lemma {:induction false} EscapedIsWellFormed(s: Text)
    ensures Utf8.WellFormed(Escaped(s))
  {
    if s != [] {
      if StartsWithPair(s) {
        EscapedIsWellFormed(s[2..]);
        Utf8.WellFormedAppend([s[0], s[1]], Escaped(s[2..]));
      } else {
        EscapedIsWellFormed(s[1..]);
        EscapeIsWellFormed(s[0]);
        Utf8.WellFormedAppend(Escape(s[0]), Escaped(s[1..]));
      }
    }
  }

  lemma Around(open: Unit, inside: Text, close: Unit)
    requires Utf8.WellFormed(inside) && !Utf8.IsSurrogate(open) && !Utf8.IsSurrogate(close)
    ensures Utf8.WellFormed([open] + inside + [close])
  {
    Utf8.NoSurrogates([open]);
    Utf8.NoSurrogates([close]);
    Utf8.WellFormedAppend([open], inside);
    Utf8.WellFormedAppend([open] + inside, [close]);
  }

  lemma Between(a: Text, mark: Unit, b: Text)
    requires Utf8.WellFormed(a) && !Utf8.IsSurrogate(mark) && Utf8.WellFormed(b)
    ensures Utf8.WellFormed(a + [mark] + b)
  {
    Utf8.NoSurrogates([mark]);
    Utf8.WellFormedAppend(a, [mark]);
    Utf8.WellFormedAppend(a + [mark], b);
  }

  lemma QuoteIsWellFormed(s: Text)
    ensures Utf8.WellFormed(Quote(s))
  {
    EscapedIsWellFormed(s);
    Around(QUOTE, Escaped(s), QUOTE);
  }

  lemma NumberIsWellFormed(n: int)
    ensures Utf8.WellFormed(Number(n))
  {
    DigitsAreDigits(if n < 0 then -n else n);
    Utf8.NoSurrogates(Number(n));
  }

  lemma {:induction false} PrintIsWellFormed(v: Json)
    ensures Utf8.WellFormed(Print(v))
    decreases v
  {
    match v {
      case Num(n) => NumberIsWellFormed(n);
      case Str(s) => QuoteIsWellFormed(s);
      case Arr(items) =>
        ItemsAreWellFormed(items);
        Around(OPEN_ARRAY, PrintItems(items), CLOSE_ARRAY);
      case Obj(fields) =>
        FieldsAreWellFormed(fields);
        Around(OPEN_OBJECT, PrintFields(fields), CLOSE_OBJECT);
      case _ => Utf8.NoSurrogates(Print(v));
    }
  }

  lemma {:induction false} ItemsAreWellFormed(items: seq<Json>)
    ensures Utf8.WellFormed(PrintItems(items))
    decreases items
  {
    if items != [] {
      PrintIsWellFormed(items[0]);
      ItemsAreWellFormed(items[1..]);
      Between(Print(items[0]), COMMA, PrintItems(items[1..]));
    }
  }

  function FieldText(f: Field): Text {
    Quote(f.key) + [COLON] + Print(f.value)
  }

  lemma {:induction false} FieldsAreWellFormed(fields: seq<Field>)
    ensures Utf8.WellFormed(PrintFields(fields))
    decreases fields
  {
    if fields != [] {
      QuoteIsWellFormed(fields[0].key);
      PrintIsWellFormed(fields[0].value);
      FieldsAreWellFormed(fields[1..]);
      Between(Quote(fields[0].key), COLON, Print(fields[0].value));
      Between(FieldText(fields[0]), COMMA, PrintFields(fields[1..]));
    }
  }

  /** Every JSON value comes back from the UTF-8 bytes of its text, stray surrogates in its strings included. */
  lemma BytesReadBack(v: Json)
    requires Plain(v)
    ensures Read(Utf8.Decode(Utf8.Encode(Print(v)))) == Some(Parsed(v, []))
  {
    PrintIsWellFormed(v);
    Utf8.SurvivesIffWellFormed(Print(v));
    ReadsBack(v, []);
    assert Print(v) + [] == Print(v);
  }

  // Lengths

  /** One more field adds a comma, unless it is the first, and its own text. */
  lemma {:induction false} OneFieldMore(fields: seq<Field>, f: Field)
    ensures PrintFields(fields + [f])
         == PrintFields(fields) + (if fields == [] then [] else [COMMA]) + FieldText(f)
    decreases |fields|
  {
    if fields != [] {
      OneFieldMore(fields[1..], f);
      assert (fields + [f])[1..] == fields[1..] + [f];
      var first, rest := FieldText(fields[0]), fields[1..];
      assert rest == [] ==> PrintFields(rest) == [];
      Regroup(first, [COMMA], PrintFields(rest), [COMMA] + FieldText(f));
    }
  }

  /** The characters of some fields, with a comma or brace for each. */
  function Cost(fields: seq<Field>): nat {
    if fields == [] then 0 else Cost(fields[..|fields| - 1]) + |FieldText(fields[|fields| - 1])| + 1
  }

  lemma {:induction false} CostIsLength(fields: seq<Field>)
    ensures |PrintFields(fields)| + (if fields == [] then 0 else 1) == Cost(fields)
  {
    if fields != [] {
      var rest, last := fields[..|fields| - 1], fields[|fields| - 1];
      CostIsLength(rest);
      assert fields == rest + [last];
      OneFieldMore(rest, last);
    }
  }

  /** The length of an object's text. */
  lemma ObjectLength(fields: seq<Field>)
    requires fields != []
    ensures |Print(Obj(fields))| == Cost(fields) + 1
  {
    CostIsLength(fields);
  }

  lemma {:induction false} CostOfOne(fields: seq<Field>, k: nat)
    requires k < |fields|
    ensures Cost(fields) >= |Print(fields[k].value)|
  {
    if k < |fields| - 1 {
      CostOfOne(fields[..|fields| - 1], k);
    }
  }

  predicate IsAscii(t: Text) {
    forall k | 0 <= k < |t| :: t[k] < 0x80
  }

  lemma {:induction false} FieldsAreAscii(fields: seq<Field>)
    requires forall k | 0 <= k < |fields| :: IsAscii(FieldText(fields[k]))
    ensures IsAscii(PrintFields(fields))
  {
    if fields != [] {
      FieldsAreAscii(fields[1..]);
      assert IsAscii(FieldText(fields[0]));
    }
  }

  /** One byte in UTF-8, and no escape in JSON. */
  predicate IsPlainText(s: Text) {
    forall k | 0 <= k < |s| :: 0x20 <= s[k] < 0x7f && s[k] != QUOTE && s[k] != BACKSLASH
  }

  lemma EscapeIsBounded(u: Unit)
    requires u < 0x80
    ensures |Escape(u)| <= 6 && IsAscii(Escape(u))
  {
  }

  /** Escaping makes ASCII text at most six times as long. */
  lemma {:induction false} EscapedIsBounded(s: Text)
    requires IsAscii(s)
    ensures |Escaped(s)| <= 6 * |s| && IsAscii(Escaped(s))
  {
    if s != [] {
      EscapedIsBounded(s[1..]);
      EscapeIsBounded(s[0]);
    }
  }

  lemma {:induction false} PlainIsVerbatim(s: Text)
    requires IsPlainText(s)
    ensures Escaped(s) == s
  {
    if s != [] {
      PlainIsVerbatim(s[1..]);
    }
  }
}
