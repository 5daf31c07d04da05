/** Plain JSON text reads back to the value it was printed from. */
module CanonicalJsonReading {

  import opened JsonText
  import opened CanonicalJson

  lemma StartsFirst(t: Text, word: Text)
    requires word != [] && Starts(t, word)
    ensures t != [] && t[0] == word[0]
  {
    assert t[..|word|][0] == t[0];
  }

  lemma NoWord(t: Text)
    requires t != [] && t[0] != 0x6e && t[0] != 0x74 && t[0] != 0x66
    ensures !Starts(t, NULL) && !Starts(t, TRUE) && !Starts(t, FALSE)
  {
    if Starts(t, NULL) {
      StartsFirst(t, NULL);
    }
    if Starts(t, TRUE) {
      StartsFirst(t, TRUE);
    }
    if Starts(t, FALSE) {
      StartsFirst(t, FALSE);
    }
  }

  lemma WordStarts(word: Text, rest: Text)
    ensures Starts(word + rest, word) && (word + rest)[|word|..] == rest
  {
  }

  lemma ReadsWords(rest: Text)
    ensures Read(NULL + rest) == Some(Parsed(Null, rest))
    ensures Read(TRUE + rest) == Some(Parsed(Bool(true), rest))
    ensures Read(FALSE + rest) == Some(Parsed(Bool(false), rest))
  {
    WordStarts(NULL, rest);
    WordStarts(TRUE, rest);
    WordStarts(FALSE, rest);
    if Starts(TRUE + rest, NULL) {
      StartsFirst(TRUE + rest, NULL);
    }
    if Starts(FALSE + rest, NULL) {
      StartsFirst(FALSE + rest, NULL);
    }
    if Starts(FALSE + rest, TRUE) {
      StartsFirst(FALSE + rest, TRUE);
    }
  }

  lemma ReadsQuoted(s: Text, rest: Text)
    ensures (Quote(s) + rest)[0] == QUOTE
    ensures ReadString((Quote(s) + rest)[1..]) == Some(Parsed(s, rest))
  {
    var after := [QUOTE] + rest;
    assert after[1..] == rest;
    ReadsEscaped(s, after, rest);
    assert (Quote(s) + rest)[1..] == Escaped(s) + after;
  }

  lemma ReadsText(s: Text, rest: Text)
    ensures Read(Quote(s) + rest) == Some(Parsed(Str(s), rest))
  {
    ReadsQuoted(s, rest);
    NoWord(Quote(s) + rest);
  }

  lemma DigitsStart(n: nat)
    ensures IsDigit(Digits(n)[0])
  {
    DigitsAreDigits(n);
  }

  lemma ReadsAsNumber(t: Text)
    requires t != [] && (IsDigit(t[0]) || t[0] == MINUS)
    ensures Read(t) == ReadNumber(t)
  {
    NoWord(t);
  }

  lemma ReadsNatural(n: SafeInt, digits: Text, rest: Text)
    requires n >= 0 && NoDigit(rest) && digits == Digits(n)
    ensures Read(digits + rest) == Some(Parsed(Num(n), rest))
  {
    ReadsDigits(n, rest);
    DigitsStart(n);
    ReadsAsNumber(digits + rest);
  }

  lemma ReadsNegative(n: SafeInt, digits: Text, rest: Text)
    requires n < 0 && NoDigit(rest) && digits == Digits(-n)
    ensures Read([MINUS] + (digits + rest)) == Some(Parsed(Num(n), rest))
  {
    ReadsDigits(-n, rest);
    assert ([MINUS] + (digits + rest))[1..] == digits + rest;
    ReadsAsNumber([MINUS] + (digits + rest));
  }

  lemma ReadsNumber(n: SafeInt, rest: Text)
    requires NoDigit(rest)
    ensures Read(Number(n) + rest) == Some(Parsed(Num(n), rest))
  {
    if n < 0 {
      ReadsNegative(n, Digits(-n), rest);
      Regroup([], [MINUS], Digits(-n), rest);
      assert Number(n) + rest == [MINUS] + (Digits(-n) + rest);
    } else {
      ReadsNatural(n, Digits(n), rest);
    }
  }

  lemma Regroup(a: Text, b: Text, c: Text, d: Text)
    ensures a + b + c + d == a + (b + (c + d))
  {
  }

  // Arrays

  lemma ReadsLastItem(t: Text, v: Json, after: Text, rest: Text)
    requires Read(t) == Some(Parsed(v, after)) && after != [] && after[0] == CLOSE_ARRAY && after[1..] == rest
    ensures ReadItems(t) == Some(Parsed([v], rest))
  {
  }

  lemma ReadsFirstItem(t: Text, v: Json, tail: Text, vs: seq<Json>, rest: Text)
    requires Read(t) == Some(Parsed(v, [COMMA] + tail)) && ReadItems(tail) == Some(Parsed(vs, rest))
    ensures ReadItems(t) == Some(Parsed([v] + vs, rest))
  {
    assert ([COMMA] + tail)[1..] == tail;
  }

  lemma ReadsArray(t: Text, items: seq<Json>, rest: Text)
    requires t != [] && t[0] != CLOSE_ARRAY && ReadItems(t) == Some(Parsed(items, rest))
    ensures Read([OPEN_ARRAY] + t) == Some(Parsed(Arr(items), rest))
  {
    assert ([OPEN_ARRAY] + t)[1..] == t;
    NoWord([OPEN_ARRAY] + t);
  }

  lemma ReadsEmptyArray(rest: Text)
    ensures Read([OPEN_ARRAY, CLOSE_ARRAY] + rest) == Some(Parsed(Arr([]), rest))
  {
    assert ([OPEN_ARRAY, CLOSE_ARRAY] + rest)[2..] == rest;
    NoWord([OPEN_ARRAY, CLOSE_ARRAY] + rest);
  }

  // Objects

  lemma ReadsOneField(key: Text, valueText: Text, value: Json, after: Text)
    requires Read(valueText) == Some(Parsed(value, after))
    ensures ReadField(Quote(key) + ([COLON] + valueText)) == Some(Parsed(Field(key, value), after))
  {
    ReadsQuoted(key, [COLON] + valueText);
    assert ([COLON] + valueText)[1..] == valueText;
  }

  lemma ReadsLastField(t: Text, f: Field, after: Text, rest: Text)
    requires ReadField(t) == Some(Parsed(f, after)) && after != [] && after[0] == CLOSE_OBJECT && after[1..] == rest
    ensures ReadFields(t) == Some(Parsed([f], rest))
  {
  }

  lemma ReadsFirstField(t: Text, f: Field, tail: Text, fs: seq<Field>, rest: Text)
    requires ReadField(t) == Some(Parsed(f, [COMMA] + tail)) && ReadFields(tail) == Some(Parsed(fs, rest))
    ensures ReadFields(t) == Some(Parsed([f] + fs, rest))
  {
    assert ([COMMA] + tail)[1..] == tail;
  }

  lemma ReadsObject(t: Text, fields: seq<Field>, rest: Text)
    requires t != [] && t[0] != CLOSE_OBJECT && ReadFields(t) == Some(Parsed(fields, rest))
    ensures Read([OPEN_OBJECT] + t) == Some(Parsed(Obj(fields), rest))
  {
    assert ([OPEN_OBJECT] + t)[1..] == t;
    NoWord([OPEN_OBJECT] + t);
  }

  lemma ReadsEmptyObject(rest: Text)
    ensures Read([OPEN_OBJECT, CLOSE_OBJECT] + rest) == Some(Parsed(Obj([]), rest))
  {
    assert ([OPEN_OBJECT, CLOSE_OBJECT] + rest)[2..] == rest;
    NoWord([OPEN_OBJECT, CLOSE_OBJECT] + rest);
  }

  // Whole values

  predicate PlainItems(items: seq<Json>) {
    forall k | 0 <= k < |items| :: Plain(items[k])
  }

  predicate PlainFields(fields: seq<Field>) {
    forall k | 0 <= k < |fields| :: Plain(fields[k].value)
  }

  lemma PrintBegins(v: Json)
    requires Plain(v)
    ensures Print(v) != [] && Print(v)[0] != CLOSE_ARRAY
  {
    if v.Num? && v.number >= 0 {
      DigitsStart(v.number);
    }
  }

  lemma ItemsBegin(items: seq<Json>, after: Text)
    requires items != [] && PlainItems(items)
    ensures (PrintItems(items) + after) != [] && (PrintItems(items) + after)[0] != CLOSE_ARRAY
  {
    PrintBegins(items[0]);
  }

  lemma FieldsBegin(fields: seq<Field>, after: Text)
    requires fields != []
    ensures (PrintFields(fields) + after) != [] && (PrintFields(fields) + after)[0] == QUOTE
  {
  }

  // The printed texts, taken apart from the front

  lemma ArrayText(items: seq<Json>, rest: Text)
    ensures Print(Arr(items)) + rest == [OPEN_ARRAY] + (PrintItems(items) + ([CLOSE_ARRAY] + rest))
  {
    Regroup([OPEN_ARRAY], PrintItems(items), [CLOSE_ARRAY], rest);
  }

  lemma OneItemText(items: seq<Json>, after: Text)
    requires |items| == 1
    ensures PrintItems(items) + after == Print(items[0]) + after && [items[0]] == items
  {
  }

  lemma MoreItemsText(items: seq<Json>, first: Text, more: Text, after: Text)
    requires |items| > 1 && first == Print(items[0]) && more == PrintItems(items[1..])
    ensures PrintItems(items) + after == first + ([COMMA] + (more + after))
    ensures [items[0]] + items[1..] == items
  {
    Regroup(first, [COMMA], more, after);
  }

  lemma ObjectText(fields: seq<Field>, rest: Text)
    ensures Print(Obj(fields)) + rest == [OPEN_OBJECT] + (PrintFields(fields) + ([CLOSE_OBJECT] + rest))
  {
    Regroup([OPEN_OBJECT], PrintFields(fields), [CLOSE_OBJECT], rest);
  }

  lemma OneFieldText(fields: seq<Field>, key: Text, value: Text, after: Text)
    requires |fields| == 1 && key == Quote(fields[0].key) && value == Print(fields[0].value)
    ensures PrintFields(fields) + after == key + ([COLON] + (value + after)) && [fields[0]] == fields
  {
    Regroup(key, [COLON], value, after);
  }

  lemma MoreFieldsText(fields: seq<Field>, key: Text, value: Text, more: Text, after: Text)
    requires |fields| > 1 && key == Quote(fields[0].key) && value == Print(fields[0].value)
    requires more == PrintFields(fields[1..])
    ensures PrintFields(fields) + after == key + ([COLON] + (value + ([COMMA] + (more + after))))
    ensures [fields[0]] + fields[1..] == fields
  {
    Regroup(key + [COLON] + value, [COMMA], more, after);
    Regroup(key, [COLON], value, [COMMA] + (more + after));
  }

  /** The reader inverts the printer, whatever follows but a digit. */
  lemma {:induction false} ReadsBack(v: Json, rest: Text)
    requires Plain(v) && NoDigit(rest)
    ensures Read(Print(v) + rest) == Some(Parsed(v, rest))
    decreases v
  {
    match v {
      case Null => ReadsWords(rest);
      case Bool(truth) => ReadsWords(rest);
      case Num(n) => ReadsNumber(n, rest);
      case Str(s) => ReadsText(s, rest);
      case Arr(items) => ReadsBackArray(items, rest);
      case Obj(fields) => ReadsBackObject(fields, rest);
    }
  }

  lemma {:induction false} ReadsBackArray(items: seq<Json>, rest: Text)
    requires PlainItems(items)
    ensures Read(Print(Arr(items)) + rest) == Some(Parsed(Arr(items), rest))
    decreases items, 1
  {
    ArrayText(items, rest);
    if items == [] {
      ReadsEmptyArray(rest);
      assert [OPEN_ARRAY] + (PrintItems(items) + ([CLOSE_ARRAY] + rest)) == [OPEN_ARRAY, CLOSE_ARRAY] + rest;
    } else {
      var after := [CLOSE_ARRAY] + rest;
      assert after[1..] == rest;
      ReadsBackItems(items, after, rest);
      ItemsBegin(items, after);
      ReadsArray(PrintItems(items) + after, items, rest);
    }
  }

  lemma {:induction false} ReadsBackItems(items: seq<Json>, after: Text, rest: Text)
    requires items != [] && PlainItems(items)
    requires after != [] && after[0] == CLOSE_ARRAY && after[1..] == rest
    ensures ReadItems(PrintItems(items) + after) == Some(Parsed(items, rest))
    decreases items, 0
  {
    if |items| == 1 {
      ReadsBack(items[0], after);
      OneItemText(items, after);
      ReadsLastItem(PrintItems(items) + after, items[0], after, rest);
    } else {
      var tail := PrintItems(items[1..]) + after;
      ReadsBack(items[0], [COMMA] + tail);
      ReadsBackItems(items[1..], after, rest);
      MoreItemsText(items, Print(items[0]), PrintItems(items[1..]), after);
      ReadsFirstItem(PrintItems(items) + after, items[0], tail, items[1..], rest);
    }
  }

  lemma {:induction false} ReadsBackObject(fields: seq<Field>, rest: Text)
    requires PlainFields(fields)
    ensures Read(Print(Obj(fields)) + rest) == Some(Parsed(Obj(fields), rest))
    decreases fields, 1
  {
    ObjectText(fields, rest);
    if fields == [] {
      ReadsEmptyObject(rest);
      assert [OPEN_OBJECT] + (PrintFields(fields) + ([CLOSE_OBJECT] + rest)) == [OPEN_OBJECT, CLOSE_OBJECT] + rest;
    } else {
      var after := [CLOSE_OBJECT] + rest;
      assert after[1..] == rest;
      ReadsBackFields(fields, after, rest);
      FieldsBegin(fields, after);
      ReadsObject(PrintFields(fields) + after, fields, rest);
    }
  }

  lemma {:induction false} ReadsBackFields(fields: seq<Field>, after: Text, rest: Text)
    requires fields != [] && PlainFields(fields)
    requires after != [] && after[0] == CLOSE_OBJECT && after[1..] == rest
    ensures ReadFields(PrintFields(fields) + after) == Some(Parsed(fields, rest))
    decreases fields, 0
  {
    var key, value := fields[0].key, fields[0].value;
    if |fields| == 1 {
      ReadsBack(value, after);
      ReadsOneField(key, Print(value) + after, value, after);
      OneFieldText(fields, Quote(key), Print(value), after);
      ReadsLastField(PrintFields(fields) + after, fields[0], after, rest);
    } else {
      var tail := PrintFields(fields[1..]) + after;
      ReadsBack(value, [COMMA] + tail);
      ReadsOneField(key, Print(value) + ([COMMA] + tail), value, [COMMA] + tail);
      ReadsBackFields(fields[1..], after, rest);
      MoreFieldsText(fields, Quote(key), Print(value), PrintFields(fields[1..]), after);
      ReadsFirstField(PrintFields(fields) + after, fields[0], tail, fields[1..], rest);
    }
  }
}
