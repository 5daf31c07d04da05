/** Canonical texts are equal exactly when the values are equal up to the order of object keys. */
module CanonicalJsonOrder {

  import opened JsonText
  import opened CanonicalJson
  import opened CanonicalJsonReading

  // Comparison by code unit is a strict total order

  lemma {:induction false} LessTransitive(a: Text, b: Text, c: Text)
    requires Less(a, b) && Less(b, c)
    ensures Less(a, c)
  {
    if a != [] && a[0] == b[0] && b[0] == c[0] {
      LessTransitive(a[1..], b[1..], c[1..]);
    }
  }

  lemma {:induction false} LessTotal(a: Text, b: Text)
    ensures a == b || Less(a, b) || Less(b, a)
  {
    if a != [] && b != [] && a[0] == b[0] {
      LessTotal(a[1..], b[1..]);
      assert a == [a[0]] + a[1..] && b == [b[0]] + b[1..];
    }
  }

  lemma {:induction false} LessIrreflexive(a: Text)
    ensures !Less(a, a)
  {
    if a != [] {
      LessIrreflexive(a[1..]);
    }
  }

  // Sorting by key

  predicate DistinctBy<T>(key: T -> Text, xs: seq<T>) {
    forall i, j | 0 <= i < j < |xs| :: key(xs[i]) != key(xs[j])
  }

  predicate Increasing<T>(key: T -> Text, xs: seq<T>) {
    forall i, j | 0 <= i < j < |xs| :: Less(key(xs[i]), key(xs[j]))
  }

  lemma {:induction false} InsertElements<T>(key: T -> Text, x: T, xs: seq<T>)
    ensures multiset(Insert(key, x, xs)) == multiset([x] + xs)
  {
    if xs != [] && !Less(key(x), key(xs[0])) {
      var rest := Insert(key, x, xs[1..]);
      InsertElements(key, x, xs[1..]);
      assert Insert(key, x, xs) == [xs[0]] + rest && xs == [xs[0]] + xs[1..];
      assert multiset([xs[0]] + rest) == multiset{xs[0]} + multiset(rest);
    }
  }

  lemma {:induction false} SortElements<T>(key: T -> Text, xs: seq<T>)
    ensures multiset(Sort(key, xs)) == multiset(xs)
  {
    if xs != [] {
      SortElements(key, xs[1..]);
      InsertElements(key, xs[0], Sort(key, xs[1..]));
      assert xs == [xs[0]] + xs[1..];
    }
  }

  lemma SortedHas<T>(key: T -> Text, xs: seq<T>, x: T)
    ensures x in Sort(key, xs) <==> x in xs
  {
    SortElements(key, xs);
    assert x in multiset(Sort(key, xs)) <==> x in multiset(xs);
  }

  lemma {:induction false} InsertIncreasing<T>(key: T -> Text, x: T, xs: seq<T>)
    requires Increasing(key, xs)
    requires forall k | 0 <= k < |xs| :: key(xs[k]) != key(x)
    ensures Increasing(key, Insert(key, x, xs))
  {
    if xs != [] {
      LessTotal(key(x), key(xs[0]));
      if Less(key(x), key(xs[0])) {
        forall k | 0 < k < |xs|
          ensures Less(key(x), key(xs[k]))
        {
          LessTransitive(key(x), key(xs[0]), key(xs[k]));
        }
      } else {
        var rest := Insert(key, x, xs[1..]);
        InsertIncreasing(key, x, xs[1..]);
        InsertElements(key, x, xs[1..]);
        forall k | 0 <= k < |rest|
          ensures Less(key(xs[0]), key(rest[k]))
        {
          assert rest[k] in multiset(rest);
          assert rest[k] == x || rest[k] in xs[1..];
        }
      }
    }
  }

  lemma {:induction false} SortIncreasing<T>(key: T -> Text, xs: seq<T>)
    requires DistinctBy(key, xs)
    ensures Increasing(key, Sort(key, xs))
  {
    if xs != [] {
      SortIncreasing(key, xs[1..]);
      var rest := Sort(key, xs[1..]);
      forall k | 0 <= k < |rest|
        ensures key(rest[k]) != key(xs[0])
      {
        SortedHas(key, xs[1..], rest[k]);
      }
      InsertIncreasing(key, xs[0], rest);
    }
  }

  lemma SmallestIsFirst<T>(key: T -> Text, xs: seq<T>, ys: seq<T>)
    requires Increasing(key, xs) && Increasing(key, ys) && xs != []
    requires forall x :: x in xs <==> x in ys
    ensures ys != [] && xs[0] == ys[0]
  {
    assert xs[0] in ys;
    assert ys[0] in xs;
    var i :| 0 <= i < |ys| && ys[i] == xs[0];
    var j :| 0 <= j < |xs| && xs[j] == ys[0];
    if i > 0 && j > 0 {
      LessTransitive(key(xs[0]), key(ys[0]), key(xs[0]));
      LessIrreflexive(key(xs[0]));
    }
  }

  lemma EmptyOrNot<T(!new)>(xs: seq<T>)
    ensures xs == [] || exists x :: x in xs
  {
    if xs != [] {
      assert xs[0] in xs;
    }
  }

  /** Two increasing lists of the same elements are the same list. */
  lemma {:induction false} IncreasingUnique<T(!new)>(key: T -> Text, xs: seq<T>, ys: seq<T>)
    requires Increasing(key, xs) && Increasing(key, ys)
    requires forall x :: x in xs <==> x in ys
    ensures xs == ys
    decreases |xs|
  {
    if xs == [] {
      EmptyOrNot(ys);
    } else {
      SmallestIsFirst(key, xs, ys);
      forall x
        ensures x in xs[1..] <==> x in ys[1..]
      {
        TailElements(key, xs, x);
        TailElements(key, ys, x);
      }
      IncreasingUnique(key, xs[1..], ys[1..]);
      assert xs == [xs[0]] + xs[1..] && ys == [ys[0]] + ys[1..];
    }
  }

  lemma TailElements<T>(key: T -> Text, xs: seq<T>, x: T)
    requires Increasing(key, xs) && xs != []
    ensures x in xs[1..] <==> x in xs && x != xs[0]
  {
    if x in xs[1..] {
      var k :| 0 <= k < |xs[1..]| && xs[1..][k] == x;
      assert Less(key(xs[0]), key(xs[k + 1]));
      LessIrreflexive(key(x));
    }
    assert xs == [xs[0]] + xs[1..];
  }

  function Map<A, B>(g: A -> B, xs: seq<A>): (ys: seq<B>)
    ensures |ys| == |xs| && forall k | 0 <= k < |xs| :: ys[k] == g(xs[k])
  {
    if xs == [] then [] else [g(xs[0])] + Map(g, xs[1..])
  }

  lemma {:induction false} InsertMap<A(!new), B>(keyA: A -> Text, keyB: B -> Text, g: A -> B, x: A, xs: seq<A>)
    requires forall a :: keyB(g(a)) == keyA(a)
    ensures Insert(keyB, g(x), Map(g, xs)) == Map(g, Insert(keyA, x, xs))
  {
    if xs != [] && !Less(keyA(x), keyA(xs[0])) {
      InsertMap(keyA, keyB, g, x, xs[1..]);
      assert Map(g, xs)[1..] == Map(g, xs[1..]);
      assert Insert(keyA, x, xs)[1..] == Insert(keyA, x, xs[1..]);
    } else {
      assert ([x] + xs)[1..] == xs;
    }
  }

  /** Sorting looks only at the keys. */
  lemma {:induction false} SortMap<A(!new), B>(keyA: A -> Text, keyB: B -> Text, g: A -> B, xs: seq<A>)
    requires forall a :: keyB(g(a)) == keyA(a)
    ensures Sort(keyB, Map(g, xs)) == Map(g, Sort(keyA, xs))
  {
    if xs != [] {
      SortMap(keyA, keyB, g, xs[1..]);
      InsertMap(keyA, keyB, g, xs[0], Sort(keyA, xs[1..]));
      assert Map(g, xs)[1..] == Map(g, xs[1..]);
    }
  }

  // The normal form: fields sorted by key, all the way down

  function FieldKey(): Field -> Text {
    (f: Field) => f.key
  }

  function Normal(v: Json): Json
    decreases v
  {
    match v
    case Arr(items) => Arr(NormalItems(items))
    case Obj(fields) => Obj(Sort(FieldKey(), NormalFields(fields)))
    case _ => v
  }

  function NormalItems(items: seq<Json>): (r: seq<Json>)
    ensures |r| == |items|
    decreases items
  {
    if items == [] then [] else [Normal(items[0])] + NormalItems(items[1..])
  }

  function NormalFields(fields: seq<Field>): (r: seq<Field>)
    ensures |r| == |fields|
    decreases fields
  {
    if fields == [] then [] else [Field(fields[0].key, Normal(fields[0].value))] + NormalFields(fields[1..])
  }

  lemma {:induction false} NormalItemAt(items: seq<Json>, k: nat)
    requires k < |items|
    ensures NormalItems(items)[k] == Normal(items[k])
  {
    if k > 0 {
      NormalItemAt(items[1..], k - 1);
    }
  }

  lemma {:induction false} NormalFieldAt(fields: seq<Field>, k: nat)
    requires k < |fields|
    ensures NormalFields(fields)[k] == Field(fields[k].key, Normal(fields[k].value))
  {
    if k > 0 {
      NormalFieldAt(fields[1..], k - 1);
    }
  }

  // Canonical text is the plain text of the normal form

  function AsMember(): Field -> Member {
    (f: Field) => Member(f.key, Print(f.value))
  }

  lemma {:induction false} JoinMembers(fields: seq<Field>)
    ensures Join(MemberTexts(Map(AsMember(), fields))) == PrintFields(fields)
  {
    if |fields| > 1 {
      JoinMembers(fields[1..]);
    }
  }

  lemma {:induction false} JoinItems(items: seq<Json>)
    ensures Join(Map(Print, items)) == PrintItems(items)
  {
    if |items| > 1 {
      JoinItems(items[1..]);
    }
  }

  lemma {:induction false} CanonicalIsNormal(v: Json)
    ensures Canonical(v) == if Plain(v) then Printed(Print(Normal(v))) else TypeError
    decreases v
  {
    match v {
      case Arr(items) =>
        CanonicalItemsAreNormal(items);
        JoinItems(NormalItems(items));
      case Obj(fields) =>
        CanonicalFieldsAreNormal(fields);
        SortMap(FieldKey(), MemberKey(), AsMember(), NormalFields(fields));
        JoinMembers(Sort(FieldKey(), NormalFields(fields)));
      case _ =>
    }
  }

  lemma {:induction false} CanonicalItemsAreNormal(items: seq<Json>)
    ensures CanonicalItems(items) == if PlainItems(items) then Some(Map(Print, NormalItems(items))) else None
    decreases items
  {
    if items != [] {
      CanonicalIsNormal(items[0]);
      CanonicalItemsAreNormal(items[1..]);
      assert PlainItems(items) <==> Plain(items[0]) && PlainItems(items[1..]);
    }
  }

  lemma {:induction false} CanonicalFieldsAreNormal(fields: seq<Field>)
    ensures CanonicalFields(fields)
         == if PlainFields(fields) then Some(Map(AsMember(), NormalFields(fields))) else None
    decreases fields
  {
    if fields != [] {
      CanonicalIsNormal(fields[0].value);
      CanonicalFieldsAreNormal(fields[1..]);
      assert PlainFields(fields) <==> Plain(fields[0].value) && PlainFields(fields[1..]);
    }
  }

  // Equality up to the order of keys

  /** An object has each key once, all the way down. */
  predicate WellKeyed(v: Json)
    decreases v
  {
    match v
    case Arr(items) => forall k | 0 <= k < |items| :: WellKeyed(items[k])
    case Obj(fields) => DistinctBy(FieldKey(), fields) && forall k | 0 <= k < |fields| :: WellKeyed(fields[k].value)
    case _ => true
  }

  /** The same value, but for the order of keys. */
  predicate Same(v: Json, w: Json)
    decreases v
  {
    match (v, w)
    case (Arr(xs), Arr(ys)) => |xs| == |ys| && forall k | 0 <= k < |xs| :: Same(xs[k], ys[k])
    case (Obj(fs), Obj(gs)) =>
      (forall i | 0 <= i < |fs| :: SameIn(fs[i], gs)) && forall j | 0 <= j < |gs| :: OneSame(fs, gs[j])
    case _ => v == w
  }

  predicate SameField(f: Field, g: Field)
    decreases f, 0
  {
    f.key == g.key && Same(f.value, g.value)
  }

  predicate SameIn(f: Field, gs: seq<Field>)
    decreases f, 1
  {
    exists j | 0 <= j < |gs| :: SameField(f, gs[j])
  }

  predicate OneSame(fs: seq<Field>, g: Field)
    decreases fs
  {
    exists i | 0 <= i < |fs| :: SameField(fs[i], g)
  }

  lemma NormalKeysDistinct(fields: seq<Field>)
    requires DistinctBy(FieldKey(), fields)
    ensures DistinctBy(FieldKey(), NormalFields(fields))
  {
    forall i, j | 0 <= i < j < |fields|
      ensures NormalFields(fields)[i].key != NormalFields(fields)[j].key
    {
      NormalFieldAt(fields, i);
      NormalFieldAt(fields, j);
      assert FieldKey()(fields[i]) != FieldKey()(fields[j]);
    }
  }

  /** Every normal field of `fs` is one of `gs`. */
  predicate Within(fs: seq<Field>, gs: seq<Field>) {
    forall i | 0 <= i < |fs| :: Has(gs, fs[i])
  }

  lemma SortedEqualIffWithin(fs: seq<Field>, gs: seq<Field>)
    requires DistinctBy(FieldKey(), fs) && DistinctBy(FieldKey(), gs)
    ensures Sort(FieldKey(), fs) == Sort(FieldKey(), gs) <==> Within(fs, gs) && Within(gs, fs)
  {
    var sf, sg := Sort(FieldKey(), fs), Sort(FieldKey(), gs);
    SortIncreasing(FieldKey(), fs);
    SortIncreasing(FieldKey(), gs);
    forall f
      ensures (f in sf <==> f in fs) && (f in sg <==> f in gs)
    {
      SortedHas(FieldKey(), fs, f);
      SortedHas(FieldKey(), gs, f);
    }
    if sf == sg {
      forall i | 0 <= i < |fs|
        ensures fs[i] in gs
      {
        assert fs[i] in sf;
      }
      forall j | 0 <= j < |gs|
        ensures gs[j] in fs
      {
        assert gs[j] in sg;
      }
    }
    if Within(fs, gs) && Within(gs, fs) {
      IncreasingUnique(FieldKey(), sf, sg);
    }
  }

  lemma {:induction false} SameIffNormal(v: Json, w: Json)
    requires WellKeyed(v) && WellKeyed(w)
    ensures Same(v, w) <==> Normal(v) == Normal(w)
    decreases v
  {
    match (v, w) {
      case (Arr(xs), Arr(ys)) => SameItemsIffNormal(xs, ys);
      case (Obj(fs), Obj(gs)) => SameFieldsIffNormal(fs, gs);
      case _ =>
    }
  }

  lemma {:induction false} SameItemsIffNormal(xs: seq<Json>, ys: seq<Json>)
    requires WellKeyed(Arr(xs)) && WellKeyed(Arr(ys))
    ensures Same(Arr(xs), Arr(ys)) <==> NormalItems(xs) == NormalItems(ys)
    decreases xs
  {
    if |xs| == |ys| {
      forall k | 0 <= k < |xs|
        ensures Same(xs[k], ys[k]) <==> NormalItems(xs)[k] == NormalItems(ys)[k]
      {
        SameIffNormal(xs[k], ys[k]);
        NormalItemAt(xs, k);
        NormalItemAt(ys, k);
      }
    }
  }

  lemma {:induction false} SameFieldsIffNormal(fs: seq<Field>, gs: seq<Field>)
    requires WellKeyed(Obj(fs)) && WellKeyed(Obj(gs))
    ensures Same(Obj(fs), Obj(gs)) <==> Normal(Obj(fs)) == Normal(Obj(gs))
    decreases fs
  {
    var nf, ng := NormalFields(fs), NormalFields(gs);
    forall i, j | 0 <= i < |fs| && 0 <= j < |gs|
      ensures SameField(fs[i], gs[j]) <==> nf[i] == ng[j]
    {
      SameIffNormal(fs[i].value, gs[j].value);
      NormalFieldAt(fs, i);
      NormalFieldAt(gs, j);
    }
    SameObjects(fs, gs, nf, ng);
    NormalKeysDistinct(fs);
    NormalKeysDistinct(gs);
    SortedEqualIffWithin(nf, ng);
  }

  predicate Has(fs: seq<Field>, f: Field) {
    exists j | 0 <= j < |fs| :: f == fs[j]
  }

  lemma SameInIffHas(f: Field, gs: seq<Field>, n: Field, ng: seq<Field>)
    requires |ng| == |gs| && forall j | 0 <= j < |gs| :: SameField(f, gs[j]) <==> n == ng[j]
    ensures SameIn(f, gs) <==> Has(ng, n)
  {
  }

  lemma OneSameIffHas(fs: seq<Field>, g: Field, nf: seq<Field>, n: Field)
    requires |nf| == |fs| && forall i | 0 <= i < |fs| :: SameField(fs[i], g) <==> nf[i] == n
    ensures OneSame(fs, g) <==> Has(nf, n)
  {
  }

  lemma SameObjects(fs: seq<Field>, gs: seq<Field>, nf: seq<Field>, ng: seq<Field>)
    requires |nf| == |fs| && |ng| == |gs|
    requires forall i, j | 0 <= i < |fs| && 0 <= j < |gs| :: SameField(fs[i], gs[j]) <==> nf[i] == ng[j]
    ensures Same(Obj(fs), Obj(gs)) <==> Within(nf, ng) && Within(ng, nf)
  {
    forall i | 0 <= i < |fs|
      ensures SameIn(fs[i], gs) <==> Has(ng, nf[i])
    {
      SameInIffHas(fs[i], gs, nf[i], ng);
    }
    forall j | 0 <= j < |gs|
      ensures OneSame(fs, gs[j]) <==> Has(nf, ng[j])
    {
      OneSameIffHas(fs, gs[j], nf, ng[j]);
    }
  }

  // The result

  lemma {:induction false} NormalIsPlain(v: Json)
    requires Plain(v)
    ensures Plain(Normal(v))
    decreases v
  {
    match v {
      case Arr(items) =>
        forall k | 0 <= k < |items|
          ensures Plain(NormalItems(items)[k])
        {
          NormalIsPlain(items[k]);
          NormalItemAt(items, k);
        }
      case Obj(fields) =>
        var ns := NormalFields(fields);
        forall k | 0 <= k < |fields|
          ensures Plain(ns[k].value)
        {
          NormalIsPlain(fields[k].value);
          NormalFieldAt(fields, k);
        }
        SortedArePlain(ns);
      case _ =>
    }
  }

  lemma SortedArePlain(fields: seq<Field>)
    requires PlainFields(fields)
    ensures PlainFields(Sort(FieldKey(), fields))
  {
    var sorted := Sort(FieldKey(), fields);
    forall k | 0 <= k < |sorted|
      ensures Plain(sorted[k].value)
    {
      SortedHas(FieldKey(), fields, sorted[k]);
    }
  }

  lemma PrintIsInjective(v: Json, w: Json)
    requires Plain(v) && Plain(w) && Print(v) == Print(w)
    ensures v == w
  {
    ReadsBack(v, []);
    ReadsBack(w, []);
    assert Print(v) + [] == Print(v) && Print(w) + [] == Print(w);
  }

  /**
   * The canonical text fails exactly on values outside JSON; it reads back, before anything but a
   * digit, to the value with its keys in order; and two values have the same canonical text exactly
   * when they are the same up to the order of their keys.
   */
  lemma CanonicalTextIsCanonical(v: Json, w: Json, rest: Text)
    requires WellKeyed(v) && WellKeyed(w) && NoDigit(rest)
    ensures Canonical(v).Printed? <==> Plain(v)
    ensures Plain(v) ==> Read(Canonical(v).text + rest) == Some(Parsed(Normal(v), rest))
    ensures Plain(v) && Plain(w) ==> (Canonical(v) == Canonical(w) <==> Same(v, w))
  {
    CanonicalIsNormal(v);
    CanonicalIsNormal(w);
    SameIffNormal(v, w);
    if Plain(v) {
      NormalIsPlain(v);
      ReadsBack(Normal(v), rest);
      if Plain(w) && Canonical(v) == Canonical(w) {
        NormalIsPlain(w);
        PrintIsInjective(Normal(v), Normal(w));
      }
    }
  }
}
