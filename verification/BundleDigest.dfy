/** The text whose digest is `bundleSha256` of `product-skill-renderer.ts`. */
module BundleDigest {

  import opened JsonText
  import opened CanonicalJson
  import opened CanonicalJsonOrder

  datatype Entry = Entry(target: Text, path: Text, sha256: Text)

  datatype Bundle = Bundle(sourceManifestSha256: Text, mcpSurfaceSha256: Text, files: seq<Entry>)

  function EntryJson(e: Entry): Json {
    Obj([Field(Ascii("target"), Str(e.target)), Field(Ascii("path"), Str(e.path)), Field(Ascii("sha256"), Str(e.sha256))])
  }

  function EntriesJson(files: seq<Entry>): (items: seq<Json>)
    ensures |items| == |files| && forall k | 0 <= k < |files| :: items[k] == EntryJson(files[k])
  {
    seq(|files|, k requires 0 <= k < |files| => EntryJson(files[k]))
  }

  /** The argument of `canonicalJson` in `bundleSha256`. */
  function BundleJson(b: Bundle): Json {
    Obj([Field(Ascii("sourceManifestSha256"), Str(b.sourceManifestSha256)),
         Field(Ascii("mcpSurfaceSha256"), Str(b.mcpSurfaceSha256)),
         Field(Ascii("files"), Arr(EntriesJson(b.files)))])
  }

  /** Objects that are the same have the same value under each key. */
  lemma SameUnderKey(fs: seq<Field>, gs: seq<Field>, i: nat)
    requires Same(Obj(fs), Obj(gs)) && DistinctBy(FieldKey(), gs)
    requires i < |fs| && i < |gs| && fs[i].key == gs[i].key
    ensures Same(fs[i].value, gs[i].value)
  {
    assert SameIn(fs[i], gs);
    var j :| 0 <= j < |gs| && SameField(fs[i], gs[j]);
    assert FieldKey()(gs[j]) == FieldKey()(gs[i]);
  }

  lemma EntryIsGood(e: Entry)
    ensures Plain(EntryJson(e)) && WellKeyed(EntryJson(e))
  {
    assert Ascii("target")[0] == 0x74 && Ascii("sha256")[0] == 0x73;
  }

  lemma EntryInjective(e: Entry, f: Entry)
    requires Same(EntryJson(e), EntryJson(f))
    ensures e == f
  {
    EntryIsGood(f);
    SameUnderKey(EntryJson(e).fields, EntryJson(f).fields, 0);
    SameUnderKey(EntryJson(e).fields, EntryJson(f).fields, 1);
    SameUnderKey(EntryJson(e).fields, EntryJson(f).fields, 2);
  }

  lemma BundleIsGood(b: Bundle)
    ensures Plain(BundleJson(b)) && WellKeyed(BundleJson(b))
  {
    forall k | 0 <= k < |b.files|
      ensures Plain(EntryJson(b.files[k])) && WellKeyed(EntryJson(b.files[k]))
    {
      EntryIsGood(b.files[k]);
    }
    var files := Arr(EntriesJson(b.files));
    assert Plain(files) && WellKeyed(files);
  }

  lemma BundleParts(b: Bundle, c: Bundle)
    requires Same(BundleJson(b), BundleJson(c))
    ensures Same(Str(b.sourceManifestSha256), Str(c.sourceManifestSha256))
    ensures Same(Str(b.mcpSurfaceSha256), Str(c.mcpSurfaceSha256))
    ensures Same(Arr(EntriesJson(b.files)), Arr(EntriesJson(c.files)))
  {
    BundleIsGood(c);
    var fs, gs := BundleJson(b).fields, BundleJson(c).fields;
    SameUnderKey(fs, gs, 0);
    SameUnderKey(fs, gs, 1);
    SameUnderKey(fs, gs, 2);
  }

  lemma EntriesInjective(files: seq<Entry>, others: seq<Entry>)
    requires Same(Arr(EntriesJson(files)), Arr(EntriesJson(others)))
    ensures files == others
  {
    var xs, ys := EntriesJson(files), EntriesJson(others);
    forall k | 0 <= k < |files|
      ensures files[k] == others[k]
    {
      assert Same(xs[k], ys[k]);
      EntryInjective(files[k], others[k]);
    }
  }

  lemma BundleInjective(b: Bundle, c: Bundle)
    requires Same(BundleJson(b), BundleJson(c))
    ensures b == c
  {
    BundleParts(b, c);
    EntriesInjective(b.files, c.files);
  }

  /** The digested text always exists, and two bundles share it only when they agree in every digest, file and place. */
  lemma BundleTextTellsBundlesApart(b: Bundle, c: Bundle)
    ensures Canonical(BundleJson(b)).Printed?
    ensures Canonical(BundleJson(b)) == Canonical(BundleJson(c)) <==> b == c
  {
    BundleIsGood(b);
    BundleIsGood(c);
    CanonicalTextIsCanonical(BundleJson(b), BundleJson(c), []);
    if Canonical(BundleJson(b)) == Canonical(BundleJson(c)) {
      BundleInjective(b, c);
    }
  }

  // The text itself

  function SortedEntry(e: Entry): Json {
    Obj([Field(Ascii("path"), Str(e.path)), Field(Ascii("sha256"), Str(e.sha256)), Field(Ascii("target"), Str(e.target))])
  }

  function SortedEntries(files: seq<Entry>): (items: seq<Json>)
    ensures |items| == |files| && forall k | 0 <= k < |items| :: items[k] == SortedEntry(files[k])
  {
    seq(|files|, k requires 0 <= k < |files| => SortedEntry(files[k]))
  }

  /** The bundle with the keys of every object in order. */
  function SortedBundle(b: Bundle): Json {
    Obj([Field(Ascii("files"), Arr(SortedEntries(b.files))),
         Field(Ascii("mcpSurfaceSha256"), Str(b.mcpSurfaceSha256)),
         Field(Ascii("sourceManifestSha256"), Str(b.sourceManifestSha256))])
  }

  lemma SortedStays(fields: seq<Field>)
    requires Increasing(FieldKey(), fields)
    ensures Sort(FieldKey(), fields) == fields
  {
    forall i, j | 0 <= i < j < |fields|
      ensures FieldKey()(fields[i]) != FieldKey()(fields[j])
    {
      LessIrreflexive(FieldKey()(fields[i]));
    }
    SortIncreasing(FieldKey(), fields);
    forall f
      ensures f in Sort(FieldKey(), fields) <==> f in fields
    {
      SortedHas(FieldKey(), fields, f);
    }
    IncreasingUnique(FieldKey(), Sort(FieldKey(), fields), fields);
  }

  lemma ThreeRise(f: Field, g: Field, h: Field)
    requires f.key != [] && g.key != [] && h.key != [] && f.key[0] < g.key[0] < h.key[0]
    ensures Increasing(FieldKey(), [f, g, h])
  {
  }

  lemma NormalFieldsStay(fields: seq<Field>)
    requires forall k | 0 <= k < |fields| :: Normal(fields[k].value) == fields[k].value
    ensures NormalFields(fields) == fields
  {
    forall k | 0 <= k < |fields|
      ensures NormalFields(fields)[k] == fields[k]
    {
      NormalFieldAt(fields, k);
    }
  }

  /** An object whose three keys are in order, and whose values are, is as it is printed. */
  lemma ThreeAreNormal(f: Field, g: Field, h: Field)
    requires f.key != [] && g.key != [] && h.key != [] && f.key[0] < g.key[0] < h.key[0]
    requires Normal(f.value) == f.value && Normal(g.value) == g.value && Normal(h.value) == h.value
    ensures Normal(Obj([f, g, h])) == Obj([f, g, h])
  {
    ThreeRise(f, g, h);
    SortedStays([f, g, h]);
    NormalFieldsStay([f, g, h]);
  }

  lemma ThreeAreWellKeyed(f: Field, g: Field, h: Field)
    requires f.key != [] && g.key != [] && h.key != [] && f.key[0] < g.key[0] < h.key[0]
    requires WellKeyed(f.value) && WellKeyed(g.value) && WellKeyed(h.value)
    ensures WellKeyed(Obj([f, g, h]))
  {
  }

  lemma Reordered(fs: seq<Field>, gs: seq<Field>, i: nat, j: nat, k: nat)
    requires |fs| == |gs| == 3 && {i, j, k} == {0, 1, 2} && i < 3 && j < 3 && k < 3
    requires SameField(fs[0], gs[i]) && SameField(fs[1], gs[j]) && SameField(fs[2], gs[k])
    ensures Same(Obj(fs), Obj(gs))
  {
    assert 0 in {i, j, k} && 1 in {i, j, k} && 2 in {i, j, k};
    forall m | 0 <= m < 3
      ensures SameIn(fs[m], gs) && OneSame(fs, gs[m])
    {
    }
  }

  lemma FirstLetters()
    ensures Ascii("path")[0] == 0x70 && Ascii("sha256")[0] == 0x73 && Ascii("target")[0] == 0x74
    ensures Ascii("files")[0] == 0x66 && Ascii("mcpSurfaceSha256")[0] == 0x6d && Ascii("sourceManifestSha256")[0] == 0x73
  {
  }

  lemma EntrySorts(e: Entry)
    ensures Same(EntryJson(e), SortedEntry(e)) && WellKeyed(SortedEntry(e)) && Normal(SortedEntry(e)) == SortedEntry(e)
  {
    var fs, gs := EntryJson(e).fields, SortedEntry(e).fields;
    FirstLetters();
    Reordered(fs, gs, 2, 0, 1);
    ThreeAreNormal(gs[0], gs[1], gs[2]);
    ThreeAreWellKeyed(gs[0], gs[1], gs[2]);
  }

  lemma EntriesSort(files: seq<Entry>)
    ensures Same(Arr(EntriesJson(files)), Arr(SortedEntries(files)))
    ensures WellKeyed(Arr(SortedEntries(files))) && Normal(Arr(SortedEntries(files))) == Arr(SortedEntries(files))
  {
    var items := SortedEntries(files);
    forall k | 0 <= k < |files|
      ensures Same(EntriesJson(files)[k], items[k]) && WellKeyed(items[k]) && NormalItems(items)[k] == items[k]
    {
      EntrySorts(files[k]);
      NormalItemAt(items, k);
    }
    assert NormalItems(items) == items;
  }

  lemma BundleSorts(b: Bundle)
    ensures Same(BundleJson(b), SortedBundle(b)) && WellKeyed(SortedBundle(b)) && Normal(SortedBundle(b)) == SortedBundle(b)
  {
    var fs, gs := BundleJson(b).fields, SortedBundle(b).fields;
    EntriesSort(b.files);
    FirstLetters();
    Reordered(fs, gs, 2, 1, 0);
    ThreeAreNormal(gs[0], gs[1], gs[2]);
    ThreeAreWellKeyed(gs[0], gs[1], gs[2]);
  }

  /** The digested text: files with path, digest and target, then the digest of the surface, then that of the manifest. */
  lemma BundleText(b: Bundle)
    ensures Canonical(BundleJson(b)) == Printed(Print(SortedBundle(b)))
  {
    BundleIsGood(b);
    BundleSorts(b);
    CanonicalIsNormal(BundleJson(b));
    SameIffNormal(BundleJson(b), SortedBundle(b));
  }
}
