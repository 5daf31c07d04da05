/** Ownership records: `createProductSkillState` and `decodeProductSkillState`. */
module SkillState {

  import opened SkillRegistry
  import opened SkillOwnership

  // Parsed JSON

  /** The property names that a record may have, and any other. */
  datatype Key =
    | SchemaVersion | BundleSchemaVersion | Target | App | PackageSchemaVersion | RendererVersion
    | SourceManifestSha256 | McpSurfaceSha256 | BundleSha256 | Files
    | Name | SkillSlug
    | Path | Sha256 | ByteLength
    | OtherKey(name: string)

  datatype Value = Text(text: string) | Whole(n: int) | List(items: seq<Value>) | Record(fields: map<Key, Value>) | Other

  const RECORD_KEYS: set<Key> :=
    {SchemaVersion, Target, App, PackageSchemaVersion, RendererVersion,
     SourceManifestSha256, McpSurfaceSha256, BundleSha256, Files}

  function KeysFor(migrates: bool): set<Key> {
    if migrates then RECORD_KEYS else RECORD_KEYS + {BundleSchemaVersion}
  }

  predicate HasText(fields: map<Key, Value>, key: Key) {
    key in fields && fields[key].Text?
  }

  predicate HasDigest(fields: map<Key, Value>, key: Key) {
    HasText(fields, key) && IsDigest(fields[key].text)
  }

  predicate Holds(fields: map<Key, Value>, key: Key, value: Value) {
    key in fields && fields[key] == value
  }

  /** `hasExactKeys`. */
  predicate HasExactKeys(fields: map<Key, Value>, keys: set<Key>) {
    |fields.Keys| == |keys| && keys <= fields.Keys
  }

  // States

  datatype StateFile = StateFile(path: string, sha256: string, byteLength: int)

  datatype State = State(
    target: string, name: string, skillSlug: string, rendererVersion: string,
    sourceManifestSha256: string, mcpSurfaceSha256: string, bundleSha256: string, files: seq<StateFile>)

  datatype Decoded = Decoded(state: State, migrationRequired: bool)

  const MAX_SAFE: int := 0x1f_ffff_ffff_ffff

  function TargetRoot(target: string, slug: string): string {
    (if target == CODEX then ".agents" else ".claude") + "/skills/" + slug
  }

  /** `bundleV1TargetPaths`. */
  function TargetPaths(target: string, slug: string): set<string> {
    {TargetRoot(target, slug) + "/SKILL.md", TargetRoot(target, slug) + "/references/mcp-surface.md"}
  }

  predicate GoodFile(f: StateFile) {
    IsDigest(f.sha256) && 0 <= f.byteLength <= MAX_SAFE
  }

  predicate DistinctPaths(files: seq<StateFile>) {
    forall i, j | 0 <= i < j < |files| :: files[i].path != files[j].path
  }

  predicate GoodStateFiles(files: seq<StateFile>) {
    All(GoodFile, files) && DistinctPaths(files)
  }

  predicate ExpectedFiles(files: seq<StateFile>, target: string, slug: string) {
    |files| == |TargetPaths(target, slug)| && forall k | 0 <= k < |files| :: files[k].path in TargetPaths(target, slug)
  }

  /** What a decoded state is. */
  predicate ValidState(digest: Digest, s: State, target: string) {
    && s.target == target && IsAppName(s.name) && s.skillSlug == Slug(digest, s.name)
    && !IsBlank(s.rendererVersion)
    && IsDigest(s.sourceManifestSha256) && IsDigest(s.mcpSurfaceSha256) && IsDigest(s.bundleSha256)
    && GoodStateFiles(s.files) && ExpectedFiles(s.files, target, s.skillSlug)
  }

  // Records

  function FileRecord(f: StateFile): Value {
    Record(map[Path := Text(f.path), Sha256 := Text(f.sha256), ByteLength := Whole(f.byteLength)])
  }

  function FileRecords(files: seq<StateFile>): (r: seq<Value>)
    ensures |r| == |files|
  {
    seq(|files|, k requires 0 <= k < |files| => FileRecord(files[k]))
  }

  function AppRecord(s: State): Value {
    Record(map[Name := Text(s.name), SkillSlug := Text(s.skillSlug)])
  }

  /** The properties that both versions of a record have, but for the version. */
  function Common(s: State): map<Key, Value> {
    map[Target := Text(s.target), App := AppRecord(s), PackageSchemaVersion := Text("1"),
        RendererVersion := Text(s.rendererVersion), SourceManifestSha256 := Text(s.sourceManifestSha256),
        McpSurfaceSha256 := Text(s.mcpSurfaceSha256), BundleSha256 := Text(s.bundleSha256),
        Files := List(FileRecords(s.files))]
  }

  /** The state as it is written. */
  function V2Record(s: State): Value {
    Record(Common(s)[SchemaVersion := Whole(2)][BundleSchemaVersion := Whole(1)])
  }

  /** The state as version 1 wrote it. */
  function V1Record(s: State): Value {
    Record(Common(s)[SchemaVersion := Whole(1)])
  }

  // Decoding

  predicate IsFileRecord(v: Value) {
    && v.Record? && HasExactKeys(v.fields, {Path, Sha256, ByteLength})
    && HasText(v.fields, Path) && HasDigest(v.fields, Sha256)
    && v.fields[ByteLength].Whole? && 0 <= v.fields[ByteLength].n <= MAX_SAFE
  }

  function FileOf(v: Value): StateFile
    requires IsFileRecord(v)
  {
    StateFile(v.fields[Path].text, v.fields[Sha256].text, v.fields[ByteLength].n)
  }

  /** The checks before the loop. */
  predicate GoodHeader(digest: Digest, v: Value, target: string) {
    && v.Record?
    && var fields := v.fields; var migrates := Holds(fields, SchemaVersion, Whole(1));
       && HasExactKeys(fields, KeysFor(migrates))
       && (migrates || (Holds(fields, SchemaVersion, Whole(2)) && Holds(fields, BundleSchemaVersion, Whole(1))))
       && Holds(fields, Target, Text(target)) && Holds(fields, PackageSchemaVersion, Text("1"))
       && HasText(fields, RendererVersion) && !IsBlank(fields[RendererVersion].text)
       && HasDigest(fields, SourceManifestSha256) && HasDigest(fields, McpSurfaceSha256)
       && HasDigest(fields, BundleSha256)
       && App in fields && IsApp(digest, fields[App])
       && Files in fields && fields[Files].List?
  }

  predicate IsApp(digest: Digest, v: Value) {
    && v.Record? && HasExactKeys(v.fields, {Name, SkillSlug})
    && HasText(v.fields, Name) && IsAppName(v.fields[Name].text)
    && HasText(v.fields, SkillSlug) && v.fields[SkillSlug].text == Slug(digest, v.fields[Name].text)
  }

  function StateOf(digest: Digest, v: Value, target: string, files: seq<StateFile>): State
    requires GoodHeader(digest, v, target)
  {
    var fields := v.fields;
    State(target, fields[App].fields[Name].text, fields[App].fields[SkillSlug].text, fields[RendererVersion].text,
          fields[SourceManifestSha256].text, fields[McpSurfaceSha256].text, fields[BundleSha256].text, files)
  }

  ghost function PathsOf(files: seq<StateFile>): set<string> {
    set k | 0 <= k < |files| :: files[k].path
  }

  lemma FilesStep(files: seq<StateFile>, f: StateFile)
    requires GoodStateFiles(files) && GoodFile(f) && f.path !in PathsOf(files)
    ensures GoodStateFiles(files + [f]) && PathsOf(files + [f]) == PathsOf(files) + {f.path}
  {
    AllStep(GoodFile, files + [f], |files|);
    assert (files + [f])[..|files|] == files && (files + [f])[..|files| + 1] == files + [f];
    assert (files + [f])[|files|] == f;
  }

  // Records and states determine each other

  lemma {:induction false} SameSizeSubset<T>(keys: set<T>, all: set<T>)
    requires keys <= all && |keys| == |all|
    ensures keys == all
  {
    if keys != {} {
      var k :| k in keys;
      SameSizeSubset(keys - {k}, all - {k});
      assert keys == keys - {k} + {k} && all == all - {k} + {k};
    }
  }

  lemma FileRecordInverse(v: Value)
    requires IsFileRecord(v)
    ensures FileRecord(FileOf(v)) == v && GoodFile(FileOf(v))
  {
    SameSizeSubset({Path, Sha256, ByteLength}, v.fields.Keys);
  }

  lemma GoodFileHasRecord(f: StateFile)
    requires GoodFile(f)
    ensures IsFileRecord(FileRecord(f)) && FileOf(FileRecord(f)) == f
  {
    assert FileRecord(f).fields.Keys == {Path, Sha256, ByteLength};
  }

  lemma NoFileFits(items: seq<Value>, files: seq<StateFile>, k: nat)
    requires GoodStateFiles(files) && items == FileRecords(files) && k < |items|
    ensures IsFileRecord(items[k]) && FileOf(items[k]) == files[k]
  {
    assert GoodFile(files[k]);
    GoodFileHasRecord(files[k]);
  }

  lemma RecordsStep(items: seq<Value>, files: seq<StateFile>, k: nat, f: StateFile)
    requires k < |items| && items[..k] == FileRecords(files) && items[k] == FileRecord(f)
    ensures items[..k + 1] == FileRecords(files + [f])
  {
    assert items[..k + 1] == items[..k] + [items[k]];
  }

  /** The loop of `decodeProductSkillState`: the files, if the items are the records of good files. */
  method DecodeFiles(items: seq<Value>) returns (r: Option<seq<StateFile>>)
    ensures r.Some? ==> GoodStateFiles(r.value) && items == FileRecords(r.value)
    ensures r.None? ==> forall files: seq<StateFile> :: GoodStateFiles(files) ==> items != FileRecords(files)
  {
    var files: seq<StateFile> := [];
    var paths: set<string> := {};
    for k := 0 to |items|
      invariant GoodStateFiles(files) && items[..k] == FileRecords(files) && paths == PathsOf(files)
      invariant forall all: seq<StateFile> | GoodStateFiles(all) && items == FileRecords(all) :: |all| == |items| && all[..k] == files
    {
      forall all: seq<StateFile> | GoodStateFiles(all) && items == FileRecords(all)
        ensures IsFileRecord(items[k]) && FileOf(items[k]) == all[k] && all[..k + 1] == files + [all[k]]
        ensures all[k].path !in paths
      {
        NoFileFits(items, all, k);
      }
      if !IsFileRecord(items[k]) || FileOf(items[k]).path in paths {
        return None;
      }
      var file := FileOf(items[k]);
      FileRecordInverse(items[k]);
      FilesStep(files, file);
      RecordsStep(items, files, k, file);
      paths := paths + {file.path};
      files := files + [file];
    }
    assert items[..|items|] == items;
    return Some(files);
  }

  function RecordOf(s: State, migrates: bool): Value {
    if migrates then V1Record(s) else V2Record(s)
  }

  predicate HasCommon(fields: map<Key, Value>, s: State) {
    && Holds(fields, Target, Text(s.target)) && Holds(fields, App, AppRecord(s))
    && Holds(fields, PackageSchemaVersion, Text("1")) && Holds(fields, RendererVersion, Text(s.rendererVersion))
    && Holds(fields, SourceManifestSha256, Text(s.sourceManifestSha256))
    && Holds(fields, McpSurfaceSha256, Text(s.mcpSurfaceSha256)) && Holds(fields, BundleSha256, Text(s.bundleSha256))
    && Holds(fields, Files, List(FileRecords(s.files)))
  }

  predicate HasVersion(fields: map<Key, Value>, migrates: bool) {
    if migrates then Holds(fields, SchemaVersion, Whole(1))
    else Holds(fields, SchemaVersion, Whole(2)) && Holds(fields, BundleSchemaVersion, Whole(1))
  }

  lemma KeysOfRecord(s: State, migrates: bool)
    ensures var v := RecordOf(s, migrates);
            v.Record? && v.fields.Keys == KeysFor(migrates) && HasCommon(v.fields, s) && HasVersion(v.fields, migrates)
  {
    CommonHasCommon(s);
    Versioned(Common(s), s, migrates);
  }

  lemma CommonHasCommon(s: State)
    ensures HasCommon(Common(s), s) && Common(s).Keys == RECORD_KEYS - {SchemaVersion}
  {
  }

  lemma Versioned(fields: map<Key, Value>, s: State, migrates: bool)
    requires HasCommon(fields, s) && fields.Keys == RECORD_KEYS - {SchemaVersion}
    ensures var all := if migrates then fields[SchemaVersion := Whole(1)]
                       else fields[SchemaVersion := Whole(2)][BundleSchemaVersion := Whole(1)];
            all.Keys == KeysFor(migrates) && HasCommon(all, s) && HasVersion(all, migrates)
  {
  }

  lemma PropertiesDetermine(f: map<Key, Value>, g: map<Key, Value>, s: State, migrates: bool)
    requires HasCommon(f, s) && HasVersion(f, migrates) && f.Keys == KeysFor(migrates)
    requires HasCommon(g, s) && HasVersion(g, migrates) && g.Keys == KeysFor(migrates)
    ensures f == g
  {
    forall key | key in KeysFor(migrates)
      ensures f[key] == g[key]
    {
    }
    assert forall key | key in f :: f[key] == g[key];
  }

  lemma AppInverse(digest: Digest, v: Value, s: State)
    requires IsApp(digest, v) && s.name == v.fields[Name].text && s.skillSlug == v.fields[SkillSlug].text
    ensures AppRecord(s) == v
  {
    SameSizeSubset({Name, SkillSlug}, v.fields.Keys);
  }

  lemma AppHasRecord(digest: Digest, s: State)
    requires IsAppName(s.name) && s.skillSlug == Slug(digest, s.name)
    ensures IsApp(digest, AppRecord(s))
  {
    assert AppRecord(s).fields.Keys == {Name, SkillSlug};
  }

  lemma HeaderHasCommon(digest: Digest, v: Value, target: string, files: seq<StateFile>)
    requires GoodHeader(digest, v, target) && v.fields[Files].items == FileRecords(files)
    ensures HasCommon(v.fields, StateOf(digest, v, target, files))
  {
    AppInverse(digest, v.fields[App], StateOf(digest, v, target, files));
  }

  /** A record whose header passes is the record of the state that is read from it. */
  lemma HeaderInverse(digest: Digest, v: Value, target: string, files: seq<StateFile>)
    requires GoodHeader(digest, v, target) && v.fields[Files].items == FileRecords(files)
    ensures v == RecordOf(StateOf(digest, v, target, files), Holds(v.fields, SchemaVersion, Whole(1)))
  {
    var migrates := Holds(v.fields, SchemaVersion, Whole(1));
    var s := StateOf(digest, v, target, files);
    HeaderHasCommon(digest, v, target, files);
    KeysOfRecord(s, migrates);
    SameSizeSubset(KeysFor(migrates), v.fields.Keys);
    PropertiesDetermine(v.fields, RecordOf(s, migrates).fields, s, migrates);
  }

  lemma CommonGivesHeader(digest: Digest, fields: map<Key, Value>, s: State, target: string, migrates: bool)
    requires ValidState(digest, s, target)
    requires HasCommon(fields, s) && HasVersion(fields, migrates) && fields.Keys == KeysFor(migrates)
    ensures GoodHeader(digest, Record(fields), target) && Holds(fields, SchemaVersion, Whole(1)) == migrates
    ensures fields[Files].items == FileRecords(s.files)
    ensures StateOf(digest, Record(fields), target, s.files) == s
  {
    AppHasRecord(digest, s);
  }

  /** The records of a valid state have a good header, and give the state back. */
  lemma ValidHasHeader(digest: Digest, s: State, target: string, migrates: bool)
    requires ValidState(digest, s, target)
    ensures var v := RecordOf(s, migrates);
            && GoodHeader(digest, v, target) && v.fields[Files].items == FileRecords(s.files)
            && Holds(v.fields, SchemaVersion, Whole(1)) == migrates
            && StateOf(digest, v, target, s.files) == s
  {
    KeysOfRecord(s, migrates);
    CommonGivesHeader(digest, RecordOf(s, migrates).fields, s, target, migrates);
  }

  lemma FileRecordsInjective(files: seq<StateFile>, others: seq<StateFile>)
    requires FileRecords(files) == FileRecords(others)
    ensures files == others
  {
    forall k | 0 <= k < |files|
      ensures files[k] == others[k]
    {
      var a, b := FileRecords(files)[k], FileRecords(others)[k];
      assert a == FileRecord(files[k]) && b == FileRecord(others[k]);
      assert a.fields[Path] == b.fields[Path] && a.fields[Sha256] == b.fields[Sha256];
      assert a.fields[ByteLength] == b.fields[ByteLength];
    }
  }

  /** Two records are the same only for the same state and version. */
  lemma RecordsDiffer(digest: Digest, s: State, t: State, target: string, one: bool, other: bool)
    requires ValidState(digest, s, target) && ValidState(digest, t, target)
    requires RecordOf(s, one) == RecordOf(t, other)
    ensures s == t && one == other
  {
    ValidHasHeader(digest, s, target, one);
    ValidHasHeader(digest, t, target, other);
    FileRecordsInjective(s.files, t.files);
  }

  /**
   * `decodeProductSkillState` accepts exactly the records of valid states, of either version, and gives
   * back the state; version 1 is flagged for migration.
   */
  method DecodeProductSkillState(digest: Digest, v: Value, target: string) returns (r: Option<Decoded>)
    ensures r.Some? ==> ValidState(digest, r.value.state, target) && v == RecordOf(r.value.state, r.value.migrationRequired)
    ensures r.None? ==> forall s, migrates :: ValidState(digest, s, target) ==> v != RecordOf(s, migrates)
  {
    forall s, migrates | ValidState(digest, s, target) && v == RecordOf(s, migrates)
      ensures GoodHeader(digest, v, target) && v.fields[Files].items == FileRecords(s.files)
      ensures StateOf(digest, v, target, s.files) == s
    {
      ValidHasHeader(digest, s, target, migrates);
    }
    if !GoodHeader(digest, v, target) {
      return None;
    }
    var files := DecodeFiles(v.fields[Files].items);
    if files.None? {
      return None;
    }
    forall s, migrates | ValidState(digest, s, target) && v == RecordOf(s, migrates)
      ensures s.files == files.value
    {
      FileRecordsInjective(s.files, files.value);
    }
    var state := StateOf(digest, v, target, files.value);
    if !ExpectedFiles(files.value, target, state.skillSlug) {
      return None;
    }
    HeaderInverse(digest, v, target, files.value);
    return Some(Decoded(state, Holds(v.fields, SchemaVersion, Whole(1))));
  }

  // Creating

  /** What `createProductSkillState` takes from the artifact, the bundle and the rendered files. */
  datatype Input = Input(
    target: string, name: string, rendererVersion: string,
    sourceManifestSha256: string, mcpSurfaceSha256: string, bundleSha256: string, files: seq<StateFile>)

  /** `createProductSkillState`. */
  function Create(digest: Digest, input: Input): State {
    State(input.target, input.name, Slug(digest, input.name), input.rendererVersion,
          input.sourceManifestSha256, input.mcpSurfaceSha256, input.bundleSha256, input.files)
  }

  predicate ValidInput(digest: Digest, input: Input) {
    && IsAppName(input.name) && !IsBlank(input.rendererVersion)
    && IsDigest(input.sourceManifestSha256) && IsDigest(input.mcpSurfaceSha256) && IsDigest(input.bundleSha256)
    && GoodStateFiles(input.files) && ExpectedFiles(input.files, input.target, Slug(digest, input.name))
  }

  /** Every part of the input is in the state, in its own place. */
  predicate StatesInput(s: State, input: Input) {
    && s.target == input.target && s.name == input.name && s.rendererVersion == input.rendererVersion
    && s.sourceManifestSha256 == input.sourceManifestSha256 && s.mcpSurfaceSha256 == input.mcpSurfaceSha256
    && s.bundleSha256 == input.bundleSha256 && s.files == input.files
  }

  /** Decoding a created record returns it, and decoding its version-1 form returns it flagged for migration. */
  method CreatedDecodes(digest: Digest, input: Input) returns (new2: Option<Decoded>, old1: Option<Decoded>)
    requires ValidInput(digest, input)
    ensures new2 == Some(Decoded(Create(digest, input), false))
    ensures old1 == Some(Decoded(Create(digest, input), true))
    ensures StatesInput(new2.value.state, input)
    ensures ValidState(digest, new2.value.state, input.target)
  {
    var s := Create(digest, input);
    new2 := DecodeProductSkillState(digest, V2Record(s), input.target);
    old1 := DecodeProductSkillState(digest, V1Record(s), input.target);
    assert ValidState(digest, s, input.target) && V2Record(s) == RecordOf(s, false) && V1Record(s) == RecordOf(s, true);
    RecordsDiffer(digest, new2.value.state, s, input.target, new2.value.migrationRequired, false);
    RecordsDiffer(digest, old1.value.state, s, input.target, old1.value.migrationRequired, true);
  }
}
