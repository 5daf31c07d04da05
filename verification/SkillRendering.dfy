/** `renderRegisteredSkillFiles`, `renderPublishableSkills` and `renderAgentKitManifest`. */
module SkillRendering {

  import opened SkillRegistry

  datatype Rendered = Rendered(relPath: string, content: string)

  datatype RegisteredFile = RegisteredFile(
    skill: string, skillVersion: string, agentTarget: string, relPath: string, content: string,
    publishPath: string, installedPath: string)

  /** `stampSkill`: front matter and digest around a body. */
  type Stamp = (SkillDefinition, string) -> string

  function InstalledRoot(host: string): string {
    if host == CODEX then ".agents/skills" else ".claude/skills"
  }

  function PublishPath(d: SkillDefinition, host: string, relPath: string): string {
    (if d.publishAtTargetRoot then "skills/" + host else "skills/" + host + "/" + d.name) + "/" + relPath
  }

  function InstalledPath(d: SkillDefinition, host: string, relPath: string): string {
    InstalledRoot(host) + "/" + d.name + "/" + relPath
  }

  function FileOf(d: SkillDefinition, host: string, r: Rendered): RegisteredFile {
    RegisteredFile(d.name, d.version, host, r.relPath, r.content,
                   PublishPath(d, host, r.relPath), InstalledPath(d, host, r.relPath))
  }

  function RenderedOf(d: SkillDefinition, host: string, stamp: Stamp): (rs: seq<Rendered>)
    ensures |rs| == 1 + |d.files|
  {
    [Rendered("SKILL.md", stamp(d, d.renderBody(host)))]
    + seq(|d.files|, k requires 0 <= k < |d.files| => Rendered(d.files[k].relPath, d.files[k].render(host)))
  }

  function FilesOf(d: SkillDefinition, host: string, stamp: Stamp): (fs: seq<RegisteredFile>)
    ensures |fs| == 1 + |d.files|
  {
    var rs := RenderedOf(d, host, stamp);
    seq(|rs|, k requires 0 <= k < |rs| => FileOf(d, host, rs[k]))
  }

  /** Every file of every skill that supports the host, in order. */
  function Listing(ds: seq<SkillDefinition>, host: string, stamp: Stamp): seq<RegisteredFile> {
    if ds == [] then []
    else
      var last := ds[|ds| - 1];
      Listing(ds[..|ds| - 1], host, stamp) + if host in last.supportedHosts then FilesOf(last, host, stamp) else []
  }

  // What is checked along the way

  predicate DistinctBy(key: RegisteredFile -> string, fs: seq<RegisteredFile>) {
    forall i, j | 0 <= i < j < |fs| :: key(fs[i]) != key(fs[j])
  }

  function Publish(): RegisteredFile -> string {
    (f: RegisteredFile) => f.publishPath
  }

  function Installed(): RegisteredFile -> string {
    (f: RegisteredFile) => f.installedPath
  }

  function HasContent(): RegisteredFile -> bool {
    (f: RegisteredFile) => !IsBlank(f.content)
  }

  predicate Sound(fs: seq<RegisteredFile>) {
    DistinctBy(Publish(), fs) && DistinctBy(Installed(), fs) && All(HasContent(), fs)
  }

  predicate HasBody(host: string, d: SkillDefinition) {
    host in d.supportedHosts ==> !IsBlank(d.renderBody(host))
  }

  predicate Renderable(ds: seq<SkillDefinition>, host: string, stamp: Stamp) {
    host in HOSTS && All((d: SkillDefinition) => HasBody(host, d), ds) && Sound(Listing(ds, host, stamp))
  }

  ghost function KeysOf(key: RegisteredFile -> string, fs: seq<RegisteredFile>): set<string> {
    set k | 0 <= k < |fs| :: key(fs[k])
  }

  lemma DistinctStep(key: RegisteredFile -> string, fs: seq<RegisteredFile>, f: RegisteredFile)
    ensures DistinctBy(key, fs + [f]) <==> DistinctBy(key, fs) && key(f) !in KeysOf(key, fs)
    ensures KeysOf(key, fs + [f]) == KeysOf(key, fs) + {key(f)}
  {
    var up := fs + [f];
    assert up[|fs|] == f && up[..|fs|] == fs;
    if DistinctBy(key, up) {
      forall i | 0 <= i < |fs|
        ensures key(fs[i]) != key(f)
      {
        assert key(up[i]) != key(up[|fs|]);
      }
      forall i, j | 0 <= i < j < |fs|
        ensures key(fs[i]) != key(fs[j])
      {
        assert key(up[i]) != key(up[j]);
      }
    }
  }

  lemma SoundStep(fs: seq<RegisteredFile>, f: RegisteredFile)
    ensures Sound(fs + [f]) <==>
            && Sound(fs) && !IsBlank(f.content)
            && f.publishPath !in KeysOf(Publish(), fs) && f.installedPath !in KeysOf(Installed(), fs)
    ensures KeysOf(Publish(), fs + [f]) == KeysOf(Publish(), fs) + {f.publishPath}
    ensures KeysOf(Installed(), fs + [f]) == KeysOf(Installed(), fs) + {f.installedPath}
  {
    DistinctStep(Publish(), fs, f);
    DistinctStep(Installed(), fs, f);
    AllStep(HasContent(), fs + [f], |fs|);
    assert (fs + [f])[..|fs|] == fs && (fs + [f])[..|fs| + 1] == fs + [f];
  }

  lemma SoundPrefix(fs: seq<RegisteredFile>, n: nat)
    requires n <= |fs|
    ensures Sound(fs) ==> Sound(fs[..n])
  {
  }

  // The program

  /** The files listed so far, and the paths they take. */
  datatype Rendering = Rendering(files: seq<RegisteredFile>, publishPaths: set<string>, installedPaths: set<string>)

  ghost predicate Consistent(s: Rendering) {
    && Sound(s.files)
    && s.publishPaths == KeysOf(Publish(), s.files) && s.installedPaths == KeysOf(Installed(), s.files)
  }

  /** One turn of the inner loop. */
  method AddFile(state: Rendering, file: RegisteredFile) returns (r: Result<Rendering>)
    requires Consistent(state)
    ensures r.Ok? <==> Sound(state.files + [file])
    ensures r.Ok? ==> Consistent(r.value) && r.value.files == state.files + [file]
    ensures r.Throws? ==> r.fault == if IsBlank(file.content) then EmptyFile else DuplicatePath
  {
    SoundStep(state.files, file);
    if IsBlank(file.content) {
      return Throws(EmptyFile);
    }
    if file.publishPath in state.publishPaths || file.installedPath in state.installedPaths {
      return Throws(DuplicatePath);
    }
    return Ok(Rendering(state.files + [file],
                        state.publishPaths + {file.publishPath}, state.installedPaths + {file.installedPath}));
  }

  lemma TakeOneMore<T>(start: seq<T>, added: seq<T>, k: nat)
    requires k < |added|
    ensures start + added[..k + 1] == start + added[..k] + [added[k]]
    ensures start + added[..k + 1] == (start + added)[..|start| + k + 1]
  {
  }

  /** File `i` is the first at which rendering stops, for this reason. */
  ghost predicate FileStops(fs: seq<RegisteredFile>, i: nat, fault: Fault) {
    && i < |fs| && Sound(fs[..i]) && !Sound(fs[..i + 1])
    && fault == if IsBlank(fs[i].content) then EmptyFile else DuplicatePath
  }

  ghost predicate SomeFileStops(fs: seq<RegisteredFile>, fault: Fault) {
    exists i :: FileStops(fs, i, fault)
  }

  lemma StopsAt(fs: seq<RegisteredFile>, i: nat, before: seq<RegisteredFile>, fault: Fault)
    requires i < |fs| && before == fs[..i] && Sound(before) && !Sound(before + [fs[i]])
    requires fault == if IsBlank(fs[i].content) then EmptyFile else DuplicatePath
    ensures FileStops(fs, i, fault)
  {
    assert fs[..i + 1] == before + [fs[i]];
  }

  lemma StopsBehind(start: seq<RegisteredFile>, added: seq<RegisteredFile>, k: nat, before: seq<RegisteredFile>, fault: Fault)
    requires k < |added| && before == start + added[..k] && Sound(before) && !Sound(before + [added[k]])
    requires fault == if IsBlank(added[k].content) then EmptyFile else DuplicatePath
    ensures !Sound(start + added) && SomeFileStops(start + added, fault)
  {
    var fs, i := start + added, |start| + k;
    TakeOneMore(start, added, k);
    SoundPrefix(fs, i + 1);
    assert fs[..i] == before && fs[i] == added[k];
    StopsAt(fs, i, before, fault);
  }

  /** The inner loop: the files of one definition. */
  method AddDefinition(start: Rendering, d: SkillDefinition, host: string, stamp: Stamp) returns (r: Result<Rendering>)
    requires Consistent(start)
    ensures r.Ok? <==> Sound(start.files + FilesOf(d, host, stamp))
    ensures r.Ok? ==> Consistent(r.value) && r.value.files == start.files + FilesOf(d, host, stamp)
    ensures r.Throws? ==> SomeFileStops(start.files + FilesOf(d, host, stamp), r.fault)
  {
    var rendered := RenderedOf(d, host, stamp);
    ghost var added := FilesOf(d, host, stamp);
    var state := start;
    for k := 0 to |rendered|
      invariant Consistent(state) && state.files == start.files + added[..k]
    {
      TakeOneMore(start.files, added, k);
      var next := AddFile(state, FileOf(d, host, rendered[k]));
      if next.Throws? {
        StopsBehind(start.files, added, k, state.files, next.fault);
        return Throws(next.fault);
      }
      state := next.value;
    }
    assert added[..|added|] == added;
    return Ok(state);
  }

  lemma {:induction false} ListingPrefix(ds: seq<SkillDefinition>, host: string, stamp: Stamp, k: nat)
    requires k <= |ds|
    ensures |Listing(ds[..k], host, stamp)| <= |Listing(ds, host, stamp)|
    ensures Listing(ds[..k], host, stamp) == Listing(ds, host, stamp)[..|Listing(ds[..k], host, stamp)|]
    decreases |ds|
  {
    if k == |ds| {
      assert ds[..k] == ds;
    } else {
      ListingPrefix(ds[..|ds| - 1], host, stamp, k);
      assert ds[..|ds| - 1][..k] == ds[..k];
    }
  }

  lemma ListingStep(ds: seq<SkillDefinition>, host: string, stamp: Stamp, k: nat)
    requires k < |ds|
    ensures Listing(ds[..k + 1], host, stamp)
         == Listing(ds[..k], host, stamp) + if host in ds[k].supportedHosts then FilesOf(ds[k], host, stamp) else []
  {
    assert ds[..k + 1][..k] == ds[..k];
  }

  lemma RenderablePrefix(ds: seq<SkillDefinition>, host: string, stamp: Stamp, k: nat)
    requires k <= |ds|
    ensures Renderable(ds, host, stamp) ==> Sound(Listing(ds[..k], host, stamp))
  {
    ListingPrefix(ds, host, stamp, k);
    SoundPrefix(Listing(ds, host, stamp), |Listing(ds[..k], host, stamp)|);
  }

  /** Definition `k` is the first at which rendering stops: its body is blank, or one of its files stops it. */
  ghost predicate RenderingStops(ds: seq<SkillDefinition>, host: string, stamp: Stamp, k: nat, fault: Fault) {
    && k < |ds| && host in ds[k].supportedHosts && Sound(Listing(ds[..k], host, stamp))
    && (if IsBlank(ds[k].renderBody(host)) then fault == EmptyBody
        else SomeFileStops(Listing(ds[..k + 1], host, stamp), fault))
  }

  /** `renderRegisteredSkillFiles`: lists every file, or throws when one is blank or two share a path. */
  method RenderRegisteredSkillFiles(ds: seq<SkillDefinition>, host: string, stamp: Stamp)
    returns (r: Result<seq<RegisteredFile>>)
    ensures r.Ok? <==> Renderable(ds, host, stamp)
    ensures r.Ok? ==> r.value == Listing(ds, host, stamp)
    ensures r.Throws? ==> if host !in HOSTS then r.fault == UnsupportedHost else exists k :: RenderingStops(ds, host, stamp, k, r.fault)
  {
    if host !in HOSTS {
      return Throws(UnsupportedHost);
    }
    ghost var hasBody := (d: SkillDefinition) => HasBody(host, d);
    var state := Rendering([], {}, {});
    for k := 0 to |ds|
      invariant Consistent(state) && state.files == Listing(ds[..k], host, stamp)
      invariant All(hasBody, ds[..k])
    {
      var definition := ds[k];
      ListingStep(ds, host, stamp, k);
      AllStep(hasBody, ds, k);
      if host !in definition.supportedHosts {
        continue;
      }
      if IsBlank(definition.renderBody(host)) {
        assert !hasBody(ds[k]);
        assert RenderingStops(ds, host, stamp, k, EmptyBody);
        return Throws(EmptyBody);
      }
      var added := AddDefinition(state, definition, host, stamp);
      if added.Throws? {
        RenderablePrefix(ds, host, stamp, k + 1);
        assert RenderingStops(ds, host, stamp, k, added.fault);
        return Throws(added.fault);
      }
      state := added.value;
    }
    assert ds[..|ds|] == ds;
    return Ok(state.files);
  }

  // The manifest

  datatype ManifestEntry = ManifestEntry(path: string, installedPath: string)

  /** The publishable files of both hosts. */
  function Publishable(ds: seq<SkillDefinition>, stamp: Stamp): seq<RegisteredFile> {
    Listing(ds, CODEX, stamp) + Listing(ds, CLAUDE_CODE, stamp)
  }

  /** `new Map(mappings.map(...))`: a later file with the same publish path wins. */
  function InstalledByPublish(fs: seq<RegisteredFile>): map<string, string> {
    if fs == [] then map[]
    else InstalledByPublish(fs[..|fs| - 1])[fs[|fs| - 1].publishPath := fs[|fs| - 1].installedPath]
  }

  datatype Manifest = Manifest(files: seq<ManifestEntry>) | RenderingThrows(fault: Fault)

  /** `renderAgentKitManifest`, without digests. */
  method RenderAgentKitManifest(ds: seq<SkillDefinition>, stamp: Stamp) returns (r: Manifest)
    ensures r.Manifest? <==> Renderable(ds, CODEX, stamp) && Renderable(ds, CLAUDE_CODE, stamp)
    ensures r.Manifest? ==>
              var files := Publishable(ds, stamp);
              var installed := InstalledByPublish(files);
              && |r.files| == |files|
              && forall k | 0 <= k < |files| ::
                   && files[k].publishPath in installed
                   && r.files[k] == ManifestEntry(files[k].publishPath, installed[files[k].publishPath])
  {
    var codex := RenderRegisteredSkillFiles(ds, CODEX, stamp);
    if codex.Throws? {
      return RenderingThrows(codex.fault);
    }
    var claude := RenderRegisteredSkillFiles(ds, CLAUDE_CODE, stamp);
    if claude.Throws? {
      return RenderingThrows(claude.fault);
    }
    var files := codex.value + claude.value;
    var installedByPublish := InstalledByPublish(files);
    var entries: seq<ManifestEntry> := [];
    for k := 0 to |files|
      invariant |entries| == k
      invariant forall j | 0 <= j < k ::
          && files[j].publishPath in installedByPublish
          && entries[j] == ManifestEntry(files[j].publishPath, installedByPublish[files[j].publishPath])
    {
      PublishPathIsMapped(files, k);
      entries := entries + [ManifestEntry(files[k].publishPath, installedByPublish[files[k].publishPath])];
    }
    return Manifest(entries);
  }

  lemma {:induction false} PublishPathIsMapped(fs: seq<RegisteredFile>, k: nat)
    requires k < |fs|
    ensures fs[k].publishPath in InstalledByPublish(fs)
  {
    if k < |fs| - 1 {
      PublishPathIsMapped(fs[..|fs| - 1], k);
    }
  }
}
