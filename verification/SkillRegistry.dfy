/** `defineSkillRegistry` and `renderRegisteredSkillFiles` of `skill-registry.ts`, and the manifest of `index.ts`. */
module SkillRegistry {

  import opened TextSearch

  const CODEX := "codex"
  const CLAUDE_CODE := "claude-code"
  const HOSTS: seq<string> := [CODEX, CLAUDE_CODE]

  datatype DefinitionFile = DefinitionFile(relPath: string, render: string -> string)

  datatype SkillDefinition = SkillDefinition(
    name: string, description: string, version: string, supportedHosts: seq<string>,
    renderBody: string -> string, files: seq<DefinitionFile>, publishAtTargetRoot: bool)

  datatype Fault =
    | InvalidName | DuplicateName | InvalidDescription | InvalidVersion | NoHost | InvalidHosts
    | InvalidFile | DuplicateFile | TwoAtTargetRoot
    | UnsupportedHost | EmptyBody | EmptyFile | DuplicatePath

  datatype Result<+T> = Ok(value: T) | Throws(fault: Fault)

  // The patterns

  predicate IsLowerOrDigit(c: char) {
    'a' <= c <= 'z' || '0' <= c <= '9'
  }

  /** `/^[a-z0-9]+(?:-[a-z0-9]+)*$/`. */
  predicate IsSkillName(s: string) {
    forall part | part in Split(s, '-') :: part != "" && forall k | 0 <= k < |part| :: IsLowerOrDigit(part[k])
  }

  predicate IsNumber(s: string) {
    s != "" && (forall k | 0 <= k < |s| :: '0' <= s[k] <= '9') && (s[0] == '0' ==> |s| == 1)
  }

  /** `/^(0|[1-9]\d*)\.(0|[1-9]\d*)\.(0|[1-9]\d*)$/`. */
  predicate IsVersion(s: string) {
    |Split(s, '.')| == 3 && forall part | part in Split(s, '.') :: IsNumber(part)
  }

  predicate IsBlank(s: string) {
    forall k | 0 <= k < |s| :: IsSpace(s[k])
  }

  predicate IsDescription(s: string) {
    !IsBlank(s) && Utf16Length(s) <= 300 && '\n' !in s
  }

  predicate EndsLine(c: char) {
    c in {'\n', '\r', '\U{2028}', '\U{2029}'}
  }

  /** `/^(?!\/)(?!.*(?:^|\/)\.\.(?:\/|$))[^\0]+$/`: the second look-ahead sees only the first line. */
  predicate IsRelativePath(s: string) {
    var parts := Split(s, '/');
    && s != "" && s[0] != '/' && '\0' !in s
    && forall k | 0 <= k < |parts| ::
         parts[k] == ".." ==> exists j, i | 0 <= j < k && 0 <= i < |parts[j]| :: EndsLine(parts[j][i])
  }

  predicate IsFilePath(s: string) {
    IsRelativePath(s) && s != "SKILL.md" && !EndsWith(s, "/") && Utf16Length(s) <= 300
  }

  // What a registry may be

  predicate DistinctHosts(hosts: seq<string>) {
    forall i, j | 0 <= i < j < |hosts| :: hosts[i] != hosts[j]
  }

  predicate GoodHosts(hosts: seq<string>) {
    hosts != [] && DistinctHosts(hosts) && forall host | host in hosts :: host in HOSTS
  }

  predicate GoodFiles(files: seq<DefinitionFile>) {
    && (forall k | 0 <= k < |files| :: IsFilePath(files[k].relPath))
    && (forall i, j | 0 <= i < j < |files| :: files[i].relPath != files[j].relPath)
  }

  predicate GoodDefinition(d: SkillDefinition) {
    && IsSkillName(d.name) && Utf16Length(d.name) <= 100 && IsDescription(d.description) && IsVersion(d.version)
    && GoodHosts(d.supportedHosts) && GoodFiles(d.files)
  }

  function RootCount(ds: seq<SkillDefinition>): nat {
    if ds == [] then 0 else RootCount(ds[..|ds| - 1]) + if ds[|ds| - 1].publishAtTargetRoot then 1 else 0
  }

  predicate DistinctNames(ds: seq<SkillDefinition>) {
    forall i, j | 0 <= i < j < |ds| :: ds[i].name != ds[j].name
  }

  predicate All<T>(good: T -> bool, xs: seq<T>) {
    forall k | 0 <= k < |xs| :: good(xs[k])
  }

  predicate GoodDefinitions(ds: seq<SkillDefinition>) {
    All(GoodDefinition, ds) && DistinctNames(ds)
  }

  predicate Acceptable(ds: seq<SkillDefinition>) {
    GoodDefinitions(ds) && RootCount(ds) <= 1
  }

  // Defining

  function SetOf(hosts: seq<string>): set<string> {
    set host | host in hosts
  }

  lemma {:induction false} SetSizeTellsDuplicates(hosts: seq<string>)
    ensures |SetOf(hosts)| == |hosts| <==> DistinctHosts(hosts)
    ensures |SetOf(hosts)| <= |hosts|
  {
    if hosts != [] {
      var rest, last := hosts[..|hosts| - 1], hosts[|hosts| - 1];
      SetSizeTellsDuplicates(rest);
      assert hosts == rest + [last];
      assert SetOf(hosts) == SetOf(rest) + {last};
      if last in SetOf(rest) {
        assert SetOf(hosts) == SetOf(rest);
        assert exists i | 0 <= i < |rest| :: hosts[i] == last;
      } else {
        assert forall i | 0 <= i < |rest| :: hosts[i] != last;
      }
    }
  }

  ghost function Paths(files: seq<DefinitionFile>): set<string> {
    set k | 0 <= k < |files| :: files[k].relPath
  }

  ghost function Names(ds: seq<SkillDefinition>): set<string> {
    set k | 0 <= k < |ds| :: ds[k].name
  }

  /** File `k` is the first that is not accepted, for this reason. */
  ghost predicate FileFails(files: seq<DefinitionFile>, k: nat, fault: Fault) {
    && k < |files| && GoodFiles(files[..k])
    && (if IsFilePath(files[k].relPath) then files[k].relPath in Paths(files[..k]) && fault == DuplicateFile
        else fault == InvalidFile)
  }

  lemma FailsAt(files: seq<DefinitionFile>, k: nat, fault: Fault)
    requires FileFails(files, k, fault)
    ensures !GoodFiles(files) && exists j :: FileFails(files, j, fault)
  {
  }

  method CheckFiles(files: seq<DefinitionFile>) returns (r: Result<()>)
    ensures r.Ok? <==> GoodFiles(files)
    ensures r.Throws? ==> exists k :: FileFails(files, k, r.fault)
  {
    var paths: set<string> := {};
    for k := 0 to |files|
      invariant GoodFiles(files[..k]) && paths == Paths(files[..k])
    {
      var file := files[k];
      if !IsFilePath(file.relPath) {
        FailsAt(files, k, InvalidFile);
        return Throws(InvalidFile);
      }
      if file.relPath in paths {
        FailsAt(files, k, DuplicateFile);
        return Throws(DuplicateFile);
      }
      paths := paths + {file.relPath};
    }
    assert files[..|files|] == files;
    return Ok(());
  }

  /** What is wrong with a definition: the first of these that applies, in this order. */
  ghost predicate DefinitionFails(d: SkillDefinition, names: set<string>, fault: Fault) {
    if !IsSkillName(d.name) || Utf16Length(d.name) > 100 then fault == InvalidName
    else if d.name in names then fault == DuplicateName
    else if !IsDescription(d.description) then fault == InvalidDescription
    else if !IsVersion(d.version) then fault == InvalidVersion
    else if d.supportedHosts == [] then fault == NoHost
    else if !GoodHosts(d.supportedHosts) then fault == InvalidHosts
    else exists k :: FileFails(d.files, k, fault)
  }

  /** `definitions.map(...)` of `defineSkillRegistry`, one definition. */
  method CheckDefinition(d: SkillDefinition, names: set<string>) returns (r: Result<()>)
    ensures r.Ok? <==> GoodDefinition(d) && d.name !in names
    ensures r.Throws? ==> DefinitionFails(d, names, r.fault)
  {
    if !IsSkillName(d.name) || Utf16Length(d.name) > 100 {
      return Throws(InvalidName);
    }
    if d.name in names {
      return Throws(DuplicateName);
    }
    if IsBlank(d.description) || Utf16Length(d.description) > 300 || '\n' in d.description {
      return Throws(InvalidDescription);
    }
    if !IsVersion(d.version) {
      return Throws(InvalidVersion);
    }
    if d.supportedHosts == [] {
      return Throws(NoHost);
    }
    SetSizeTellsDuplicates(d.supportedHosts);
    if |SetOf(d.supportedHosts)| != |d.supportedHosts| || exists host | host in d.supportedHosts :: host !in HOSTS {
      return Throws(InvalidHosts);
    }
    r := CheckFiles(d.files);
  }

  lemma AllStep<T>(good: T -> bool, xs: seq<T>, k: nat)
    requires k < |xs|
    ensures All(good, xs[..k + 1]) <==> All(good, xs[..k]) && good(xs[k])
  {
    assert xs[..k + 1] == xs[..k] + [xs[k]];
    assert xs[..k + 1][k] == xs[k];
  }

  lemma NamesStep(ds: seq<SkillDefinition>, k: nat)
    requires k < |ds|
    ensures Names(ds[..k + 1]) == Names(ds[..k]) + {ds[k].name}
    ensures DistinctNames(ds[..k + 1]) <==> DistinctNames(ds[..k]) && ds[k].name !in Names(ds[..k])
  {
    assert ds[..k + 1] == ds[..k] + [ds[k]];
    assert ds[..k + 1][k] == ds[k];
  }

  lemma GoodStep(ds: seq<SkillDefinition>, k: nat)
    requires k < |ds|
    ensures GoodDefinitions(ds[..k + 1]) <==>
            GoodDefinitions(ds[..k]) && GoodDefinition(ds[k]) && ds[k].name !in Names(ds[..k])
    ensures Names(ds[..k + 1]) == Names(ds[..k]) + {ds[k].name}
  {
    AllStep(GoodDefinition, ds, k);
    NamesStep(ds, k);
  }

  lemma RootStep(ds: seq<SkillDefinition>, k: nat)
    requires k < |ds|
    ensures RootCount(ds[..k + 1]) == RootCount(ds[..k]) + if ds[k].publishAtTargetRoot then 1 else 0
  {
    assert ds[..k + 1][..k] == ds[..k];
  }

  lemma GoodPrefix(ds: seq<SkillDefinition>, k: nat)
    requires k <= |ds|
    ensures GoodDefinitions(ds) ==> GoodDefinitions(ds[..k])
  {
  }

  /** Definition `k` is the first that is not accepted, for this reason. */
  ghost predicate FirstFails(ds: seq<SkillDefinition>, k: nat, fault: Fault) {
    k < |ds| && GoodDefinitions(ds[..k]) && DefinitionFails(ds[k], Names(ds[..k]), fault)
  }

  ghost predicate SomeFails(ds: seq<SkillDefinition>, fault: Fault) {
    exists k :: FirstFails(ds, k, fault)
  }

  lemma FailsFirst(ds: seq<SkillDefinition>, k: nat, fault: Fault)
    requires k < |ds| && GoodDefinitions(ds[..k]) && DefinitionFails(ds[k], Names(ds[..k]), fault)
    requires !(GoodDefinition(ds[k]) && ds[k].name !in Names(ds[..k]))
    ensures !GoodDefinitions(ds) && SomeFails(ds, fault)
  {
    GoodStep(ds, k);
    GoodPrefix(ds, k + 1);
    assert FirstFails(ds, k, fault);
  }

  /** `defineSkillRegistry`: what it accepts, it returns unchanged. */
  method DefineSkillRegistry(definitions: seq<SkillDefinition>) returns (r: Result<seq<SkillDefinition>>)
    ensures r.Ok? <==> Acceptable(definitions)
    ensures r.Ok? ==> r.value == definitions
    ensures r.Throws? ==> if GoodDefinitions(definitions) then r.fault == TwoAtTargetRoot
                          else SomeFails(definitions, r.fault)
  {
    var names: set<string> := {};
    var targetRootCount := 0;
    for k := 0 to |definitions|
      invariant GoodDefinitions(definitions[..k])
      invariant names == Names(definitions[..k])
      invariant targetRootCount == RootCount(definitions[..k])
    {
      var definition := definitions[k];
      GoodStep(definitions, k);
      RootStep(definitions, k);
      var checked := CheckDefinition(definition, names);
      if checked.Throws? {
        FailsFirst(definitions, k, checked.fault);
        return Throws(checked.fault);
      }
      names := names + {definition.name};
      if definition.publishAtTargetRoot {
        targetRootCount := targetRootCount + 1;
      }
    }
    assert definitions[..|definitions|] == definitions;
    if targetRootCount > 1 {
      return Throws(TwoAtTargetRoot);
    }
    return Ok(definitions);
  }
}
