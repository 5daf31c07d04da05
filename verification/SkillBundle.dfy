/** `validateFiles` of `product-skill-renderer.ts`: the four files of a rendered product skill. */
module SkillBundle {

  import opened TextSearch
  import opened SkillRegistry

  const MAX_FILE_BYTES: nat := 64 * 1024
  const MAX_TOTAL_BYTES: nat := 256 * 1024
  const MAX_SKILL_MD_LINES: nat := 500

  datatype RenderedFile = RenderedFile(target: string, path: string, content: string, sha256: string, byteLength: int)

  /** SHA-256 in hexadecimal, and the length of a text in UTF-8. */
  datatype Measures = Measures(sha256: string -> string, bytes: string -> nat)

  datatype BundleFault = UnsafePath | Invalid | TotalTooLarge | FileTooLarge

  datatype Verdict = Valid | Fails(fault: BundleFault)

  // The checks

  function Pair(target: string, path: string): string {
    target + "\0" + path
  }

  function Expected(slug: string): set<string> {
    {Pair(CODEX, ".agents/skills/" + slug + "/SKILL.md"),
     Pair(CODEX, ".agents/skills/" + slug + "/references/mcp-surface.md"),
     Pair(CLAUDE_CODE, ".claude/skills/" + slug + "/SKILL.md"),
     Pair(CLAUDE_CODE, ".claude/skills/" + slug + "/references/mcp-surface.md")}
  }

  /** `isSafeRelativePath`. */
  predicate IsSafePath(path: string) {
    && path != "" && path[0] != '/' && '\\' !in path && '\0' !in path
    && forall part | part in Split(path, '/') :: part != "" && part != "." && part != ".."
  }

  /** `hasOneLevelReferenceDepth`. */
  predicate IsOneLevel(path: string, slug: string) {
    path in {".agents/skills/" + slug + "/SKILL.md", ".agents/skills/" + slug + "/references/mcp-surface.md",
             ".claude/skills/" + slug + "/SKILL.md", ".claude/skills/" + slug + "/references/mcp-surface.md"}
  }

  function Breaks(s: string): nat {
    if s == "" then 0 else Breaks(s[1..]) + if s[0] == '\n' then 1 else 0
  }

  /** `markdownLineCount`. */
  function LineCount(s: string): nat {
    Breaks(s) + if EndsWith(s, "\n") then 0 else 1
  }

  predicate PathOk(f: RenderedFile, slug: string) {
    IsSafePath(f.path) && Pair(f.target, f.path) in Expected(slug) && IsOneLevel(f.path, slug)
  }

  predicate ContentOk(m: Measures, f: RenderedFile) {
    !IsBlank(f.content) && f.byteLength == m.bytes(f.content) && f.sha256 == m.sha256(f.content)
  }

  predicate LinesOk(f: RenderedFile) {
    EndsWith(f.path, "/SKILL.md") ==> LineCount(f.content) <= MAX_SKILL_MD_LINES
  }

  /** What the loop asks of each file on its own. */
  predicate FileOk(m: Measures, slug: string, f: RenderedFile) {
    PathOk(f, slug) && ContentOk(m, f) && LinesOk(f)
  }

  predicate DistinctPairs(files: seq<RenderedFile>) {
    forall i, j | 0 <= i < j < |files| :: Pair(files[i].target, files[i].path) != Pair(files[j].target, files[j].path)
  }

  ghost function PairsOf(files: seq<RenderedFile>): set<string> {
    set k | 0 <= k < |files| :: Pair(files[k].target, files[k].path)
  }

  function Total(m: Measures, files: seq<RenderedFile>): nat {
    if files == [] then 0 else Total(m, files[..|files| - 1]) + m.bytes(files[|files| - 1].content)
  }

  predicate SomeTooLarge(m: Measures, files: seq<RenderedFile>) {
    exists k | 0 <= k < |files| :: m.bytes(files[k].content) > MAX_FILE_BYTES
  }

  /** The files passed the loop. */
  predicate Passed(m: Measures, slug: string, files: seq<RenderedFile>) {
    All((f: RenderedFile) => FileOk(m, slug, f), files) && DistinctPairs(files)
  }

  lemma PassedStep(m: Measures, slug: string, files: seq<RenderedFile>, k: nat)
    requires k < |files|
    ensures Passed(m, slug, files[..k + 1]) <==>
            && Passed(m, slug, files[..k]) && FileOk(m, slug, files[k])
            && Pair(files[k].target, files[k].path) !in PairsOf(files[..k])
    ensures PairsOf(files[..k + 1]) == PairsOf(files[..k]) + {Pair(files[k].target, files[k].path)}
  {
    AllStep((f: RenderedFile) => FileOk(m, slug, f), files, k);
    PairsStep(files, k);
  }

  lemma PairsStep(files: seq<RenderedFile>, k: nat)
    requires k < |files|
    ensures DistinctPairs(files[..k + 1]) <==>
            DistinctPairs(files[..k]) && Pair(files[k].target, files[k].path) !in PairsOf(files[..k])
    ensures PairsOf(files[..k + 1]) == PairsOf(files[..k]) + {Pair(files[k].target, files[k].path)}
  {
    assert files[..k + 1] == files[..k] + [files[k]];
    assert files[..k + 1][k] == files[k];
  }

  lemma PassedPrefix(m: Measures, slug: string, files: seq<RenderedFile>, k: nat)
    requires k <= |files|
    ensures Passed(m, slug, files) ==> Passed(m, slug, files[..k])
  {
  }

  lemma SizeStep(m: Measures, files: seq<RenderedFile>, k: nat)
    requires k < |files|
    ensures Total(m, files[..k + 1]) == Total(m, files[..k]) + m.bytes(files[k].content)
    ensures SomeTooLarge(m, files[..k + 1]) <==>
            SomeTooLarge(m, files[..k]) || m.bytes(files[k].content) > MAX_FILE_BYTES
  {
    assert files[..k + 1][..k] == files[..k];
    assert files[..k + 1] == files[..k] + [files[k]];
  }

  lemma {:induction false} PairCount(files: seq<RenderedFile>)
    ensures DistinctPairs(files) ==> |PairsOf(files)| == |files|
  {
    if files != [] {
      PairCount(files[..|files| - 1]);
      PairsStep(files, |files| - 1);
      assert files[..|files|] == files;
    }
  }

  /** Files of at most the limit each cannot exceed the total limit: there are only four. */
  lemma {:induction false} SmallFilesAddUp(m: Measures, files: seq<RenderedFile>)
    ensures !SomeTooLarge(m, files) ==> Total(m, files) <= |files| * MAX_FILE_BYTES
  {
    if files != [] {
      SmallFilesAddUp(m, files[..|files| - 1]);
      SizeStep(m, files, |files| - 1);
      assert files[..|files|] == files;
    }
  }

  lemma FourExpected(slug: string)
    ensures |Expected(slug)| == 4
  {
    var a, b := Pair(CODEX, ".agents/skills/" + slug + "/SKILL.md"), Pair(CODEX, ".agents/skills/" + slug + "/references/mcp-surface.md");
    var c, d := Pair(CLAUDE_CODE, ".claude/skills/" + slug + "/SKILL.md"), Pair(CLAUDE_CODE, ".claude/skills/" + slug + "/references/mcp-surface.md");
    assert |a| < |b| && |c| < |d|;
    assert a[1] == b[1] == 'o' && c[1] == d[1] == 'l';
    assert Expected(slug) == {a, b, c, d};
  }

  lemma PassedAreExpected(m: Measures, slug: string, files: seq<RenderedFile>)
    ensures Passed(m, slug, files) ==> PairsOf(files) <= Expected(slug)
  {
    if Passed(m, slug, files) {
      forall k | 0 <= k < |files|
        ensures Pair(files[k].target, files[k].path) in Expected(slug)
      {
        assert FileOk(m, slug, files[k]);
      }
    }
  }

  lemma {:induction false} SubsetSize<T>(few: set<T>, all: set<T>)
    requires few <= all
    ensures |few| <= |all| && (|few| == |all| ==> few == all)
  {
    if few != {} {
      var x :| x in few;
      SubsetSize(few - {x}, all - {x});
      assert few == few - {x} + {x} && all == all - {x} + {x};
    }
  }

  /** Behind the loop, comparing sizes compares sets: four files are the expected ones. */
  lemma FourFilesAreAll(m: Measures, slug: string, files: seq<RenderedFile>)
    ensures Passed(m, slug, files) ==> |files| <= 4 && (|files| == 4 <==> PairsOf(files) == Expected(slug))
  {
    if Passed(m, slug, files) {
      PassedAreExpected(m, slug, files);
      FourExpected(slug);
      SubsetSize(PairsOf(files), Expected(slug));
      PairCount(files);
    }
  }

  /** Each expected file once, each as it should be, and none too large. */
  ghost predicate GoodBundle(m: Measures, slug: string, files: seq<RenderedFile>) {
    Passed(m, slug, files) && PairsOf(files) == Expected(slug) && !SomeTooLarge(m, files)
  }

  /** The fault of a file behind files that passed. */
  function FaultOf(m: Measures, slug: string, f: RenderedFile, seen: bool): BundleFault {
    if !PathOk(f, slug) || seen then UnsafePath else if !ContentOk(m, f) then Invalid else FileTooLarge
  }

  /** The first file at which the loop throws. */
  ghost predicate ThrowsAt(m: Measures, slug: string, files: seq<RenderedFile>, k: nat, fault: BundleFault) {
    && k < |files| && Passed(m, slug, files[..k]) && !Passed(m, slug, files[..k + 1])
    && fault == FaultOf(m, slug, files[k], Pair(files[k].target, files[k].path) in PairsOf(files[..k]))
  }

  /** The verdict that the bundle deserves. */
  ghost predicate Deserved(m: Measures, slug: string, files: seq<RenderedFile>, v: Verdict) {
    && (v == Valid <==> GoodBundle(m, slug, files))
    && (!Passed(m, slug, files) ==> v.Fails? && exists k :: ThrowsAt(m, slug, files, k, v.fault))
    && (Passed(m, slug, files) && PairsOf(files) != Expected(slug) ==> v == Fails(UnsafePath))
    && (Passed(m, slug, files) && PairsOf(files) == Expected(slug) && SomeTooLarge(m, files) ==>
          v == Fails(if Total(m, files) > MAX_TOTAL_BYTES then TotalTooLarge else FileTooLarge))
  }

  lemma ThrownIsDeserved(m: Measures, slug: string, files: seq<RenderedFile>, k: nat, fault: BundleFault)
    requires ThrowsAt(m, slug, files, k, fault)
    ensures !Passed(m, slug, files) && Deserved(m, slug, files, Fails(fault))
  {
    PassedPrefix(m, slug, files, k + 1);
  }

  /** The checks behind the loop. */
  function Concluded(size: nat, total: nat, tooLarge: bool): Verdict {
    if size != 4 then Fails(UnsafePath)
    else if total > MAX_TOTAL_BYTES then Fails(TotalTooLarge)
    else if tooLarge then Fails(FileTooLarge)
    else Valid
  }

  lemma ConcludedIsDeserved(m: Measures, slug: string, files: seq<RenderedFile>)
    requires Passed(m, slug, files)
    ensures Deserved(m, slug, files, Concluded(|files|, Total(m, files), SomeTooLarge(m, files)))
    ensures |PairsOf(files)| == |files|
  {
    PairCount(files);
    FourFilesAreAll(m, slug, files);
    SmallFilesAddUp(m, files);
  }

  /** The checks of the loop on one file. */
  method CheckFile(m: Measures, slug: string, file: RenderedFile, seen: bool) returns (v: Verdict)
    ensures v == Valid <==> FileOk(m, slug, file) && !seen
    ensures v != Valid ==> v == Fails(FaultOf(m, slug, file, seen))
  {
    if !IsSafePath(file.path) || Pair(file.target, file.path) !in Expected(slug) || !IsOneLevel(file.path, slug) || seen {
      return Fails(UnsafePath);
    }
    if IsBlank(file.content) || file.byteLength != m.bytes(file.content) || file.sha256 != m.sha256(file.content) {
      return Fails(Invalid);
    }
    if EndsWith(file.path, "/SKILL.md") && LineCount(file.content) > MAX_SKILL_MD_LINES {
      return Fails(FileTooLarge);
    }
    return Valid;
  }

  /** The loop. */
  method CheckFiles(m: Measures, slug: string, files: seq<RenderedFile>)
    returns (v: Verdict, pairs: set<string>, totalBytes: nat, fileTooLarge: bool)
    ensures v == Valid <==> Passed(m, slug, files)
    ensures v != Valid ==> Deserved(m, slug, files, v)
    ensures v == Valid ==> pairs == PairsOf(files) && totalBytes == Total(m, files) && fileTooLarge == SomeTooLarge(m, files)
  {
    v, pairs, totalBytes, fileTooLarge := Valid, {}, 0, false;
    for k := 0 to |files|
      invariant v == Valid && Passed(m, slug, files[..k]) && pairs == PairsOf(files[..k])
      invariant totalBytes == Total(m, files[..k]) && fileTooLarge == SomeTooLarge(m, files[..k])
    {
      var file := files[k];
      var pair := Pair(file.target, file.path);
      PassedStep(m, slug, files, k);
      v := CheckFile(m, slug, file, pair in pairs);
      if v != Valid {
        ThrownIsDeserved(m, slug, files, k, v.fault);
        return;
      }
      SizeStep(m, files, k);
      pairs := pairs + {pair};
      if m.bytes(file.content) > MAX_FILE_BYTES {
        fileTooLarge := true;
      }
      totalBytes := totalBytes + m.bytes(file.content);
    }
    assert files[..|files|] == files;
  }

  /** `validateFiles`. */
  method ValidateFiles(m: Measures, files: seq<RenderedFile>, slug: string) returns (v: Verdict)
    ensures Deserved(m, slug, files, v)
  {
    var pairs, totalBytes, fileTooLarge;
    v, pairs, totalBytes, fileTooLarge := CheckFiles(m, slug, files);
    if v != Valid {
      return;
    }
    FourExpected(slug);
    ConcludedIsDeserved(m, slug, files);
    if |pairs| != |Expected(slug)| || |Expected(slug)| != |files| {
      return Fails(UnsafePath);
    }
    if totalBytes > MAX_TOTAL_BYTES {
      return Fails(TotalTooLarge);
    }
    return if fileTooLarge then Fails(FileTooLarge) else Valid;
  }

  /** The total is never the only thing wrong: four files within their own limit are within the total limit. */
  lemma TotalIsNeverAlone(m: Measures, slug: string, files: seq<RenderedFile>)
    requires Deserved(m, slug, files, Fails(TotalTooLarge))
    ensures SomeTooLarge(m, files)
  {
    if Passed(m, slug, files) && PairsOf(files) == Expected(slug) {
      assert !GoodBundle(m, slug, files);
    }
  }
}
