/** Slugs, ownership records and rendered bundles, said in the patterns and literals of the source. */
module SkillRecords {

  import opened TextSearch
  import opened SkillRegistry
  import opened SkillOwnership
  import opened SkillState
  import opened SkillBundle
  import Text
  import P = Patterns

  // Slugs

  /** `d` is the name with hyphens for underscores. */
  predicate IsDashed(name: string, d: string) {
    |d| == |name| && forall k | 0 <= k < |d| :: d[k] == if name[k] == '_' then '-' else name[k]
  }

  /** A name keeps its text when that is a short skill name and looks like no fallback; otherwise it is the fallback. */
  lemma SlugIs(digest: Digest, name: string, d: string, n: nat)
    requires IsDashed(name, d) && n == 59
    ensures Slug(digest, name)
         == if |name| <= 64 && P.Accepts(P.SkillName(), d) && !P.Accepts(P.Reserved(n), d) then d
            else "n-h" + digest(name)[..59] + "-n"
  {
    assert d == Dashed(name);
    P.SkillNameIff(d);
    P.ReservedIff(d, n);
  }

  // Ownership records

  predicate IsCount(n: int) {
    0 <= n <= 9_007_199_254_740_991
  }

  /** The folder that a target owns. */
  function Folder(target: string, slug: string): string {
    (if target == "codex" then ".agents/skills/" else ".claude/skills/") + slug
  }

  /** One of the two files stands at `path`, with a digest and a size. */
  ghost predicate HasFile(files: seq<StateFile>, path: string, n: nat) {
    exists k | 0 <= k < |files| ::
      files[k].path == path && P.Accepts(P.Times(P.Chars(P.Hex()), n), files[k].sha256) && IsCount(files[k].byteLength)
  }

  lemma TwoPaths(target: string, slug: string)
    ensures var root := Folder(target, slug);
            && TargetPaths(target, slug) == {root + "/SKILL.md", root + "/references/mcp-surface.md"}
            && root + "/SKILL.md" != root + "/references/mcp-surface.md"
            && |TargetPaths(target, slug)| == 2
  {
    var root := Folder(target, slug);
    assert TargetRoot(target, slug) == root;
    assert |root + "/SKILL.md"| != |root + "/references/mcp-surface.md"|;
  }

  lemma DigestsIff(s: string, n: nat)
    requires n == 64
    ensures SkillOwnership.IsDigest(s) <==> P.Accepts(P.Times(P.Chars(P.Hex()), n), s)
  {
    P.DigestIff(s, n);
  }

  lemma StateFilesMean(files: seq<StateFile>, target: string, slug: string, n: nat)
    requires n == 64
    ensures GoodStateFiles(files) && ExpectedFiles(files, target, slug) <==>
            && |files| == 2 && HasFile(files, Folder(target, slug) + "/SKILL.md", n)
            && HasFile(files, Folder(target, slug) + "/references/mcp-surface.md", n)
  {
    TwoPaths(target, slug);
    forall k | 0 <= k < |files|
      ensures GoodFile(files[k]) <==> P.Accepts(P.Times(P.Chars(P.Hex()), n), files[k].sha256) && IsCount(files[k].byteLength)
    {
      DigestsIff(files[k].sha256, n);
    }
    TwoFilesMean(files, Folder(target, slug) + "/SKILL.md", Folder(target, slug) + "/references/mcp-surface.md", target, slug);
  }

  /** A file at `path` that is good. */
  ghost predicate HasGoodFile(files: seq<StateFile>, path: string) {
    exists k | 0 <= k < |files| :: files[k].path == path && GoodFile(files[k])
  }

  lemma TwoFilesThere(files: seq<StateFile>, a: string, b: string, all: set<string>)
    requires a != b && all == {a, b} && |files| == 2 && GoodStateFiles(files)
    requires forall k | 0 <= k < |files| :: files[k].path in all
    ensures HasGoodFile(files, a) && HasGoodFile(files, b)
  {
    assert files[0].path in all && files[1].path in all && files[0].path != files[1].path;
    assert GoodFile(files[0]) && GoodFile(files[1]);
  }

  lemma TwoFilesSuffice(files: seq<StateFile>, a: string, b: string)
    requires a != b && |files| == 2 && HasGoodFile(files, a) && HasGoodFile(files, b)
    ensures GoodStateFiles(files) && forall k | 0 <= k < |files| :: files[k].path in {a, b}
  {
    var i :| 0 <= i < 2 && files[i].path == a && GoodFile(files[i]);
    var j :| 0 <= j < 2 && files[j].path == b && GoodFile(files[j]);
    assert i != j;
    assert forall k | 0 <= k < 2 :: files[k] == files[i] || files[k] == files[j];
  }

  lemma TwoFilesMean(files: seq<StateFile>, a: string, b: string, target: string, slug: string)
    requires a != b && TargetPaths(target, slug) == {a, b} && |TargetPaths(target, slug)| == 2
    ensures GoodStateFiles(files) && ExpectedFiles(files, target, slug) <==>
            |files| == 2 && HasGoodFile(files, a) && HasGoodFile(files, b)
  {
    if GoodStateFiles(files) && ExpectedFiles(files, target, slug) {
      TwoFilesThere(files, a, b, TargetPaths(target, slug));
    }
    if |files| == 2 && HasGoodFile(files, a) && HasGoodFile(files, b) {
      TwoFilesSuffice(files, a, b);
    }
  }

  /**
   * A record is accepted exactly for a state whose target is the expected one, whose names, digests and sizes have
   * the shapes of the source, and that lists the two files of its skill.
   */
  lemma ValidStateMeans(digest: Digest, s: State, target: string, n: nat)
    requires n == 64
    ensures ValidState(digest, s, target) <==>
            && s.target == target
            && P.Accepts(P.Plus(P.OneOf(P.LowerOrDigit(), P.Range('_', '_'))), s.name) && s.skillSlug == Slug(digest, s.name)
            && (exists k | 0 <= k < |s.rendererVersion| :: !IsSpace(s.rendererVersion[k]))
            && P.Accepts(P.Times(P.Chars(P.Hex()), n), s.sourceManifestSha256)
            && P.Accepts(P.Times(P.Chars(P.Hex()), n), s.mcpSurfaceSha256)
            && P.Accepts(P.Times(P.Chars(P.Hex()), n), s.bundleSha256)
            && |s.files| == 2 && HasFile(s.files, Folder(target, s.skillSlug) + "/SKILL.md", n)
            && HasFile(s.files, Folder(target, s.skillSlug) + "/references/mcp-surface.md", n)
  {
    P.AppNameIff(s.name);
    DigestsIff(s.sourceManifestSha256, n);
    DigestsIff(s.mcpSurfaceSha256, n);
    DigestsIff(s.bundleSha256, n);
    StateFilesMean(s.files, target, s.skillSlug, n);
  }

  // Rendered bundles

  /** Lines end at line feeds; what stands behind the last one is a line if it is anything. */
  lemma {:induction false} LinesAreSplit(s: string)
    ensures LineCount(s) == |Split(s, '\n')| - if s != "" && s[|s| - 1] == '\n' then 1 else 0
  {
    BreaksAreSplit(s);
    if s != "" {
      assert s[|s| - 1..] == [s[|s| - 1]];
    }
  }

  lemma {:induction false} BreaksAreSplit(s: string)
    ensures Breaks(s) + 1 == |Split(s, '\n')|
  {
    if s != "" {
      BreaksAreSplit(s[1..]);
    }
  }

  /** The file at `path` for `target` is sound and within its limits. */
  ghost predicate HasSoundFile(m: Measures, files: seq<RenderedFile>, target: string, path: string) {
    exists k | 0 <= k < |files| :: files[k].target == target && files[k].path == path && IsSound(m, files[k])
  }

  /** Some text, the stated length and digest are true, at most 64 KiB, and at most 500 lines in a `SKILL.md`. */
  predicate IsSound(m: Measures, f: RenderedFile) {
    && (exists k | 0 <= k < |f.content| :: !IsSpace(f.content[k]))
    && f.byteLength == m.bytes(f.content) <= 65_536 && f.sha256 == m.sha256(f.content)
    && (EndsWith(f.path, "/SKILL.md") ==> LineCount(f.content) <= 500)
  }

  lemma SoundIff(m: Measures, f: RenderedFile)
    ensures IsSound(m, f) <==> ContentOk(m, f) && LinesOk(f) && m.bytes(f.content) <= MAX_FILE_BYTES
  {
  }

  /** A good bundle is four sound files, one at each of the four places of the skill. */
  lemma GoodBundleHas(m: Measures, slug: string, files: seq<RenderedFile>)
    requires GoodBundle(m, slug, files) && forall k | 0 <= k < |files| :: '\0' !in files[k].target
    ensures |files| == 4
    ensures HasSoundFile(m, files, "codex", ".agents/skills/" + slug + "/SKILL.md")
    ensures HasSoundFile(m, files, "codex", ".agents/skills/" + slug + "/references/mcp-surface.md")
    ensures HasSoundFile(m, files, "claude-code", ".claude/skills/" + slug + "/SKILL.md")
    ensures HasSoundFile(m, files, "claude-code", ".claude/skills/" + slug + "/references/mcp-surface.md")
  {
    FourFilesAreAll(m, slug, files);
    BundleHas(m, slug, files, CODEX, ".agents/skills/" + slug + "/SKILL.md");
    BundleHas(m, slug, files, CODEX, ".agents/skills/" + slug + "/references/mcp-surface.md");
    BundleHas(m, slug, files, CLAUDE_CODE, ".claude/skills/" + slug + "/SKILL.md");
    BundleHas(m, slug, files, CLAUDE_CODE, ".claude/skills/" + slug + "/references/mcp-surface.md");
  }

  lemma BundleHas(m: Measures, slug: string, files: seq<RenderedFile>, target: string, path: string)
    requires GoodBundle(m, slug, files) && Pair(target, path) in Expected(slug) && '\0' !in target
    requires forall k | 0 <= k < |files| :: '\0' !in files[k].target
    ensures HasSoundFile(m, files, target, path)
  {
    assert Pair(target, path) in PairsOf(files);
    var k :| 0 <= k < |files| && Pair(files[k].target, files[k].path) == Pair(target, path);
    Text.SplitAtMark(files[k].target, target, '\0', files[k].path, path);
    assert FileOk(m, slug, files[k]) && m.bytes(files[k].content) <= MAX_FILE_BYTES;
    SoundIff(m, files[k]);
  }
}
