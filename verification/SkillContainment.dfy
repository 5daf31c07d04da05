/** What the path pattern of the registry keeps out, and where installed files end up. */
module SkillContainment {

  import opened TextSearch
  import opened SkillRegistry
  import opened SkillRendering
  import opened SkillPaths
  import opened PathWalk

  // The pattern, character by character

  /** A line terminator stands before place `i`. */
  predicate BreaksBefore(s: string, i: nat)
    requires i <= |s|
  {
    exists j | 0 <= j < i :: s[j] in {'\n', '\r', '\U{2028}', '\U{2029}'}
  }

  /** What a path may be, apart from its `..` segments. */
  predicate IsPlainPath(s: string) {
    && s != "" && s[0] != '/' && s[|s| - 1] != '/' && '\0' !in s && s != "SKILL.md" && Utf16Length(s) <= 300
  }

  /** Every `..` segment stands behind a line terminator. */
  ghost predicate UpsAreBehindBreaks(s: string) {
    forall i: nat | UpAt(s, i) :: BreaksBefore(s, i)
  }

  lemma BreakInEarlier(s: string, k: nat)
    requires k < |Split(s, '/')| && Start(Split(s, '/'), k) <= |s|
    ensures BreaksBefore(s, Start(Split(s, '/'), k)) <==>
            exists j, i | 0 <= j < k && 0 <= i < |Split(s, '/')[j]| :: EndsLine(Split(s, '/')[j][i])
  {
    var parts, at := Split(s, '/'), Start(Split(s, '/'), k);
    if BreaksBefore(s, at) {
      var j :| 0 <= j < at && s[j] in {'\n', '\r', '\U{2028}', '\U{2029}'};
      assert s[..at][j] == s[j];
      BeforePart(s, k, s[j]);
      var m :| 0 <= m < k && m < |parts| && s[j] in parts[m];
      var i :| 0 <= i < |parts[m]| && parts[m][i] == s[j];
      assert EndsLine(parts[m][i]);
    }
    if j, i :| 0 <= j < k && 0 <= i < |parts[j]| && EndsLine(parts[j][i]) {
      BeforePart(s, k, parts[j][i]);
      assert InEarlier(parts, k, parts[j][i]);
      assert parts[j][i] in s[..at];
    }
  }

  lemma PartsBehindBreaks(s: string, k: nat)
    requires k < |Split(s, '/')| && Split(s, '/')[k] == ".." && UpsAreBehindBreaks(s)
    ensures exists j, i | 0 <= j < k && 0 <= i < |Split(s, '/')[j]| :: EndsLine(Split(s, '/')[j][i])
  {
    PartStands(s, k);
    var at := Start(Split(s, '/'), k);
    assert s[at..at + 2] == "..";
    assert s[at] == s[at..at + 2][0] && s[at + 1] == s[at..at + 2][1];
    assert UpAt(s, at);
    BreakInEarlier(s, k);
  }

  /** The pattern and the checks around it accept exactly plain paths whose `..` segments stand behind a line terminator. */
  lemma AcceptedIff(s: string)
    ensures IsFilePath(s) <==> IsPlainPath(s) && UpsAreBehindBreaks(s)
  {
    if IsFilePath(s) {
      forall i: nat | UpAt(s, i)
        ensures BreaksBefore(s, i)
      {
        var k := UpIsPart(s, i);
        BreakInEarlier(s, k);
      }
      LastCharacter(s);
    }
    if IsPlainPath(s) && UpsAreBehindBreaks(s) {
      forall k | 0 <= k < |Split(s, '/')| && Split(s, '/')[k] == ".."
        ensures exists j, i | 0 <= j < k && 0 <= i < |Split(s, '/')[j]| :: EndsLine(Split(s, '/')[j][i])
      {
        PartsBehindBreaks(s, k);
      }
      LastCharacter(s);
    }
  }

  lemma LastCharacter(s: string)
    requires s != ""
    ensures EndsWith(s, "/") <==> s[|s| - 1] == '/'
  {
    assert s[|s| - 1..] == [s[|s| - 1]];
  }

  // Where a file ends up

  function Home(d: SkillDefinition, host: string): string {
    InstalledRoot(host) + "/" + d.name
  }

  lemma ThreeParts(a: string, b: string, c: string, root: string)
    requires '/' !in a && '/' !in b && '/' !in c && root == a + ['/'] + b
    ensures Split(root + "/" + c, '/') == [a, b, c]
    ensures forall rest :: Split(root + "/" + c + "/" + rest, '/') == [a, b, c] + Split(rest, '/')
  {
    assert root + "/" + c == a + ['/'] + (b + ['/'] + c);
    SplitFirst(a, b + ['/'] + c, '/');
    SplitFirst(b, c, '/');
    SplitLast(c, '/');
    forall rest
      ensures Split(root + "/" + c + "/" + rest, '/') == [a, b, c] + Split(rest, '/')
    {
      ThreePartsAndRest(a, b, c, root, rest);
    }
  }

  lemma ThreePartsAndRest(a: string, b: string, c: string, root: string, rest: string)
    requires '/' !in a && '/' !in b && '/' !in c && root == a + ['/'] + b
    ensures Split(root + "/" + c + "/" + rest, '/') == [a, b, c] + Split(rest, '/')
  {
    assert root + "/" + c + "/" + rest == a + ['/'] + (b + ['/'] + (c + ['/'] + rest));
    SplitFirst(a, b + ['/'] + (c + ['/'] + rest), '/');
    SplitFirst(b, c + ['/'] + rest, '/');
    SplitFirst(c, rest, '/');
  }

  lemma HomeParts(d: SkillDefinition, host: string)
    requires IsSkillName(d.name)
    ensures Split(Home(d, host), '/') == [if host == CODEX then ".agents" else ".claude", "skills", d.name]
    ensures Walk([], Split(Home(d, host), '/')) == Split(Home(d, host), '/')
  {
    NameIsSegment(d.name);
    NameIsNoDots(d.name);
    var top := if host == CODEX then ".agents" else ".claude";
    RootIsTwo(host, top);
    ThreeParts(top, "skills", d.name, InstalledRoot(host));
    ThreeNames(top, "skills", d.name);
  }

  lemma ThreeNames(a: string, b: string, c: string)
    requires a !in {"", ".", ".."} && b !in {"", ".", ".."} && c !in {"", ".", ".."}
    ensures Walk([], [a, b, c]) == [a, b, c]
  {
    WalksDown([], [a, b, c]);
  }

  lemma RootIsTwo(host: string, top: string)
    requires top == if host == CODEX then ".agents" else ".claude"
    ensures InstalledRoot(host) == top + ['/'] + "skills" && '/' !in top && '/' !in "skills"
    ensures top !in {"", ".", ".."} && "skills" !in {"", ".", ".."}
  {
  }

  lemma NameIsNoDots(name: string)
    requires IsSkillName(name)
    ensures name !in {"", ".", ".."}
  {
    assert Split("", '-') == [""] && "" in Split("", '-');
    SplitLast(".", '-');
    SplitLast("..", '-');
    assert "." in Split(".", '-') && ".." in Split("..", '-');
  }

  lemma InstalledParts(d: SkillDefinition, host: string, relPath: string)
    requires IsSkillName(d.name)
    ensures Split(InstalledPath(d, host, relPath), '/') == Split(Home(d, host), '/') + Split(relPath, '/')
  {
    NameIsSegment(d.name);
    var top := if host == CODEX then ".agents" else ".claude";
    RootIsTwo(host, top);
    ThreeParts(top, "skills", d.name, InstalledRoot(host));
  }

  /** An installed path leads into the folder of its skill, and leaves it exactly when its own segments go up too often. */
  lemma InstalledLeavesIff(d: SkillDefinition, host: string, relPath: string)
    requires IsSkillName(d.name)
    ensures NeverLeaves(Home(d, host), InstalledPath(d, host, relPath)) <==> !Surfaces(Split(relPath, '/'), 0)
  {
    var r, own := Split(Home(d, host), '/'), Split(relPath, '/');
    HomeParts(d, host);
    InstalledParts(d, host, relPath);
    assert (r + own)[|r|..] == own;
    LeavesIff(r, r, own);
  }

  lemma WithoutUpsStays(d: SkillDefinition, host: string, relPath: string)
    requires IsSkillName(d.name) && forall i: nat :: !UpAt(relPath, i)
    ensures NeverLeaves(Home(d, host), InstalledPath(d, host, relPath))
  {
    var r, own := Split(Home(d, host), '/'), Split(relPath, '/');
    HomeParts(d, host);
    InstalledParts(d, host, relPath);
    assert (r + own)[|r|..] == own;
    forall k | 0 <= k < |own|
      ensures own[k] != ".."
    {
      NoUpNoPart(relPath, k);
    }
    NoUpsStay(r, r, own);
  }

  lemma NoUpNoPart(s: string, k: nat)
    requires k < |Split(s, '/')| && forall i: nat :: !UpAt(s, i)
    ensures Split(s, '/')[k] != ".."
  {
    PartStands(s, k);
    var at := Start(Split(s, '/'), k);
    if Split(s, '/')[k] == ".." {
      assert s[at] == s[at..at + 2][0] && s[at + 1] == s[at..at + 2][1];
      assert UpAt(s, at);
    }
  }

  predicate OneLine(s: string) {
    !BreaksBefore(s, |s|)
  }

  lemma OneLineNoUps(s: string)
    requires IsFilePath(s) && OneLine(s)
    ensures forall i: nat :: !UpAt(s, i)
  {
    AcceptedIff(s);
  }

  /** A file of an accepted registry whose path is one line is installed inside the folder of its own skill. */
  lemma AcceptedStaysInside(ds: seq<SkillDefinition>, a: nat, k: nat, host: string)
    requires Acceptable(ds) && a < |ds| && k < |ds[a].files| && OneLine(ds[a].files[k].relPath)
    ensures NeverLeaves(Home(ds[a], host), InstalledPath(ds[a], host, ds[a].files[k].relPath))
  {
    assert GoodDefinition(ds[a]);
    OneLineNoUps(ds[a].files[k].relPath);
    WithoutUpsStays(ds[a], host, ds[a].files[k].relPath);
  }

  /** So files with a one-line path that would leave are refused, whatever the other files. */
  lemma LeavingIsRefused(d: SkillDefinition, host: string, k: nat)
    requires IsSkillName(d.name) && k < |d.files| && OneLine(d.files[k].relPath)
    requires !NeverLeaves(Home(d, host), InstalledPath(d, host, d.files[k].relPath))
    ensures !GoodFiles(d.files) && !GoodDefinition(d)
  {
    if IsFilePath(d.files[k].relPath) {
      OneLineNoUps(d.files[k].relPath);
      WithoutUpsStays(d, host, d.files[k].relPath);
    }
  }

  /** In general a path is accepted although it would leave exactly when it goes up too often, but only behind a line terminator. */
  lemma AcceptedAndLeavesIff(d: SkillDefinition, host: string, relPath: string)
    requires IsSkillName(d.name)
    ensures IsFilePath(relPath) && !NeverLeaves(Home(d, host), InstalledPath(d, host, relPath)) <==>
            IsPlainPath(relPath) && UpsAreBehindBreaks(relPath) && Surfaces(Split(relPath, '/'), 0)
  {
    AcceptedIff(relPath);
    InstalledLeavesIff(d, host, relPath);
  }

  /** There is such a path: a line feed hides what follows from the pattern. */
  lemma SomePathLeaves(d: SkillDefinition, host: string)
    requires IsSkillName(d.name)
    ensures IsFilePath("\n/../../x") && !NeverLeaves(Home(d, host), InstalledPath(d, host, "\n/../../x"))
  {
    var s := "\n/../../x";
    HiddenParts();
    HiddenIsAccepted();
    InstalledLeavesIff(d, host, s);
    var parts := ["\n", "..", "..", "x"];
    UpsOfHidden(parts);
  }

  lemma HiddenParts()
    ensures Split("\n/../../x", '/') == ["\n", "..", "..", "x"]
  {
    FourParts("\n", "..", "..", "x");
    assert "\n/../../x" == "\n" + ['/'] + (".." + ['/'] + (".." + ['/'] + "x"));
  }

  lemma FourParts(a: string, b: string, c: string, d: string)
    requires '/' !in a && '/' !in b && '/' !in c && '/' !in d
    ensures Split(a + ['/'] + (b + ['/'] + (c + ['/'] + d)), '/') == [a, b, c, d]
  {
    SplitFirst(a, b + ['/'] + (c + ['/'] + d), '/');
    SplitFirst(b, c + ['/'] + d, '/');
    SplitFirst(c, d, '/');
    SplitLast(d, '/');
  }

  lemma HiddenIsAccepted()
    ensures IsFilePath("\n/../../x")
  {
    var s := "\n/../../x";
    Utf16LengthBounds(s);
    assert s[0] == '\n';
    forall i: nat | UpAt(s, i)
      ensures BreaksBefore(s, i)
    {
      assert i > 0;
    }
    AcceptedIff(s);
  }

  lemma UpsOfHidden(parts: seq<string>)
    requires parts == ["\n", "..", "..", "x"]
    ensures Surfaces(parts, 0)
  {
    SurfacesStep(parts, 0);
    assert parts[1..] == ["..", "..", "x"];
    SurfacesStep(parts[1..], 1);
    assert parts[1..][1..] == ["..", "x"];
    SurfacesStep(["..", "x"], 0);
  }
}
