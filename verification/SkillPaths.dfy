/** Paths of registered skills: where files are installed and published, and when two would meet. */
module SkillPaths {

  import Text
  import opened TextSearch
  import opened SkillRegistry
  import opened SkillRendering

  // Where a file stands in the listing

  /** File `m` of definition `a` stands behind the files of the definitions before it. */
  lemma FileAt(ds: seq<SkillDefinition>, host: string, stamp: Stamp, a: nat, m: nat)
    requires a < |ds| && host in ds[a].supportedHosts && m < |FilesOf(ds[a], host, stamp)|
    ensures var i := |Listing(ds[..a], host, stamp)| + m;
            i < |Listing(ds, host, stamp)| && Listing(ds, host, stamp)[i] == FilesOf(ds[a], host, stamp)[m]
  {
    ListingStep(ds, host, stamp, a);
    ListingPrefix(ds, host, stamp, a + 1);
    InThree(Listing(ds[..a], host, stamp), FilesOf(ds[a], host, stamp),
            Listing(ds[..a + 1], host, stamp), Listing(ds, host, stamp), m);
  }

  lemma InThree<T>(before: seq<T>, added: seq<T>, up: seq<T>, all: seq<T>, m: nat)
    requires m < |added| && up == before + added && |up| <= |all| && up == all[..|up|]
    ensures all[|before| + m] == added[m]
  {
    assert up[|before| + m] == added[m];
  }

  /** Every file of the listing is file `m` of some definition `a`. */
  lemma {:induction false} Origin(ds: seq<SkillDefinition>, host: string, stamp: Stamp, i: nat) returns (a: nat, m: nat)
    requires i < |Listing(ds, host, stamp)|
    ensures a < |ds| && host in ds[a].supportedHosts && m < |FilesOf(ds[a], host, stamp)|
    ensures i == |Listing(ds[..a], host, stamp)| + m
    ensures Listing(ds, host, stamp)[i] == FilesOf(ds[a], host, stamp)[m]
    decreases |ds|
  {
    var last := |ds| - 1;
    var before := Listing(ds[..last], host, stamp);
    if i < |before| {
      a, m := Origin(ds[..last], host, stamp, i);
      assert ds[..last][..a] == ds[..a];
    } else {
      a, m := last, i - |before|;
    }
  }

  // The paths of one definition

  function RelPath(d: SkillDefinition, m: nat): string
    requires m <= |d.files|
  {
    if m == 0 then "SKILL.md" else d.files[m - 1].relPath
  }

  lemma FileHasRelPath(d: SkillDefinition, host: string, stamp: Stamp, m: nat)
    requires m <= |d.files|
    ensures var f := FilesOf(d, host, stamp)[m];
            && f.skill == d.name && f.relPath == RelPath(d, m)
            && f.publishPath == PublishPath(d, host, RelPath(d, m))
            && f.installedPath == InstalledPath(d, host, RelPath(d, m))
  {
  }

  lemma RelPathsDiffer(d: SkillDefinition, m: nat, n: nat)
    requires GoodFiles(d.files) && m < n <= |d.files|
    ensures RelPath(d, m) != RelPath(d, n)
  {
    assert IsFilePath(d.files[n - 1].relPath);
    if m > 0 {
      assert d.files[m - 1].relPath != d.files[n - 1].relPath;
    }
  }

  lemma {:induction false} PartOfSplit(s: string, mark: char, other: char)
    requires forall part | part in Split(s, mark) :: other !in part
    requires other != mark
    ensures other !in s
  {
    if s != "" {
      var rest := Split(s[1..], mark);
      forall part | part in rest
        ensures other !in part
      {
        if s[0] != mark {
          var k :| 0 <= k < |rest| && rest[k] == part;
          if k == 0 {
            assert Split(s, mark)[0] == [s[0]] + rest[0];
            assert Split(s, mark)[0] in Split(s, mark);
          } else {
            assert Split(s, mark)[k] == part;
          }
        } else {
          assert part in Split(s, mark);
        }
      }
      PartOfSplit(s[1..], mark, other);
      if s[0] != mark {
        assert Split(s, mark)[0] in Split(s, mark);
        assert s[0] in Split(s, mark)[0];
      }
      assert s == [s[0]] + s[1..];
    }
  }

  /** A skill name is one path segment. */
  lemma NameIsSegment(name: string)
    requires IsSkillName(name)
    ensures '/' !in name
  {
    forall part | part in Split(name, '-')
      ensures '/' !in part
    {
      forall k | 0 <= k < |part|
        ensures part[k] != '/'
      {
        assert IsLowerOrDigit(part[k]);
      }
    }
    PartOfSplit(name, '-', '/');
  }

  // When two paths are the same

  lemma CancelPrefix(p: string, x: string, y: string)
    ensures p + x == p + y <==> x == y
  {
    assert (p + x)[|p|..] == x && (p + y)[|p|..] == y;
  }

  lemma InstalledSameIff(d: SkillDefinition, e: SkillDefinition, host: string, x: string, y: string)
    requires '/' !in d.name && '/' !in e.name
    ensures InstalledPath(d, host, x) == InstalledPath(e, host, y) <==> d.name == e.name && x == y
  {
    var p := InstalledRoot(host) + "/";
    assert InstalledPath(d, host, x) == p + (d.name + "/" + x);
    assert InstalledPath(e, host, y) == p + (e.name + "/" + y);
    CancelPrefix(p, d.name + "/" + x, e.name + "/" + y);
    Text.SplitAtMark(d.name, e.name, '/', x, y);
  }

  /** What follows the host in a publish path. */
  function PublishTail(d: SkillDefinition, relPath: string): string {
    if d.publishAtTargetRoot then relPath else d.name + "/" + relPath
  }

  lemma PublishSameIff(d: SkillDefinition, e: SkillDefinition, host: string, x: string, y: string)
    ensures PublishPath(d, host, x) == PublishPath(e, host, y) <==> PublishTail(d, x) == PublishTail(e, y)
  {
    var p := "skills/" + host + "/";
    assert PublishPath(d, host, x) == p + PublishTail(d, x);
    assert PublishPath(e, host, y) == p + PublishTail(e, y);
    CancelPrefix(p, PublishTail(d, x), PublishTail(e, y));
  }

  // Installed paths

  lemma GoodNames(ds: seq<SkillDefinition>, a: nat, b: nat)
    requires GoodDefinitions(ds) && a < |ds| && b < |ds|
    ensures '/' !in ds[a].name && GoodFiles(ds[a].files) && (a != b ==> ds[a].name != ds[b].name)
  {
    assert GoodDefinition(ds[a]);
    NameIsSegment(ds[a].name);
  }

  lemma InstalledDiffer(ds: seq<SkillDefinition>, host: string, a: nat, m: nat, b: nat, n: nat)
    requires GoodDefinitions(ds) && a < |ds| && b < |ds| && m <= |ds[a].files| && n <= |ds[b].files|
    requires a != b || m != n
    ensures InstalledPath(ds[a], host, RelPath(ds[a], m)) != InstalledPath(ds[b], host, RelPath(ds[b], n))
  {
    GoodNames(ds, a, b);
    GoodNames(ds, b, a);
    InstalledSameIff(ds[a], ds[b], host, RelPath(ds[a], m), RelPath(ds[b], n));
    if a == b {
      RelPathsDiffer(ds[a], if m < n then m else n, if m < n then n else m);
    }
  }

  /** No registry that is accepted installs two files in one place. */
  lemma InstalledPathsDistinct(ds: seq<SkillDefinition>, host: string, stamp: Stamp)
    requires Acceptable(ds)
    ensures DistinctBy(Installed(), Listing(ds, host, stamp))
  {
    var fs := Listing(ds, host, stamp);
    forall i, j | 0 <= i < j < |fs|
      ensures fs[i].installedPath != fs[j].installedPath
    {
      var a, m := Origin(ds, host, stamp, i);
      var b, n := Origin(ds, host, stamp, j);
      FileHasRelPath(ds[a], host, stamp, m);
      FileHasRelPath(ds[b], host, stamp, n);
      InstalledDiffer(ds, host, a, m, b, n);
    }
  }

  // Publish paths

  /** File `m` of the skill at the target root stands where file `n` of another skill is published. */
  predicate Meets(d: SkillDefinition, e: SkillDefinition, m: nat, n: nat)
    requires m <= |d.files| && n <= |e.files|
  {
    d.publishAtTargetRoot && !e.publishAtTargetRoot && RelPath(d, m) == e.name + "/" + RelPath(e, n)
  }

  predicate Clash(ds: seq<SkillDefinition>, host: string) {
    exists a, b, m, n |
      0 <= a < |ds| && 0 <= b < |ds| && 0 <= m <= |ds[a].files| && 0 <= n <= |ds[b].files| ::
      host in ds[a].supportedHosts && host in ds[b].supportedHosts && Meets(ds[a], ds[b], m, n)
  }

  lemma {:induction false} OneRoot(ds: seq<SkillDefinition>, a: nat, b: nat)
    requires RootCount(ds) <= 1 && a < b < |ds| && ds[a].publishAtTargetRoot
    ensures !ds[b].publishAtTargetRoot
    decreases |ds|
  {
    var last := |ds| - 1;
    if b < last {
      OneRoot(ds[..last], a, b);
    } else if ds[b].publishAtTargetRoot {
      HasRoot(ds[..last], a);
    }
  }

  lemma {:induction false} HasRoot(ds: seq<SkillDefinition>, a: nat)
    requires a < |ds| && ds[a].publishAtTargetRoot
    ensures RootCount(ds) >= 1
    decreases |ds|
  {
    if a < |ds| - 1 {
      HasRoot(ds[..|ds| - 1], a);
    }
  }

  /** Two different files meet only at the target root. */
  lemma PublishMeetsIff(ds: seq<SkillDefinition>, host: string, a: nat, m: nat, b: nat, n: nat)
    requires Acceptable(ds) && a < |ds| && b < |ds| && m <= |ds[a].files| && n <= |ds[b].files|
    requires a != b || m != n
    ensures PublishPath(ds[a], host, RelPath(ds[a], m)) == PublishPath(ds[b], host, RelPath(ds[b], n)) <==>
            Meets(ds[a], ds[b], m, n) || Meets(ds[b], ds[a], n, m)
  {
    var d, e, x, y := ds[a], ds[b], RelPath(ds[a], m), RelPath(ds[b], n);
    GoodNames(ds, a, b);
    GoodNames(ds, b, a);
    PublishSameIff(d, e, host, x, y);
    if a == b {
      RelPathsDiffer(d, if m < n then m else n, if m < n then n else m);
      CancelPrefix(d.name + "/", x, y);
    } else if d.publishAtTargetRoot && e.publishAtTargetRoot {
      OneRoot(ds, if a < b then a else b, if a < b then b else a);
    } else if !d.publishAtTargetRoot && !e.publishAtTargetRoot {
      Text.SplitAtMark(d.name, e.name, '/', x, y);
    }
  }

  /**
   * Two files of an accepted registry are published in one place exactly when a file of the skill at
   * the target root has the name of another skill as its first folder and that skill has the rest; so
   * never when no skill publishes at the target root.
   */
  lemma PublishPathsDistinctIff(ds: seq<SkillDefinition>, host: string, stamp: Stamp)
    requires Acceptable(ds)
    ensures DistinctBy(Publish(), Listing(ds, host, stamp)) <==> !Clash(ds, host)
    ensures RootCount(ds) == 0 ==> DistinctBy(Publish(), Listing(ds, host, stamp))
  {
    var fs := Listing(ds, host, stamp);
    if Clash(ds, host) {
      ClashIsSeen(ds, host, stamp);
    } else {
      forall i, j | 0 <= i < j < |fs|
        ensures fs[i].publishPath != fs[j].publishPath
      {
        var a, m := Origin(ds, host, stamp, i);
        var b, n := Origin(ds, host, stamp, j);
        FileHasRelPath(ds[a], host, stamp, m);
        FileHasRelPath(ds[b], host, stamp, n);
        PublishMeetsIff(ds, host, a, m, b, n);
      }
    }
    NoRootNoClash(ds, host);
  }

  lemma NoRootNoClash(ds: seq<SkillDefinition>, host: string)
    ensures RootCount(ds) == 0 ==> !Clash(ds, host)
  {
    if RootCount(ds) == 0 {
      forall a | 0 <= a < |ds|
        ensures !ds[a].publishAtTargetRoot
      {
        if ds[a].publishAtTargetRoot {
          HasRoot(ds, a);
        }
      }
    }
  }

  lemma SamePathSeen(fs: seq<RegisteredFile>, i: nat, j: nat)
    requires i < |fs| && j < |fs| && i != j && fs[i].publishPath == fs[j].publishPath
    ensures !DistinctBy(Publish(), fs)
  {
    assert Publish()(fs[i]) == Publish()(fs[j]);
  }

  /** The publish path of file `m` of definition `a`, found in the listing. */
  lemma PublishedAt(ds: seq<SkillDefinition>, host: string, stamp: Stamp, a: nat, m: nat, i: nat)
    requires a < |ds| && host in ds[a].supportedHosts && m <= |ds[a].files|
    requires i == |Listing(ds[..a], host, stamp)| + m
    ensures i < |Listing(ds, host, stamp)|
    ensures Listing(ds, host, stamp)[i].publishPath == PublishPath(ds[a], host, RelPath(ds[a], m))
  {
    FileAt(ds, host, stamp, a, m);
    FileHasRelPath(ds[a], host, stamp, m);
  }

  lemma MeetingIsSeen(ds: seq<SkillDefinition>, host: string, stamp: Stamp, a: nat, b: nat, m: nat, n: nat)
    requires Acceptable(ds) && a < |ds| && b < |ds| && m <= |ds[a].files| && n <= |ds[b].files|
    requires host in ds[a].supportedHosts && host in ds[b].supportedHosts && Meets(ds[a], ds[b], m, n)
    ensures !DistinctBy(Publish(), Listing(ds, host, stamp))
  {
    var i, j := |Listing(ds[..a], host, stamp)| + m, |Listing(ds[..b], host, stamp)| + n;
    PublishedAt(ds, host, stamp, a, m, i);
    PublishedAt(ds, host, stamp, b, n, j);
    PublishMeetsIff(ds, host, a, m, b, n);
    DifferentPlaces(ds, host, stamp, a, m, b, n);
    SamePathSeen(Listing(ds, host, stamp), i, j);
  }

  lemma ClashIsSeen(ds: seq<SkillDefinition>, host: string, stamp: Stamp)
    requires Acceptable(ds) && Clash(ds, host)
    ensures !DistinctBy(Publish(), Listing(ds, host, stamp))
  {
    var a, b, m, n :|
      0 <= a < |ds| && 0 <= b < |ds| && 0 <= m <= |ds[a].files| && 0 <= n <= |ds[b].files|
      && host in ds[a].supportedHosts && host in ds[b].supportedHosts && Meets(ds[a], ds[b], m, n);
    MeetingIsSeen(ds, host, stamp, a, b, m, n);
  }

  lemma DifferentPlaces(ds: seq<SkillDefinition>, host: string, stamp: Stamp, a: nat, m: nat, b: nat, n: nat)
    requires Acceptable(ds) && a < |ds| && b < |ds| && a != b && m <= |ds[a].files| && n <= |ds[b].files|
    requires host in ds[a].supportedHosts && host in ds[b].supportedHosts
    ensures |Listing(ds[..a], host, stamp)| + m != |Listing(ds[..b], host, stamp)| + n
  {
    SkillAt(ds, host, stamp, a, m, |Listing(ds[..a], host, stamp)| + m);
    SkillAt(ds, host, stamp, b, n, |Listing(ds[..b], host, stamp)| + n);
    GoodNames(ds, a, b);
  }

  /** The skill of file `m` of definition `a`, found in the listing. */
  lemma SkillAt(ds: seq<SkillDefinition>, host: string, stamp: Stamp, a: nat, m: nat, i: nat)
    requires a < |ds| && host in ds[a].supportedHosts && m <= |ds[a].files|
    requires i == |Listing(ds[..a], host, stamp)| + m
    ensures i < |Listing(ds, host, stamp)| && Listing(ds, host, stamp)[i].skill == ds[a].name
  {
    FileAt(ds, host, stamp, a, m);
    FileHasRelPath(ds[a], host, stamp, m);
  }

  /** What an accepted registry needs to render: text in every body and file, and no clash. */
  lemma RendersUnlessClash(ds: seq<SkillDefinition>, host: string, stamp: Stamp)
    requires Acceptable(ds) && host in HOSTS
    ensures Renderable(ds, host, stamp) <==>
            && All((d: SkillDefinition) => HasBody(host, d), ds)
            && All(HasContent(), Listing(ds, host, stamp)) && !Clash(ds, host)
  {
    InstalledPathsDistinct(ds, host, stamp);
    PublishPathsDistinctIff(ds, host, stamp);
  }

  // The manifest over both hosts

  lemma HostsApart(d: SkillDefinition, e: SkillDefinition, x: string, y: string)
    ensures PublishPath(d, CODEX, x) != PublishPath(e, CLAUDE_CODE, y)
    ensures InstalledPath(d, CODEX, x) != InstalledPath(e, CLAUDE_CODE, y)
  {
    assert PublishPath(d, CODEX, x)[8] == 'o' && PublishPath(e, CLAUDE_CODE, y)[8] == 'l';
    assert InstalledPath(d, CODEX, x)[1] == 'a' && InstalledPath(e, CLAUDE_CODE, y)[1] == 'c';
  }

  lemma AcrossHosts(ds: seq<SkillDefinition>, stamp: Stamp, i: nat, j: nat)
    requires i < |Listing(ds, CODEX, stamp)| && j < |Listing(ds, CLAUDE_CODE, stamp)|
    ensures Listing(ds, CODEX, stamp)[i].publishPath != Listing(ds, CLAUDE_CODE, stamp)[j].publishPath
    ensures Listing(ds, CODEX, stamp)[i].installedPath != Listing(ds, CLAUDE_CODE, stamp)[j].installedPath
  {
    var a, m := Origin(ds, CODEX, stamp, i);
    var b, n := Origin(ds, CLAUDE_CODE, stamp, j);
    FileHasRelPath(ds[a], CODEX, stamp, m);
    FileHasRelPath(ds[b], CLAUDE_CODE, stamp, n);
    HostsApart(ds[a], ds[b], RelPath(ds[a], m), RelPath(ds[b], n));
  }

  lemma DistinctAppend(key: RegisteredFile -> string, fs: seq<RegisteredFile>, gs: seq<RegisteredFile>)
    requires DistinctBy(key, fs) && DistinctBy(key, gs)
    requires forall i, j | 0 <= i < |fs| && 0 <= j < |gs| :: key(fs[i]) != key(gs[j])
    ensures DistinctBy(key, fs + gs)
  {
  }

  lemma {:induction false} MapGivesOwn(fs: seq<RegisteredFile>, k: nat)
    requires DistinctBy(Publish(), fs) && k < |fs|
    ensures fs[k].publishPath in InstalledByPublish(fs)
    ensures InstalledByPublish(fs)[fs[k].publishPath] == fs[k].installedPath
    decreases |fs|
  {
    var last := |fs| - 1;
    if k < last {
      MapGivesOwn(fs[..last], k);
      assert Publish()(fs[k]) != Publish()(fs[last]);
    }
  }

  /**
   * Whenever both hosts render, the manifest maps every publish path to the installed path of its own
   * file, and over both hosts no two publish paths and no two installed paths are the same.
   */
  lemma ManifestIsOneToOne(ds: seq<SkillDefinition>, stamp: Stamp)
    requires Renderable(ds, CODEX, stamp) && Renderable(ds, CLAUDE_CODE, stamp)
    ensures var fs := Publishable(ds, stamp);
            && DistinctBy(Publish(), fs) && DistinctBy(Installed(), fs)
            && forall k | 0 <= k < |fs| ::
                 fs[k].publishPath in InstalledByPublish(fs)
                 && InstalledByPublish(fs)[fs[k].publishPath] == fs[k].installedPath
  {
    var codex, claude := Listing(ds, CODEX, stamp), Listing(ds, CLAUDE_CODE, stamp);
    forall i, j | 0 <= i < |codex| && 0 <= j < |claude|
      ensures codex[i].publishPath != claude[j].publishPath && codex[i].installedPath != claude[j].installedPath
    {
      AcrossHosts(ds, stamp, i, j);
    }
    DistinctAppend(Publish(), codex, claude);
    DistinctAppend(Installed(), codex, claude);
    forall k | 0 <= k < |Publishable(ds, stamp)|
      ensures Publishable(ds, stamp)[k].publishPath in InstalledByPublish(Publishable(ds, stamp))
      ensures InstalledByPublish(Publishable(ds, stamp))[Publishable(ds, stamp)[k].publishPath]
           == Publishable(ds, stamp)[k].installedPath
    {
      MapGivesOwn(Publishable(ds, stamp), k);
    }
  }
}
