/** Accepted registries that cannot be rendered: any skill can meet a file of the skill at the target root. */
module SkillClash {

  import opened TextSearch
  import opened SkillRegistry
  import opened SkillRendering
  import opened SkillPaths

  const TAIL := "SKILL.md"

  /** A skill at the target root with a file where the other skill is published. */
  function RootOver(e: SkillDefinition): SkillDefinition {
    e.(name := if e.name == "a" then "b" else "a",
       files := [DefinitionFile(e.name + "/" + TAIL, e.renderBody)],
       publishAtTargetRoot := true)
  }

  lemma NameIsPlain(name: string)
    requires IsSkillName(name)
    ensures name != "" && '.' !in name && '\0' !in name && '/' !in name
  {
    assert Split("", '-') == [""];
    assert "" in Split("", '-');
    forall part | part in Split(name, '-')
      ensures '.' !in part && '\0' !in part
    {
      forall k | 0 <= k < |part|
        ensures part[k] != '.' && part[k] != '\0'
      {
        assert IsLowerOrDigit(part[k]);
      }
    }
    PartOfSplit(name, '-', '.');
    PartOfSplit(name, '-', '\0');
    NameIsSegment(name);
  }

  lemma TailIsPlain()
    ensures |TAIL| == 8 && TAIL[7] == 'd' && TAIL != ".." && '/' !in TAIL && '\0' !in TAIL
  {
  }

  /** A name and a plain tail make a path. */
  lemma TwoPartsAreRelative(name: string, tail: string, s: string)
    requires name != "" && '.' !in name && '\0' !in name && '/' !in name
    requires tail != "" && tail != ".." && '\0' !in tail && '/' !in tail
    requires s == name + "/" + tail
    ensures IsRelativePath(s)
  {
    SplitFirst(name, tail, '/');
    SplitLast(tail, '/');
    assert Split(s, '/') == [name, tail];
    assert s[0] == name[0] && name[0] in name;
    assert name != ".." by {
      assert ".."[0] == '.';
    }
  }

  lemma PathEnds(name: string, tail: string, s: string)
    requires name != "" && '/' !in name && |tail| == 8 && tail[7] == 'd' && s == name + "/" + tail
    ensures |s| == |name| + 9 && s != tail && !EndsWith(s, "/")
  {
    assert s[|s| - 1] == 'd';
  }

  lemma PathOverIsGood(name: string)
    requires IsSkillName(name) && Utf16Length(name) <= 100
    ensures IsFilePath(name + "/" + TAIL)
  {
    var s := name + "/" + TAIL;
    NameIsPlain(name);
    TailIsPlain();
    TwoPartsAreRelative(name, TAIL, s);
    PathEnds(name, TAIL, s);
    Utf16LengthBounds(name);
    Utf16LengthBounds(s);
  }

  lemma OnePartIsName(s: string)
    requires Split(s, '-') == [s] && s != "" && forall k | 0 <= k < |s| :: IsLowerOrDigit(s[k])
    ensures IsSkillName(s)
  {
  }

  lemma LetterIsPart(s: string)
    requires |s| == 1 && IsLowerOrDigit(s[0])
    ensures Split(s, '-') == [s] && s != "" && forall k | 0 <= k < |s| :: IsLowerOrDigit(s[k])
  {
    SplitLast(s, '-');
  }

  lemma LetterIsShort(s: string)
    requires |s| == 1
    ensures Utf16Length(s) <= 100
  {
    Utf16LengthBounds(s);
  }

  lemma LetterIsName(s: string)
    requires |s| == 1 && IsLowerOrDigit(s[0])
    ensures IsSkillName(s) && Utf16Length(s) <= 100
  {
    LetterIsPart(s);
    OnePartIsName(s);
    LetterIsShort(s);
  }

  lemma RootIsGood(e: SkillDefinition)
    requires GoodDefinition(e)
    ensures GoodDefinition(RootOver(e))
  {
    PathOverIsGood(e.name);
    LetterIsName("a");
    LetterIsName("b");
  }

  lemma OneRootCounted(d: SkillDefinition, e: SkillDefinition)
    requires d.publishAtTargetRoot && !e.publishAtTargetRoot
    ensures RootCount([d, e]) == 1
  {
    assert [d, e][..1] == [d] && [d][..0] == [];
    assert RootCount([d]) == 1;
  }

  lemma AllTwo<T>(good: T -> bool, x: T, y: T)
    requires good(x) && good(y)
    ensures All(good, [x, y])
  {
  }

  lemma BothAccepted(d: SkillDefinition, e: SkillDefinition)
    requires GoodDefinition(d) && GoodDefinition(e) && d.name != e.name
    requires d.publishAtTargetRoot && !e.publishAtTargetRoot
    ensures Acceptable([d, e])
  {
    AllTwo(GoodDefinition, d, e);
    OneRootCounted(d, e);
  }

  lemma TheyClash(ds: seq<SkillDefinition>, e: SkillDefinition, host: string)
    requires ds == [RootOver(e), e] && !e.publishAtTargetRoot && host in e.supportedHosts
    ensures Clash(ds, host)
  {
    assert RelPath(ds[0], 1) == ds[1].name + "/" + RelPath(ds[1], 0);
    assert Meets(ds[0], ds[1], 1, 0);
  }

  /** Every skill that is not at the target root is part of an accepted registry that can never be rendered. */
  lemma EverySkillCanClash(e: SkillDefinition, host: string, stamp: Stamp)
    requires GoodDefinition(e) && !e.publishAtTargetRoot && host in e.supportedHosts
    ensures Acceptable([RootOver(e), e]) && Clash([RootOver(e), e], host)
    ensures !Renderable([RootOver(e), e], host, stamp)
  {
    RootIsGood(e);
    BothAccepted(RootOver(e), e);
    TheyClash([RootOver(e), e], e, host);
    assert host in HOSTS;
    RendersUnlessClash([RootOver(e), e], host, stamp);
  }
}
