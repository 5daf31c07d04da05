/** Reconciling twice, and what reconciling leaves alone. */
module ManagedBlockProofs {

  import opened TextSearch
  import opened ManagedBlock

  /** `p` occurs nowhere in `s`. */
  ghost predicate Free(s: string, p: string) {
    forall i :: !Occurs(s, p, i)
  }

  // The shape of a block

  /** A block with any recorded digest, without the line break behind it. */
  function Block(kit: Kit, hash: HashText, body: string): string {
    kit.begin + "\n" + (Metadata(kit, hash) + "\n" + (body + "\n" + kit.end))
  }

  lemma WrapIsBlock(kit: Kit, body: string)
    ensures Wrap(kit, body) == Block(kit, kit.hash(body), body) + "\n"
  {
    var meta := Metadata(kit, kit.hash(body));
    assert Join([kit.end, ""], '\n') == kit.end + "\n" + "";
    assert Join([body, kit.end, ""], '\n') == body + "\n" + (kit.end + "\n");
    assert Join([meta, body, kit.end, ""], '\n') == meta + "\n" + (body + "\n" + (kit.end + "\n"));
  }

  const HEAD: string := "<!-- noodle-agent-kit:"

  lemma MetadataParts(kit: Kit, hash: HashText)
    ensures var m := Metadata(kit, hash); var at := 23 + |kit.version|;
            && |m| == at + 25
            && (forall k | 0 <= k < 22 :: m[k] == HEAD[k])
            && (forall k | 22 <= k < at - 1 :: m[k] == kit.version[k - 22])
            && m[at - 1] == ' ' && m[at..at + 5] == "hash:" && m[at + 5..at + 21] == hash && m[at + 21..] == " -->"
  {
    var m := Metadata(kit, hash);
    assert m == HEAD + (kit.version + (" hash:" + (hash + " -->")));
  }

  lemma HeadChars()
    ensures forall k | 0 <= k < 22 ::
              HEAD[k] != '\n' && (k > 0 ==> HEAD[k] != '<') && (HEAD[k] == ':' ==> k == 21)
    ensures HEAD[0] == '<' && HEAD[5] == 'n' && HEAD[17] == '-'
  {
  }

  /** The metadata line: no line break, no second `<`, no colon but its own two. */
  lemma MetadataShape(kit: Kit, hash: HashText)
    requires forall c | c in kit.version :: c !in "\n<:"
    ensures var m := Metadata(kit, hash); var at := 23 + |kit.version|;
            && |m| == at + 25 && m[0] == '<' && m[5] == 'n' && m[17] == '-'
            && (forall k | 0 < k < |m| :: m[k] != '<')
            && (forall k | 0 <= k < |m| :: m[k] != '\n')
            && (forall k | 0 <= k < at + 4 :: m[k] == ':' ==> k == 21)
            && m[at..at + 5] == "hash:" && m[at + 5..at + 21] == hash
  {
    var m, at := Metadata(kit, hash), 23 + |kit.version|;
    MetadataParts(kit, hash);
    HeadChars();
    forall k | 0 <= k < |m|
      ensures m[k] != '\n' && (k > 0 ==> m[k] != '<') && (k < at + 4 && m[k] == ':' ==> k == 21)
    {
      if k < 22 {
        assert m[k] == HEAD[k];
      } else if 22 <= k < at - 1 {
        assert m[k] == kit.version[k - 22];
        assert kit.version[k - 22] in kit.version;
      } else if at <= k < at + 5 {
        assert m[k] == m[at..at + 5][k - at];
      } else if at + 5 <= k < at + 21 {
        assert m[k] == m[at + 5..at + 21][k - at - 5];
      } else if at + 21 <= k {
        assert m[k] == m[at + 21..][k - at - 21];
      }
    }
  }

  lemma MetadataIsFree(kit: Kit, hash: HashText)
    requires Good(kit)
    ensures '\n' !in Metadata(kit, hash)
    ensures Free(Metadata(kit, hash), kit.begin) && Free(Metadata(kit, hash), kit.end)
  {
    var m := Metadata(kit, hash);
    MetadataShape(kit, hash);
    forall marker, i | marker in [kit.begin, kit.end] && Occurs(m, marker, i)
      ensures false
    {
      OccursAt(m, marker, i, 0);
      OccursAt(m, marker, i, 5);
    }
  }

  lemma OccursAt(s: string, p: string, i: int, k: int)
    requires Occurs(s, p, i) && 0 <= k < |p|
    ensures s[i + k] == p[k]
  {
    assert s[i..i + |p|][k] == p[k];
  }

  lemma {:induction false} FindHashAt(line: string, from: nat, at: nat, hash: HashText)
    requires from <= at && at + 21 <= |line| && HashTag(line, at) && line[at + 5..at + 21] == hash
    requires forall k | from <= k < at :: !HashTag(line, k)
    ensures FindHash(line, from) == Some(hash)
    decreases at - from
  {
    if from < at {
      FindHashAt(line, from + 1, at, hash);
    }
  }

  lemma HashTagHas(line: string, at: nat)
    requires HashTag(line, at)
    ensures line[at] == 'h' && line[at + 4] == ':'
  {
    assert line[at..at + 5][0] == line[at] && line[at..at + 5][4] == line[at + 4];
  }

  lemma MetadataHash(kit: Kit, hash: HashText)
    requires Good(kit)
    ensures FindHash(Metadata(kit, hash), 0) == Some(hash)
  {
    var m := Metadata(kit, hash);
    var at := 23 + |kit.version|;
    MetadataShape(kit, hash);
    forall k | 0 <= k < at
      ensures !HashTag(m, k)
    {
      if HashTag(m, k) {
        HashTagHas(m, k);
      }
    }
    FindHashAt(m, 0, at, hash);
  }

  // Recognizing edits

  lemma EndsWithLast(s: string, suffix: string)
    requires suffix != "" && EndsWith(s, suffix)
    ensures s != "" && s[|s| - 1] == suffix[|suffix| - 1]
  {
    assert s[|s| - |suffix|..][|suffix| - 1] == s[|s| - 1];
  }

  lemma EndDropped(kit: Kit, body: string)
    requires Good(kit)
    ensures DropEnd(kit, body + "\n" + kit.end) == body
  {
    var s := body + "\n" + kit.end;
    if EndsWith(s, kit.end + "\n") {
      EndsWithLast(s, kit.end + "\n");
    }
    assert s[|s| - |kit.end|..] == kit.end;
    assert s[..|s| - |kit.end|] == body + "\n";
    assert (body + "\n")[|body|..] == "\n";
  }

  lemma TwoLinesAndRest(first: string, second: string, rest: string)
    requires '\n' !in first && '\n' !in second
    ensures var lines := Split(first + "\n" + (second + "\n" + rest), '\n');
            |lines| >= 2 && lines[1] == second && lines[2..] == Split(rest, '\n') && |lines| == 2 + |Split(rest, '\n')|
  {
    SplitFirst(second, rest, '\n');
    SplitFirst(first, second + "\n" + rest, '\n');
  }

  /**
   * A block counts as the kit's own exactly when the digest in its second line is that of its body
   * without trailing white space, so an edited body is noticed unless its digest is the same.
   */
  lemma MatchesIffBodyHashes(kit: Kit, hash: HashText, body: string)
    requires Good(kit)
    ensures HashMatches(kit, Block(kit, hash, body)) <==> kit.hash(TrimEnd(body)) == hash
  {
    var meta := Metadata(kit, hash);
    var rest := body + "\n" + kit.end;
    MetadataIsFree(kit, hash);
    MetadataHash(kit, hash);
    TwoLinesAndRest(kit.begin, meta, rest);
    JoinOfSplit(rest, '\n');
    EndDropped(kit, body);
  }

  // Where a block is found

  /** What the search relies on in a block. */
  ghost predicate Blocklike(kit: Kit, b: string) {
    && Marked(kit) && |kit.begin| + |kit.end| <= |b|
    && Occurs(b, kit.begin, 0) && Occurs(b, kit.end, |b| - |kit.end|)
    && (forall i | 0 <= i < |b| - |kit.end| :: !Occurs(b, kit.end, i))
    && b[0] == '<' && !IsSpace(b[|b| - 1])
  }

  lemma OnlyMark(marker: string, i: int)
    requires 0 <= i < |marker| && '<' !in marker[1..]
    ensures i > 0 ==> marker[i] != '<'
  {
    assert i > 0 ==> marker[i] == marker[1..][i - 1];
  }

  lemma MarkerOnlyAtItself(kit: Kit, marker: string, i: int)
    requires GoodMarkers(kit) && marker in [kit.begin, kit.end] && Occurs(marker, kit.end, i)
    ensures i == 0 && marker != kit.begin
  {
    OccursAt(marker, kit.end, i, 0);
    OnlyMark(marker, i);
    OccursAt(marker, kit.end, i, 5);
  }

  lemma EndOnlyAtTheEnd(kit: Kit, hash: HashText, body: string, i: int)
    requires Good(kit) && Free(body, kit.end) && Occurs(Block(kit, hash, body), kit.end, i)
    ensures i == |Block(kit, hash, body)| - |kit.end|
  {
    var meta := Metadata(kit, hash);
    var rest := body + "\n" + kit.end;
    MetadataIsFree(kit, hash);
    OccursInALine(kit.begin, meta + "\n" + rest, kit.end, i);
    if Occurs(kit.begin, kit.end, i) {
      MarkerOnlyAtItself(kit, kit.begin, i);
    }
    OccursInALine(meta, rest, kit.end, i - |kit.begin| - 1);
    OccursInALine(body, kit.end, kit.end, i - |kit.begin| - |meta| - 2);
    MarkerOnlyAtItself(kit, kit.end, i - |kit.begin| - |meta| - |body| - 3);
  }

  lemma BlockIsBlocklike(kit: Kit, hash: HashText, body: string)
    requires Good(kit) && Free(body, kit.end)
    ensures Blocklike(kit, Block(kit, hash, body))
  {
    var b := Block(kit, hash, body);
    assert b[..|kit.begin|] == kit.begin;
    assert b[|b| - |kit.end|..] == kit.end;
    forall i | 0 <= i < |b| - |kit.end|
      ensures !Occurs(b, kit.end, i)
    {
      if Occurs(b, kit.end, i) {
        EndOnlyAtTheEnd(kit, hash, body, i);
      }
    }
  }

  lemma NextIs(kit: Kit, s: string, offset: nat, start: nat, endMarker: nat, end: nat)
    requires end == endMarker + |kit.end|
    ensures First(s, kit.begin, offset, start) && First(s, kit.end, start + |kit.begin|, endMarker) ==>
              NextRange(kit, s, offset) == Some(Range(start, end))
  {
    if First(s, kit.begin, offset, start) && First(s, kit.end, start + |kit.begin|, endMarker) {
      FoundFirst(s, kit.begin, offset, start);
      FoundFirst(s, kit.end, start + |kit.begin|, endMarker);
    }
  }

  lemma BeginIsFirst(kit: Kit, x: string, b: string, y: string, s: string)
    requires GoodMarkers(kit) && Blocklike(kit, b) && Free(x, kit.begin) && s == x + (b + y)
    ensures First(s, kit.begin, 0, |x|)
  {
    forall i | 0 <= i < |x|
      ensures !Occurs(s, kit.begin, i)
    {
      if Occurs(s, kit.begin, i) {
        OccursUpToMark(x, b + y, kit.begin, i, '<');
      }
    }
    OccursInLeft(b, y, kit.begin, 0);
    OccursInRight(x, b + y, kit.begin, 0);
  }

  lemma EndIsFirst(kit: Kit, x: string, b: string, y: string, s: string)
    requires Blocklike(kit, b) && s == x + (b + y)
    ensures First(s, kit.end, |x| + |kit.begin|, |x| + |b| - |kit.end|)
  {
    EndInBlock(kit, x, b, y, |b| - |kit.end|);
    forall j | |x| + |kit.begin| <= j < |x| + |b| - |kit.end|
      ensures !Occurs(s, kit.end, j)
    {
      EndInBlock(kit, x, b, y, j - |x|);
    }
  }

  /** A block behind text without opening marker is the first range. */
  lemma BlockIsFirst(kit: Kit, x: string, b: string, y: string, s: string)
    requires GoodMarkers(kit) && Blocklike(kit, b) && Free(x, kit.begin) && s == x + (b + y)
    ensures NextRange(kit, s, 0) == Some(Range(|x|, |x| + |b|))
  {
    BeginIsFirst(kit, x, b, y, s);
    EndIsFirst(kit, x, b, y, s);
    NextIs(kit, s, 0, |x|, |x| + |b| - |kit.end|, |x| + |b|);
  }

  lemma EndInBlock(kit: Kit, x: string, b: string, y: string, i: int)
    requires 0 <= i && i + |kit.end| <= |b|
    ensures Occurs(x + (b + y), kit.end, |x| + i) <==> Occurs(b, kit.end, i)
  {
    OccursInLeft(b, y, kit.end, i);
    OccursInRight(x, b + y, kit.end, i);
  }

  // How many ranges

  lemma NoRangeAtEnd(kit: Kit, s: string, offset: nat)
    requires Marked(kit) && offset >= |s|
    ensures NextRange(kit, s, offset).None?
  {
  }

  lemma RangesFromNext(kit: Kit, s: string)
    requires Marked(kit)
    ensures var next := NextRange(kit, s, 0);
            && (Ranges(kit, s, 0) == [] <==> next.None?)
            && (next.Some? ==> Ranges(kit, s, 0)[0] == next.value)
            && (|Ranges(kit, s, 0)| > 1 <==> next.Some? && NextRange(kit, s, next.value.end).Some?)
  {
    var next := NextRange(kit, s, 0);
    if next.Some? {
      RangesStep(kit, s, 0);
      var after := next.value.end;
      if after >= |s| || NextRange(kit, s, after).None? {
        RangesStop(kit, s, after);
        NoRangeAtEnd(kit, s, if after >= |s| then after else |s|);
      } else {
        RangesStep(kit, s, after);
      }
    } else {
      RangesStop(kit, s, 0);
    }
  }

  /** An opening marker at `offset` or later, and a closing one behind it. */
  ghost predicate Pair(kit: Kit, s: string, offset: int, i: int, j: int) {
    offset <= i && Occurs(s, kit.begin, i) && i + |kit.begin| <= j && Occurs(s, kit.end, j)
  }

  lemma NextIffPair(kit: Kit, s: string, offset: nat)
    ensures NextRange(kit, s, offset).Some? <==> exists i, j :: Pair(kit, s, offset, i, j)
  {
    FindIsFirst(s, kit.begin, offset);
    var start := Find(s, kit.begin, offset);
    if start >= 0 {
      FindIsFirst(s, kit.end, start + |kit.begin|);
      var endMarker := Find(s, kit.end, start + |kit.begin|);
      if endMarker >= 0 {
        assert Pair(kit, s, offset, start, endMarker);
      }
    }
  }

  lemma PairBehind(kit: Kit, x: string, y: string, i: int, j: int)
    requires 0 <= i
    ensures Pair(kit, x + y, |x|, |x| + i, |x| + j) <==> Pair(kit, y, 0, i, j)
  {
    OccursInRight(x, y, kit.begin, i);
    if 0 <= j {
      OccursInRight(x, y, kit.end, j);
    }
  }

  lemma NextBehind(kit: Kit, x: string, y: string)
    ensures NextRange(kit, x + y, |x|).None? <==> NextRange(kit, y, 0).None?
  {
    NextIffPair(kit, x + y, |x|);
    NextIffPair(kit, y, 0);
    if i, j :| Pair(kit, x + y, |x|, i, j) {
      PairBehind(kit, x, y, i - |x|, j - |x|);
    }
    if i, j :| Pair(kit, y, 0, i, j) {
      PairBehind(kit, x, y, i, j);
    }
  }

  lemma NextBeforeBreak(kit: Kit, s: string)
    requires GoodMarkers(kit)
    ensures NextRange(kit, s + "\n", 0).None? <==> NextRange(kit, s, 0).None?
  {
    NextIffPair(kit, s + "\n", 0);
    NextIffPair(kit, s, 0);
    forall i, j
      ensures Pair(kit, s + "\n", 0, i, j) <==> Pair(kit, s, 0, i, j)
    {
      OccursBeforeBreak(s, kit.begin, i);
      OccursBeforeBreak(s, kit.end, j);
    }
  }

  // One run

  function Separator(content: string): string {
    if EndsWith(content, "\n") then "\n" else "\n\n"
  }

  function Terminated(content: string): string {
    if EndsWith(content, "\n") then content else content + "\n"
  }

  lemma RunWithoutBlock(kit: Kit, content: string, block: string, force: bool)
    requires Marked(kit) && NextRange(kit, content, 0).None?
    ensures Reconcile(kit, Some(content), block, force) == Outcome(content + Separator(content) + block, Updated)
  {
    RangesFromNext(kit, content);
  }

  /** What a run does when the first range is `start..end` and `current` its text. */
  lemma RunWithBlock(kit: Kit, content: string, block: string, force: bool, start: nat, end: nat, current: string)
    requires Marked(kit) && start <= end <= |content| && current == content[start..end]
    ensures NextRange(kit, content, 0) == Some(Range(start, end)) ==>
              (Reconcile(kit, Some(content), block, force)
            == if NextRange(kit, content, end).Some? && !force then Outcome(content, DuplicateBlocks)
               else if current == block then Outcome(content, Unchanged)
               else if !HashMatches(kit, current) && !force then Outcome(content, UserEditedBlock)
               else Outcome(Terminated(content[..start] + TrimEnd(block) + content[end..]),
                            if force && !HashMatches(kit, current) then Overwritten else Updated))
  {
    RangesFromNext(kit, content);
  }

  lemma TrimsToBlock(kit: Kit, b: string)
    requires Blocklike(kit, b)
    ensures TrimEnd(b + "\n") == b && !EndsWith(b, "\n")
  {
    assert (b + "\n")[..|b|] == b;
    if EndsWith(b, "\n") {
      EndsWithLast(b, "\n");
    }
  }

  lemma EndsWithSuffix(x: string, y: string)
    requires y != ""
    ensures EndsWith(x + y, "\n") <==> EndsWith(y, "\n")
  {
    assert (x + y)[|x + y| - 1..] == y[|y| - 1..];
  }

  lemma NextBehindBlock(kit: Kit, x: string, b: string, y: string, s: string)
    requires s == x + (b + y)
    ensures NextRange(kit, s, |x| + |b|).None? <==> NextRange(kit, y, 0).None?
  {
    var xb := x + b;
    assert s == xb + y;
    NextBehind(kit, xb, y);
  }

  lemma SettledText(x: string, b: string, y: string, s: string)
    requires s == x + (b + y) && EndsWith(y, "\n")
    ensures s[..|x|] == x && s[|x|..|x| + |b|] == b && s[|x| + |b|..] == y
    ensures Terminated(s[..|x|] + b + s[|x| + |b|..]) == s
  {
    assert s == (x + b) + y;
    EndsWithSuffix(x + b, y);
  }

  /** A terminated text whose first range is the block itself stays as it is. */
  lemma SettledStays(kit: Kit, x: string, b: string, y: string, s: string, force: bool)
    requires GoodMarkers(kit) && Blocklike(kit, b) && Free(x, kit.begin) && EndsWith(y, "\n") && s == x + (b + y)
    requires force || NextRange(kit, y, 0).None?
    ensures Reconcile(kit, Some(s), b + "\n", force).content == s
  {
    BlockIsFirst(kit, x, b, y, s);
    NextBehindBlock(kit, x, b, y, s);
    SettledText(x, b, y, s);
    TrimsToBlock(kit, b);
    RunWithBlock(kit, s, b + "\n", force, |x|, |x| + |b|, b);
  }

  // A file with a block

  lemma RangeStart(kit: Kit, content: string, r: Range)
    requires NextRange(kit, content, 0) == Some(r)
    ensures First(content, kit.begin, 0, r.start)
  {
    FindIsFirst(content, kit.begin, 0);
  }

  lemma FreeBefore(content: string, marker: string, at: nat)
    requires marker != "" && First(content, marker, 0, at)
    ensures Free(content[..at], marker)
  {
    assert content[..at] + content[at..] == content;
    forall i
      ensures !Occurs(content[..at], marker, i)
    {
      if Occurs(content[..at], marker, i) {
        OccursInLeft(content[..at], content[at..], marker, i);
      }
    }
  }

  lemma TerminatedBehind(x: string, b: string, rest: string)
    requires b != "" && !EndsWith(b, "\n")
    ensures Terminated(x + b + rest) == x + (b + Terminated(rest))
    ensures EndsWith(Terminated(rest), "\n")
  {
    if rest == "" {
      EndsWithSuffix(x, b);
      assert x + b + rest == x + b;
    } else {
      EndsWithSuffix(x + b, rest);
    }
    assert (rest + "\n")[|rest|..] == "\n";
    assert x + b + rest + "\n" == x + (b + (rest + "\n"));
    assert x + b + rest == x + (b + rest);
  }

  lemma NextInRest(kit: Kit, content: string, at: nat)
    requires GoodMarkers(kit) && at <= |content|
    ensures NextRange(kit, Terminated(content[at..]), 0).None? <==> NextRange(kit, content, at).None?
  {
    assert content[..at] + content[at..] == content;
    NextBehind(kit, content[..at], content[at..]);
    NextBeforeBreak(kit, content[at..]);
  }

  lemma StaysWithBlock(kit: Kit, content: string, b: string, force: bool)
    requires GoodMarkers(kit) && Blocklike(kit, b) && NextRange(kit, content, 0).Some?
    ensures var once := Reconcile(kit, Some(content), b + "\n", force).content;
            Reconcile(kit, Some(once), b + "\n", force).content == once
  {
    var r := NextRange(kit, content, 0).value;
    RunWithBlock(kit, content, b + "\n", force, r.start, r.end, content[r.start..r.end]);
    TrimsToBlock(kit, b);
    if Reconcile(kit, Some(content), b + "\n", force).content != content {
      RangeStart(kit, content, r);
      FreeBefore(content, kit.begin, r.start);
      TerminatedBehind(content[..r.start], b, content[r.end..]);
      NextInRest(kit, content, r.end);
      var y := Terminated(content[r.end..]);
      SettledStays(kit, content[..r.start], b, y, content[..r.start] + (b + y), force);
    }
  }

  // A file without a block

  lemma FreeWithSeparator(kit: Kit, content: string, marker: string)
    requires Free(content, marker) && marker != "" && '\n' !in marker
    ensures Free(content + Separator(content), marker)
  {
    forall i
      ensures !Occurs(content + "\n", marker, i) && !Occurs(content + "\n\n", marker, i)
    {
      OccursBeforeBreak(content, marker, i);
      OccursBeforeBreak(content + "\n", marker, i);
      assert content + "\n\n" == content + "\n" + "\n";
    }
  }

  /** An opening marker without a closing one behind it. */
  predicate Orphan(kit: Kit, content: string) {
    Find(content, kit.begin, 0) >= 0 && NextRange(kit, content, 0).None?
  }

  lemma NothingInABreak(kit: Kit)
    requires GoodMarkers(kit)
    ensures NextRange(kit, "\n", 0).None?
  {
    FindIsFirst("\n", kit.begin, 0);
  }

  lemma StaysWithoutMarker(kit: Kit, content: string, b: string, force: bool)
    requires GoodMarkers(kit) && Blocklike(kit, b) && Find(content, kit.begin, 0) < 0
    ensures var once := Reconcile(kit, Some(content), b + "\n", force).content;
            once == content + Separator(content) + (b + "\n")
            && Reconcile(kit, Some(once), b + "\n", force).content == once
  {
    FindIsFirst(content, kit.begin, 0);
    FreeWithSeparator(kit, content, kit.begin);
    RunWithoutBlock(kit, content, b + "\n", force);
    NothingInABreak(kit);
    var x := content + Separator(content);
    SettledStays(kit, x, b, "\n", x + (b + "\n"), force);
  }

  lemma StaysWhenCreated(kit: Kit, b: string, force: bool)
    requires GoodMarkers(kit) && Blocklike(kit, b)
    ensures Reconcile(kit, Some(b + "\n"), b + "\n", force).content == b + "\n"
  {
    NothingInABreak(kit);
    assert "" + (b + "\n") == b + "\n";
    SettledStays(kit, "", b, "\n", b + "\n", force);
  }

  // A file with an opening marker that is never closed

  lemma OrphanFirst(kit: Kit, content: string, b: string, p: nat)
    requires GoodMarkers(kit) && Blocklike(kit, b) && First(content, kit.begin, 0, p)
    ensures First(content + Separator(content) + (b + "\n"), kit.begin, 0, p)
  {
    var tail := Separator(content) + (b + "\n");
    assert content + Separator(content) + (b + "\n") == content + tail;
    forall i | 0 <= i <= p
      ensures Occurs(content + tail, kit.begin, i) <==> Occurs(content, kit.begin, i)
    {
      OccursInLeft(content, tail, kit.begin, i);
    }
  }

  lemma AbsentWithSeparator(content: string, marker: string, from: nat)
    requires Absent(content, marker, from) && marker != "" && '\n' !in marker
    ensures Absent(content + Separator(content), marker, from)
  {
    assert content + "\n\n" == content + "\n" + "\n";
    forall i | from <= i
      ensures !Occurs(content + "\n", marker, i) && !Occurs(content + "\n\n", marker, i)
    {
      OccursBeforeBreak(content, marker, i);
      OccursBeforeBreak(content + "\n", marker, i);
    }
  }

  lemma EndBehind(kit: Kit, x: string, b: string, from: nat)
    requires GoodMarkers(kit) && Blocklike(kit, b) && Absent(x, kit.end, from) && from <= |x|
    ensures First(x + (b + "\n"), kit.end, from, |x| + |b| - |kit.end|)
  {
    EndInBlock(kit, x, b, "\n", |b| - |kit.end|);
    forall j | from <= j < |x| + |b| - |kit.end|
      ensures !Occurs(x + (b + "\n"), kit.end, j)
    {
      if j >= |x| {
        EndInBlock(kit, x, b, "\n", j - |x|);
      } else if Occurs(x + (b + "\n"), kit.end, j) {
        OccursUpToMark(x, b + "\n", kit.end, j, '<');
      }
    }
  }

  /** What a second run takes for the managed block, when the first one appended `block` behind an unclosed marker. */
  function Swallowed(kit: Kit, content: string, block: string): string
    requires Orphan(kit, content)
  {
    var p := Find(content, kit.begin, 0);
    (content + Separator(content) + TrimEnd(block))[p..]
  }

  /** An opening marker at `p`, the first, and no closing one behind it. */
  ghost predicate OpenAt(kit: Kit, content: string, p: nat) {
    && First(content, kit.begin, 0, p) && Absent(content, kit.end, p + |kit.begin|)
    && p + |kit.begin| <= |content|
  }

  lemma OrphanIsOpen(kit: Kit, content: string) returns (p: nat)
    requires Orphan(kit, content)
    ensures OpenAt(kit, content, p) && p == Find(content, kit.begin, 0)
  {
    FindIsFirst(content, kit.begin, 0);
    p := Find(content, kit.begin, 0);
    NextIffPair(kit, content, 0);
    forall j | p + |kit.begin| <= j
      ensures !Occurs(content, kit.end, j)
    {
      assert !Pair(kit, content, 0, p, j);
    }
  }

  lemma OrphanRange(kit: Kit, content: string, x: string, b: string, p: nat)
    requires GoodMarkers(kit) && Blocklike(kit, b) && OpenAt(kit, content, p) && x == content + Separator(content)
    ensures NextRange(kit, x + (b + "\n"), 0) == Some(Range(p, |x| + |b|))
  {
    var once := x + (b + "\n");
    OrphanMarkers(kit, content, x, b, p, once);
    NextIs(kit, once, 0, p, |x| + |b| - |kit.end|, |x| + |b|);
  }

  lemma OrphanMarkers(kit: Kit, content: string, x: string, b: string, p: nat, once: string)
    requires GoodMarkers(kit) && Blocklike(kit, b) && OpenAt(kit, content, p) && x == content + Separator(content)
    requires once == x + (b + "\n")
    ensures First(once, kit.begin, 0, p) && First(once, kit.end, p + |kit.begin|, |x| + |b| - |kit.end|)
  {
    OrphanFirst(kit, content, b, p);
    AbsentWithSeparator(content, kit.end, p + |kit.begin|);
    EndBehind(kit, x, b, p + |kit.begin|);
  }

  lemma NothingBehind(kit: Kit, x: string, b: string)
    requires GoodMarkers(kit)
    ensures NextRange(kit, x + (b + "\n"), |x| + |b|).None?
  {
    NothingInABreak(kit);
    NextBehindBlock(kit, x, b, "\n", x + (b + "\n"));
  }

  /** The second run puts the block where the unclosed marker stood, and drops what stood between. */
  lemma SwallowingShortens(x: string, b: string, once: string, p: nat)
    requires p < |x| && once == x + (b + "\n")
    ensures Terminated(once[..p] + b + once[|x| + |b|..]) != once
  {
    var replaced := once[..p] + b + once[|x| + |b|..];
    assert once[|x| + |b|..] == "\n";
    EndsWithSuffix(once[..p] + b, "\n");
    assert |replaced| == p + |b| + 1;
  }

  lemma RunOverOther(kit: Kit, once: string, b: string, start: nat, end: nat, current: string, force: bool)
    requires Marked(kit) && start <= end <= |once| && current == once[start..end] && current != b + "\n"
    requires NextRange(kit, once, 0) == Some(Range(start, end)) && NextRange(kit, once, end).None?
    ensures Reconcile(kit, Some(once), b + "\n", force).content
         == if !force && !HashMatches(kit, current) then once
            else Terminated(once[..start] + TrimEnd(b + "\n") + once[end..])
  {
    RunWithBlock(kit, once, b + "\n", force, start, end, current);
  }

  lemma EndsLikeBlock(kit: Kit, x: string, b: string, once: string, p: nat)
    requires Blocklike(kit, b) && p <= |x| && once == x + (b + "\n")
    ensures once[p..|x| + |b|] != b + "\n"
  {
    var current := once[p..|x| + |b|];
    assert current[|current| - 1] == b[|b| - 1];
  }

  lemma OrphanTwice(kit: Kit, content: string, x: string, b: string, once: string, force: bool, p: nat)
    requires GoodMarkers(kit) && Blocklike(kit, b) && OpenAt(kit, content, p) && x == content + Separator(content)
    requires once == x + (b + "\n")
    ensures Reconcile(kit, Some(once), b + "\n", force).content == once <==>
            !force && !HashMatches(kit, once[p..|x| + |b|])
  {
    OrphanRange(kit, content, x, b, p);
    NothingBehind(kit, x, b);
    EndsLikeBlock(kit, x, b, once, p);
    TrimsToBlock(kit, b);
    RunOverOther(kit, once, b, p, |x| + |b|, once[p..|x| + |b|], force);
    SwallowingShortens(x, b, once, p);
  }

  lemma SwallowedIs(kit: Kit, content: string, x: string, b: string, p: nat)
    requires Orphan(kit, content) && Blocklike(kit, b) && x == content + Separator(content)
    requires p == Find(content, kit.begin, 0)
    ensures Swallowed(kit, content, b + "\n") == (x + (b + "\n"))[p..|x| + |b|]
  {
    TrimsToBlock(kit, b);
    assert (x + (b + "\n"))[p..|x| + |b|] == (x + b)[p..];
  }

  lemma OrphanCase(kit: Kit, content: string, b: string, force: bool)
    requires GoodMarkers(kit) && Blocklike(kit, b) && Orphan(kit, content)
    ensures var once := Reconcile(kit, Some(content), b + "\n", force).content;
            Reconcile(kit, Some(once), b + "\n", force).content == once <==>
            !force && !HashMatches(kit, Swallowed(kit, content, b + "\n"))
  {
    RunWithoutBlock(kit, content, b + "\n", force);
    var p := OrphanIsOpen(kit, content);
    var x := content + Separator(content);
    SwallowedIs(kit, content, x, b, p);
    OrphanTwice(kit, content, x, b, x + (b + "\n"), force, p);
  }

  // The result

  /**
   * Reconciling a second time changes nothing, for every file, every block whose body holds no closing
   * marker, and with or without force, except in one case: the file had an opening marker that was
   * never closed, and the text from there through the appended block passes for the kit's own (or
   * force does not ask). Then the second run swallows that text.
   */
  lemma TwiceIsOnceIff(kit: Kit, existing: Option<string>, body: string, force: bool)
    requires Good(kit) && Free(body, kit.end)
    ensures var once := Reconcile(kit, existing, Wrap(kit, body), force).content;
            Reconcile(kit, Some(once), Wrap(kit, body), force).content == once <==>
            !(existing.Some? && Orphan(kit, existing.value)
              && (force || HashMatches(kit, Swallowed(kit, existing.value, Wrap(kit, body)))))
  {
    var b := Block(kit, kit.hash(body), body);
    WrapIsBlock(kit, body);
    BlockIsBlocklike(kit, kit.hash(body), body);
    match existing {
      case None => StaysWhenCreated(kit, b, force);
      case Some(content) =>
        if NextRange(kit, content, 0).Some? {
          StaysWithBlock(kit, content, b, force);
        } else if Orphan(kit, content) {
          OrphanCase(kit, content, b, force);
        } else {
          StaysWithoutMarker(kit, content, b, force);
        }
    }
  }

  /** The first range of a file, with a block in its place. */
  function Replaced(content: string, r: Range, b: string): string
    requires r.start <= |content| && r.end <= |content|
  {
    content[..r.start] + (b + Terminated(content[r.end..]))
  }

  /**
   * Text outside the first block survives every run, but for a final line break: a file without block
   * gets one appended, and in a file with one either nothing changes or the block alone is replaced.
   */
  lemma OutsideIsKept(kit: Kit, content: string, body: string, force: bool, next: Option<Range>)
    requires Good(kit) && Free(body, kit.end) && next == NextRange(kit, content, 0)
    ensures var out := Reconcile(kit, Some(content), Wrap(kit, body), force).content;
            if next.None? then out == content + Separator(content) + Wrap(kit, body)
            else out == content || out == Replaced(content, next.value, Block(kit, kit.hash(body), body))
  {
    var b := Block(kit, kit.hash(body), body);
    WrapIsBlock(kit, body);
    BlockIsBlocklike(kit, kit.hash(body), body);
    match next {
      case None => RunWithoutBlock(kit, content, b + "\n", force);
      case Some(r) =>
        RunWithBlock(kit, content, b + "\n", force, r.start, r.end, content[r.start..r.end]);
        TrimsToBlock(kit, b);
        TerminatedBehind(content[..r.start], b, content[r.end..]);
    }
  }

  /** The new block stands where the old one stood, and is found there. */
  lemma ReplacedIsFound(kit: Kit, content: string, r: Range, b: string, out: string)
    requires GoodMarkers(kit) && Blocklike(kit, b) && NextRange(kit, content, 0) == Some(r)
    requires out == Replaced(content, r, b)
    ensures NextRange(kit, out, 0) == Some(Range(r.start, r.start + |b|))
  {
    RangeStart(kit, content, r);
    FreeBefore(content, kit.begin, r.start);
    BlockIsFirst(kit, content[..r.start], b, Terminated(content[r.end..]), out);
  }

  /** Without force, a block whose digest disagrees with its body is not touched, nor is any file with two blocks. */
  lemma EditedBlocksAreKept(kit: Kit, content: string, block: string, r: Range)
    requires Marked(kit) && NextRange(kit, content, 0) == Some(r)
    requires !HashMatches(kit, content[r.start..r.end]) || NextRange(kit, content, r.end).Some?
    ensures Reconcile(kit, Some(content), block, false).content == content
  {
    RunWithBlock(kit, content, block, false, r.start, r.end, content[r.start..r.end]);
  }

  // The exception is met, whatever the digest

  lemma OneMark(kit: Kit, hash: HashText, content: string)
    requires GoodMarkers(kit) && content == kit.begin + ("\n" + ("hash:" + hash + "\n"))
    ensures forall k | 0 < k < |content| :: content[k] != '<'
  {
    forall k | 0 < k < |content|
      ensures content[k] != '<'
    {
      if k < |kit.begin| {
        OnlyMark(kit.begin, k);
      } else if |kit.begin| + 6 <= k < |kit.begin| + 22 {
        assert content[k] == hash[k - |kit.begin| - 6];
      }
    }
  }

  lemma OrphanFile(kit: Kit, hash: HashText, content: string)
    requires GoodMarkers(kit) && content == kit.begin + ("\n" + ("hash:" + hash + "\n"))
    ensures OpenAt(kit, content, 0)
  {
    assert content[0..|kit.begin|] == kit.begin;
    OneMark(kit, hash, content);
    forall i
      ensures !Occurs(content, kit.end, i)
    {
      if Occurs(content, kit.end, i) {
        OccursAt(content, kit.end, i, 0);
        OccursAt(content, kit.end, i, 5);
      }
    }
  }

  lemma OpenIsOrphan(kit: Kit, content: string, p: nat)
    requires OpenAt(kit, content, p)
    ensures Orphan(kit, content) && Find(content, kit.begin, 0) == p
  {
    FoundFirst(content, kit.begin, 0, p);
    FindIsFirst(content, kit.end, p + |kit.begin|);
  }

  lemma TaggedLine(hash: HashText)
    ensures '\n' !in "hash:" + hash && FindHash("hash:" + hash, 0) == Some(hash)
  {
    var line := "hash:" + hash;
    assert line[0..5] == "hash:" && line[5..21] == hash;
    FindHashAt(line, 0, 0, hash);
  }

  /** A second line that carries the digest of what follows passes. */
  lemma SecondLineMatches(kit: Kit, hash: HashText, rest: string)
    requires GoodMarkers(kit) && hash == kit.hash(TrimEnd(DropEnd(kit, rest)))
    ensures HashMatches(kit, kit.begin + "\n" + ("hash:" + hash + "\n" + rest))
  {
    TaggedLine(hash);
    TwoLinesAndRest(kit.begin, "hash:" + hash, rest);
    JoinOfSplit(rest, '\n');
  }

  lemma SwallowedText(begin: string, line: string, b: string)
    ensures var content := begin + ("\n" + (line + "\n"));
            && EndsWith(content, "\n")
            && (content + "\n" + b)[0..] == begin + "\n" + (line + "\n" + ("\n" + b))
  {
    var content := begin + ("\n" + (line + "\n"));
    assert content[|content| - 1..] == "\n";
  }

  /** For every digest and every body there is a file that a second run changes. */
  lemma SomeFileIsSwallowed(kit: Kit, body: string) returns (content: string)
    requires Good(kit) && Free(body, kit.end)
    ensures Orphan(kit, content)
    ensures var once := Reconcile(kit, Some(content), Wrap(kit, body), false).content;
            Reconcile(kit, Some(once), Wrap(kit, body), false).content != once
  {
    var b := Block(kit, kit.hash(body), body);
    WrapIsBlock(kit, body);
    BlockIsBlocklike(kit, kit.hash(body), body);
    TrimsToBlock(kit, b);
    var hash := kit.hash(TrimEnd(DropEnd(kit, "\n" + b)));
    content := kit.begin + ("\n" + ("hash:" + hash + "\n"));
    OrphanFile(kit, hash, content);
    OpenIsOrphan(kit, content, 0);
    SecondLineMatches(kit, hash, "\n" + b);
    SwallowedText(kit.begin, "hash:" + hash, b);
    TwiceIsOnceIff(kit, Some(content), body, false);
  }

  // The real markers

  lemma MarkerIsGood(marker: string)
    requires |marker| > 5 && marker[0] == '<' && marker[|marker| - 1] == '>'
    requires forall k | 0 < k < |marker| :: marker[k] != '<' && marker[k] != '\n'
    ensures GoodMarker(marker, '<')
  {
    assert marker == [marker[0]] + marker[1..];
  }

  /** The markers of the kit are as the proofs need them. */
  lemma AgentKitIsGood(version: string, hash: string -> HashText)
    requires forall c | c in version :: c !in "\n<:"
    ensures Good(AgentKit(version, hash))
  {
    MarkerIsGood(MANAGED_BEGIN);
    MarkerIsGood(MANAGED_END);
  }
}
