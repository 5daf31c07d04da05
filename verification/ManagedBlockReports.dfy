/** What one run of `reconcileManagedBlock` writes and reports, for every file, in terms of where the markers stand. */
module ManagedBlockReports {

  import opened TextSearch
  import opened ManagedBlock
  import opened ManagedBlockProofs

  // The block

  /** The lines of a wrapped block, with the real markers. */
  lemma WrappedText(version: string, hash: string -> HashText, body: string)
    ensures Wrap(AgentKit(version, hash), body)
         == "<!-- BEGIN NOODLE AGENT CONTEXT -->" + "\n" + ("<!-- noodle-agent-kit:" + version + " hash:" + hash(body) + " -->"
            + "\n" + (body + "\n" + "<!-- END NOODLE AGENT CONTEXT -->")) + "\n"
  {
    WrapIsBlock(AgentKit(version, hash), body);
  }

  lemma TrimsLast(b: string)
    requires b != "" && !IsSpace(b[|b| - 1])
    ensures TrimEnd(b + "\n") == b && !EndsWith(b, "\n")
  {
    assert (b + "\n")[..|b|] == b;
    assert b[|b| - 1..] == [b[|b| - 1]];
  }

  lemma BlockEnds(kit: Kit, hash: HashText, body: string)
    requires GoodMarkers(kit)
    ensures var b := Block(kit, hash, body); b != "" && !IsSpace(b[|b| - 1])
  {
    var b := Block(kit, hash, body);
    assert b[|b| - 1] == kit.end[|kit.end| - 1];
  }

  // Where the markers stand

  /** The first opening marker stands at `start`, and the first closing marker behind it ends at `end`. */
  ghost predicate BlockAt(kit: Kit, s: string, start: nat, end: nat) {
    && First(s, kit.begin, 0, start) && end >= |kit.end|
    && First(s, kit.end, start + |kit.begin|, end - |kit.end|)
  }

  /** An opening marker and behind it a closing one stand at `from` or later. */
  ghost predicate PairBehindPlace(kit: Kit, s: string, from: nat) {
    exists i, j :: Pair(kit, s, from, i, j)
  }

  lemma NextIsBlockAt(kit: Kit, s: string, start: nat, end: nat)
    requires BlockAt(kit, s, start, end)
    ensures NextRange(kit, s, 0) == Some(Range(start, end)) && start <= end <= |s|
  {
    NextIs(kit, s, 0, start, end - |kit.end|, end);
  }

  /** Two line breaks or more stand between the old text and what is appended. */
  predicate BlankLineBehind(content: string, gap: string) {
    if EndsWith(content, "\n") then gap == "\n" else gap == "\n\n"
  }

  // Reports

  /** A file that is not there is the block; one without a block gets it appended behind a blank line. */
  lemma RunWithoutMarkers(kit: Kit, existing: Option<string>, block: string, force: bool) returns (gap: string)
    requires Marked(kit) && (existing.Some? ==> !PairBehindPlace(kit, existing.value, 0))
    ensures existing.None? ==> Reconcile(kit, existing, block, force) == Outcome(block, Created)
    ensures existing.Some? ==>
              BlankLineBehind(existing.value, gap)
              && Reconcile(kit, existing, block, force) == Outcome(existing.value + gap + block, Updated)
  {
    gap := "";
    if existing.Some? {
      NextIffPair(kit, existing.value, 0);
      gap := Separator(existing.value);
      RunWithoutBlock(kit, existing.value, block, force);
    }
  }

  /** What a run reports on a file with a block that passes or does not, behind which there are others or not. */
  function Report(passes: bool, others: bool, force: bool): Action {
    if others && !force then DuplicateBlocks
    else if !passes && !force then UserEditedBlock
    else if !passes then Overwritten
    else Updated
  }

  lemma WrappedIsNotCurrent(kit: Kit, s: string, start: nat, end: nat, body: string)
    requires GoodMarkers(kit) && BlockAt(kit, s, start, end) && start <= end <= |s|
    ensures s[start..end] != Wrap(kit, body)
  {
    WrapIsBlock(kit, body);
    var current := s[start..end];
    assert current[|current| - 1] == s[end - 1] == kit.end[|kit.end| - 1] by {
      assert s[end - |kit.end|..end][|kit.end| - 1] == s[end - 1];
    }
  }

  /**
   * On a file with a block, a run keeps the whole file when it reports that it skips it, and otherwise puts
   * the new block in the place of the first one, whatever that one says, and keeps the rest but for a final line
   * break. It skips only without force, and then exactly a file with another block and a block that was edited;
   * it reports an edited block as overwritten exactly when it replaces one, and never that nothing changed.
   */
  lemma RunOnBlock(kit: Kit, content: string, body: string, force: bool, start: nat, end: nat)
    requires Good(kit) && BlockAt(kit, content, start, end)
    ensures start <= end <= |content|
    ensures var out := Reconcile(kit, Some(content), Wrap(kit, body), force);
            && out.action == Report(HashMatches(kit, content[start..end]), PairBehindPlace(kit, content, end), force)
            && out.content == (if out.action in {DuplicateBlocks, UserEditedBlock} then content
                               else content[..start] + (Block(kit, kit.hash(body), body) + Terminated(content[end..])))
  {
    var b := Block(kit, kit.hash(body), body);
    NextIsBlockAt(kit, content, start, end);
    WrapIsBlock(kit, body);
    BlockEnds(kit, kit.hash(body), body);
    TrimsLast(b);
    NextIffPair(kit, content, end);
    WrappedIsNotCurrent(kit, content, start, end, body);
    RunWithBlock(kit, content, b + "\n", force, start, end, content[start..end]);
    TerminatedBehind(content[..start], b, content[end..]);
  }

  lemma BlockIsPair(kit: Kit, s: string, start: nat, end: nat)
    requires BlockAt(kit, s, start, end)
    ensures PairBehindPlace(kit, s, 0)
  {
    assert Pair(kit, s, 0, start, end - |kit.end|);
  }

  lemma NextStands(kit: Kit, s: string, start: nat, end: nat)
    requires NextRange(kit, s, 0) == Some(Range(start, end))
    ensures BlockAt(kit, s, start, end)
  {
    FindIsFirst(s, kit.begin, 0);
    FindIsFirst(s, kit.end, start + |kit.begin|);
  }

  lemma FirstPairIsBlock(kit: Kit, s: string) returns (start: nat, end: nat)
    requires PairBehindPlace(kit, s, 0)
    ensures BlockAt(kit, s, start, end)
  {
    NextIffPair(kit, s, 0);
    start, end := NextRange(kit, s, 0).value.start, NextRange(kit, s, 0).value.end;
    NextStands(kit, s, start, end);
  }

  /** Every file is one or the other. */
  lemma MarkersStandOrNot(kit: Kit, s: string)
    ensures PairBehindPlace(kit, s, 0) <==> exists start: nat, end: nat :: BlockAt(kit, s, start, end)
  {
    if PairBehindPlace(kit, s, 0) {
      var start, end := FirstPairIsBlock(kit, s);
    }
    if start: nat, end: nat :| BlockAt(kit, s, start, end) {
      BlockIsPair(kit, s, start, end);
    }
  }
}
