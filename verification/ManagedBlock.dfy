/** The managed block that `agent-kit/src/index.ts` keeps inside a file the user owns. */
module ManagedBlock {

  import opened TextSearch

  datatype Option<+T> = Some(value: T) | None

  const MANAGED_BEGIN := "<!-- BEGIN NOODLE AGENT CONTEXT -->"
  const MANAGED_END := "<!-- END NOODLE AGENT CONTEXT -->"

  predicate IsHex(c: char) {
    'a' <= c <= 'f' || '0' <= c <= '9'
  }

  /** Sixteen lower-case hexadecimal digits: a truncated digest. */
  type HashText = h: string | |h| == 16 && forall k | 0 <= k < |h| :: IsHex(h[k]) witness "0000000000000000"

  /** The markers, the package version, and the digest `contentHash`. */
  datatype Kit = Kit(begin: string, end: string, version: string, hash: string -> HashText)

  /** What the proofs need of the markers; `ManagedMarkers` says that the real ones have it. */
  predicate GoodMarker(marker: string, mark: char) {
    && |marker| > 5
    && marker[0] == mark && mark !in marker[1..] && '\n' !in marker
    && !IsSpace(marker[|marker| - 1])
  }

  predicate GoodMarkers(kit: Kit) {
    && GoodMarker(kit.begin, '<') && GoodMarker(kit.end, '<')
    && kit.begin[5] == 'B' && kit.end[5] == 'E'
  }

  predicate Good(kit: Kit) {
    GoodMarkers(kit) && forall c | c in kit.version :: c !in "\n<:"
  }

  /** Neither marker is empty, so that the search moves on. */
  predicate Marked(kit: Kit) {
    kit.begin != "" && kit.end != ""
  }

  function AgentKit(version: string, hash: string -> HashText): Kit {
    Kit(MANAGED_BEGIN, MANAGED_END, version, hash)
  }

  // Writing a block

  /** The line that carries the digest of the body. */
  function Metadata(kit: Kit, hash: HashText): string {
    "<!-- noodle-agent-kit:" + kit.version + " hash:" + hash + " -->"
  }

  /** `wrapManagedBlock`. */
  function Wrap(kit: Kit, body: string): string {
    Join([kit.begin, Metadata(kit, kit.hash(body)), body, kit.end, ""], '\n')
  }

  // Finding the blocks of a file

  datatype Range = Range(start: nat, end: nat)

  /** The first block at `offset` or later: an opening marker, up to the first closing marker behind it. */
  function NextRange(kit: Kit, content: string, offset: nat): (r: Option<Range>)
    ensures r.Some? ==> offset <= r.value.start && r.value.start + |kit.begin| + |kit.end| <= r.value.end <= |content|
  {
    var start := Find(content, kit.begin, offset);
    if start < 0 then None
    else
      var endMarker := Find(content, kit.end, start + |kit.begin|);
      if endMarker < 0 then None else Some(Range(start, endMarker + |kit.end|))
  }

  ghost predicate Advances(next: nat -> Option<Range>, length: nat) {
    forall offset: nat :: var r := next(offset); r.Some? ==> offset < r.value.end <= length
  }

  /** Range after range, as long as there is a next one. */
  ghost function Collect(next: nat -> Option<Range>, length: nat, offset: nat): seq<Range>
    requires Advances(next, length)
    decreases length - offset
  {
    if offset >= length || next(offset).None? then []
    else [next(offset).value] + Collect(next, length, next(offset).value.end)
  }

  function NextIn(kit: Kit, content: string): nat -> Option<Range> {
    (offset: nat) => NextRange(kit, content, offset)
  }

  lemma NextAdvances(kit: Kit, content: string)
    requires Marked(kit)
    ensures Advances(NextIn(kit, content), |content|)
  {
  }

  ghost function Ranges(kit: Kit, content: string, offset: nat): seq<Range>
    requires Marked(kit)
  {
    NextAdvances(kit, content);
    Collect(NextIn(kit, content), |content|, offset)
  }

  ghost predicate IsNext(next: nat -> Option<Range>, r: Range) {
    exists o: nat :: next(o) == Some(r)
  }

  /** Each range is the next one at some offset, from `offset` on, and no two overlap. */
  ghost predicate InOrder(next: nat -> Option<Range>, offset: nat, rs: seq<Range>) {
    && (forall k | 0 <= k < |rs| :: offset <= rs[k].start && IsNext(next, rs[k]))
    && (forall i, j | 0 <= i < j < |rs| :: rs[i].end <= rs[j].start)
  }

  lemma OrderStep(next: nat -> Option<Range>, offset: nat, first: Range, rest: seq<Range>)
    requires next(offset) == Some(first) && offset <= first.start && offset <= first.end
    requires InOrder(next, first.end, rest)
    ensures InOrder(next, offset, [first] + rest)
  {
    assert IsNext(next, first);
  }

  /** Collected ranges are in order. */
  lemma {:induction false} CollectedInOrder(next: nat -> Option<Range>, length: nat, offset: nat)
    requires Advances(next, length)
    requires forall o: nat | next(o).Some? :: o <= next(o).value.start
    ensures InOrder(next, offset, Collect(next, length, offset))
    decreases length - offset
  {
    if offset < length && next(offset).Some? {
      var first := next(offset).value;
      CollectedInOrder(next, length, first.end);
      OrderStep(next, offset, first, Collect(next, length, first.end));
    }
  }

  lemma CollectStep(next: nat -> Option<Range>, length: nat, offset: nat, r: Range)
    requires Advances(next, length) && offset < length && next(offset) == Some(r)
    ensures Collect(next, length, offset) == [r] + Collect(next, length, r.end)
  {
  }

  lemma RangesStop(kit: Kit, content: string, offset: nat)
    requires Marked(kit) && (offset >= |content| || NextRange(kit, content, offset).None?)
    ensures Ranges(kit, content, offset) == []
  {
  }

  lemma RangesStep(kit: Kit, content: string, offset: nat)
    requires Marked(kit) && offset < |content| && NextRange(kit, content, offset).Some?
    ensures var r := NextRange(kit, content, offset).value;
            Ranges(kit, content, offset) == [r] + Ranges(kit, content, r.end)
  {
    NextAdvances(kit, content);
    CollectStep(NextIn(kit, content), |content|, offset, NextRange(kit, content, offset).value);
  }

  /** `found`, and what is still to be found. */
  ghost function Gather(kit: Kit, content: string, offset: nat, found: seq<Range>): Option<seq<Range>>
    requires Marked(kit)
  {
    Some(found + Ranges(kit, content, offset))
  }

  lemma GatherAll(kit: Kit, content: string)
    requires Marked(kit)
    ensures Gather(kit, content, 0, []) == Some(Ranges(kit, content, 0))
  {
    assert [] + Ranges(kit, content, 0) == Ranges(kit, content, 0);
  }

  lemma GatherNext(kit: Kit, content: string, offset: nat, found: seq<Range>)
    requires Marked(kit)
    ensures Gather(kit, content, offset, found)
         == (var next := NextRange(kit, content, offset);
             if offset >= |content| || next.None? then Some(found)
             else Gather(kit, content, next.value.end, found + [next.value]))
  {
    var next := NextRange(kit, content, offset);
    if offset >= |content| || next.None? {
      RangesStop(kit, content, offset);
      assert found + [] == found;
    } else {
      RangesStep(kit, content, offset);
      AppendOne(found, next.value, Ranges(kit, content, next.value.end));
    }
  }

  lemma AppendOne<T>(left: seq<T>, x: T, right: seq<T>)
    ensures left + ([x] + right) == (left + [x]) + right
  {
  }

  /** `managedBlockRanges`. */
  method ManagedBlockRanges(kit: Kit, content: string) returns (ranges: seq<Range>)
    requires Marked(kit)
    ensures ranges == Ranges(kit, content, 0)
  {
    ranges := [];
    var offset := 0;
    GatherAll(kit, content);
    while offset < |content|
      invariant Gather(kit, content, offset, ranges) == Gather(kit, content, 0, [])
      decreases |content| - offset
    {
      var next := NextRange(kit, content, offset);
      GatherNext(kit, content, offset, ranges);
      if next.None? {
        return;
      }
      ranges := ranges + [next.value];
      offset := next.value.end;
    }
    GatherNext(kit, content, offset, ranges);
  }

  // Was a block edited?

  predicate HashTag(line: string, at: nat) {
    at + 5 <= |line| && line[at..at + 5] == "hash:"
  }

  /** `/hash:([a-f0-9]{16})/`: the leftmost match at `from` or later. */
  function FindHash(line: string, from: nat): Option<HashText>
    decreases |line| - from
  {
    if from + 21 > |line| then None
    else
      var digits := line[from + 5..from + 21];
      if HashTag(line, from) && forall k | 0 <= k < |digits| :: IsHex(digits[k]) then Some(digits)
      else FindHash(line, from + 1)
  }

  function DropBreak(s: string): string {
    if EndsWith(s, "\n") then s[..|s| - 1] else s
  }

  /** Removes a closing marker from the end, with at most one line break on either side. */
  function DropEnd(kit: Kit, s: string): string {
    if EndsWith(s, kit.end + "\n") then DropBreak(s[..|s| - |kit.end + "\n"|])
    else if EndsWith(s, kit.end) then DropBreak(s[..|s| - |kit.end|])
    else s
  }

  /** `managedBlockHashMatches`. */
  predicate HashMatches(kit: Kit, block: string) {
    var lines := Split(block, '\n');
    var hash := FindHash(if |lines| > 1 then lines[1] else "", 0);
    hash.Some? && kit.hash(TrimEnd(DropEnd(kit, Join(if |lines| > 2 then lines[2..] else [], '\n')))) == hash.value
  }

  // Reconciling

  datatype Action = Created | Updated | Unchanged | Overwritten | DuplicateBlocks | UserEditedBlock

  datatype Outcome = Outcome(content: string, action: Action)

  /** `reconcileManagedBlock`; the last two actions are `skipped` with its reason. */
  ghost function Reconcile(kit: Kit, existing: Option<string>, block: string, force: bool): Outcome
    requires Marked(kit)
  {
    match existing
    case None => Outcome(block, Created)
    case Some(content) =>
      var ranges := Ranges(kit, content, 0);
      if |ranges| > 1 && !force then Outcome(content, DuplicateBlocks)
      else if ranges == [] then
        Outcome(content + (if EndsWith(content, "\n") then "\n" else "\n\n") + block, Updated)
      else
        var range := ranges[0];
        RangeInside(kit, content);
        var current := content[range.start..range.end];
        if current == block then Outcome(content, Unchanged)
        else if !HashMatches(kit, current) && !force then Outcome(content, UserEditedBlock)
        else
          var replaced := content[..range.start] + TrimEnd(block) + content[range.end..];
          Outcome(if EndsWith(replaced, "\n") then replaced else replaced + "\n",
                  if force && !HashMatches(kit, current) then Overwritten else Updated)
  }

  lemma RangeInside(kit: Kit, content: string)
    requires Marked(kit) && Ranges(kit, content, 0) != []
    ensures Ranges(kit, content, 0)[0].start <= Ranges(kit, content, 0)[0].end <= |content|
  {
  }
}
