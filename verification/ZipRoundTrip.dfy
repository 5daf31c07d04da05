/** Reading back what `host-package-zip.ts` lays out. */
module ZipRoundTrip {

  import opened Bytes
  import opened ZipFormat

  lemma Reads16(s: seq<Byte>, at: nat, part: seq<Byte>, field: nat, v: int)
    requires Holds(s, at, part) && Fits16(v) && Holds(part, field, Le16(v))
    ensures U16(s, at + field) == v
  {
    HoldsInside(s, at, part, field, Le16(v));
    ReadsBack16(s, at + field, v);
  }

  lemma Reads32(s: seq<Byte>, at: nat, part: seq<Byte>, field: nat, v: int)
    requires Holds(s, at, part) && Fits32(v) && Holds(part, field, Le32(v))
    ensures U32(s, at + field) == v
  {
    HoldsInside(s, at, part, field, Le32(v));
    ReadsBack32(s, at + field, v);
  }

  // The three records

  lemma LocalHeaderFields(e: Entry)
    requires EntryFits(e)
    ensures var h := LocalHeader(e);
            && Holds(h, 0, Le32(LOCAL_FILE_HEADER)) && Holds(h, 8, Le16(0)) && Holds(h, 14, Le32(e.crc))
            && Holds(h, 18, Le32(e.byteLength)) && Holds(h, 22, Le32(e.byteLength))
            && Holds(h, 26, Le16(|e.name|)) && Holds(h, 28, Le16(0))
  {
  }

  lemma CentralHeaderFields(e: Entry, offset: int)
    requires EntryFits(e) && Fits32(offset)
    ensures var h := CentralHeader(e, offset);
            && Holds(h, 0, Le32(CENTRAL_DIRECTORY_HEADER)) && Holds(h, 10, Le16(0)) && Holds(h, 16, Le32(e.crc))
            && Holds(h, 20, Le32(e.byteLength)) && Holds(h, 24, Le32(e.byteLength))
            && Holds(h, 28, Le16(|e.name|)) && Holds(h, 30, Le16(0)) && Holds(h, 32, Le16(0))
            && Holds(h, 42, Le32(offset))
  {
  }

  lemma EndRecordFields(count: int, size: int, offset: int)
    requires Fits16(count) && Fits32(size) && Fits32(offset)
    ensures var h := EndRecord(count, size, offset);
            && Holds(h, 0, Le32(END_OF_CENTRAL_DIRECTORY)) && Holds(h, 4, Le16(0)) && Holds(h, 6, Le16(0))
            && Holds(h, 8, Le16(count)) && Holds(h, 10, Le16(count)) && Holds(h, 12, Le32(size))
            && Holds(h, 16, Le32(offset)) && Holds(h, 20, Le16(0))
  {
  }

  lemma ReadsLocalHeader(s: seq<Byte>, at: nat, e: Entry)
    requires EntryFits(e) && Holds(s, at, LocalHeader(e))
    ensures at + LOCAL_SIZE <= |s| && U32(s, at) == LOCAL_FILE_HEADER && U16(s, at + 8) == 0
    ensures U32(s, at + 14) == e.crc && U32(s, at + 18) == U32(s, at + 22) == e.byteLength
    ensures U16(s, at + 26) == |e.name| && U16(s, at + 28) == 0
  {
    var h := LocalHeader(e);
    LocalHeaderFields(e);
    Reads32(s, at, h, 0, LOCAL_FILE_HEADER);
    Reads16(s, at, h, 8, 0);
    Reads32(s, at, h, 14, e.crc);
    Reads32(s, at, h, 18, e.byteLength);
    Reads32(s, at, h, 22, e.byteLength);
    Reads16(s, at, h, 26, |e.name|);
    Reads16(s, at, h, 28, 0);
  }

  lemma LocalPartHolds(s: seq<Byte>, at: nat, e: Entry)
    requires EntryFits(e) && Holds(s, at, LocalPart(e))
    ensures Holds(s, at, LocalHeader(e)) && at + LOCAL_SIZE + |e.name| + |e.content| <= |s|
    ensures s[at + LOCAL_SIZE..at + LOCAL_SIZE + |e.name|] == e.name
    ensures s[at + LOCAL_SIZE + |e.name|..at + LOCAL_SIZE + |e.name| + |e.content|] == e.content
  {
    assert LocalPart(e) == LocalHeader(e) + (e.name + e.content);
    HoldsParts(s, at, LocalHeader(e), e.name + e.content);
    HoldsParts(s, at + LOCAL_SIZE, e.name, e.content);
    HeldIsSlice(s, at + LOCAL_SIZE, e.name);
    HeldIsSlice(s, at + LOCAL_SIZE + |e.name|, e.content);
  }

  /** A local part is read back wherever it stands; the content is as long as the header says. */
  lemma ReadsLocal(s: seq<Byte>, at: nat, e: Entry)
    requires EntryFits(e) && e.byteLength == |e.content| && Holds(s, at, LocalPart(e))
    ensures ReadLocal(s, at) == Some(Located(MemberOf(e), at + LOCAL_SIZE + |e.name| + |e.content|))
  {
    LocalPartHolds(s, at, e);
    ReadsLocalHeader(s, at, e);
  }

  lemma ReadsListed(s: seq<Byte>, at: nat, e: Entry, offset: int)
    requires EntryFits(e) && Fits32(offset) && Holds(s, at, CentralPart(e, offset))
    ensures ReadListed(s, at) == Some(Listed(e.name, e.crc, e.byteLength, offset, at + CENTRAL_SIZE + |e.name|))
  {
    var h := CentralHeader(e, offset);
    HoldsParts(s, at, h, e.name);
    CentralHeaderFields(e, offset);
    Reads32(s, at, h, 0, CENTRAL_DIRECTORY_HEADER);
    Reads16(s, at, h, 10, 0);
    Reads32(s, at, h, 16, e.crc);
    Reads32(s, at, h, 20, e.byteLength);
    Reads32(s, at, h, 24, e.byteLength);
    Reads16(s, at, h, 28, |e.name|);
    Reads16(s, at, h, 30, 0);
    Reads16(s, at, h, 32, 0);
    Reads32(s, at, h, 42, offset);
    HeldIsSlice(s, at + CENTRAL_SIZE, e.name);
  }

  /** The end record leads the reader to the directory, if the directory is where it says. */
  lemma ReadsEnd(s: seq<Byte>, count: int, size: int, offset: int)
    requires Fits16(count) && Fits32(size) && Fits32(offset)
    requires |s| >= END_SIZE && Holds(s, |s| - END_SIZE, EndRecord(count, size, offset))
    ensures ReadZip(s) ==
            if offset + size == |s| - END_SIZE then ReadDirectory(ListedIn(s), LocalIn(s), offset, |s| - END_SIZE, count) else None
  {
    var h := EndRecord(count, size, offset);
    var end := |s| - END_SIZE;
    EndRecordFields(count, size, offset);
    Reads32(s, end, h, 0, END_OF_CENTRAL_DIRECTORY);
    Reads16(s, end, h, 4, 0);
    Reads16(s, end, h, 6, 0);
    Reads16(s, end, h, 8, count);
    Reads16(s, end, h, 10, count);
    Reads32(s, end, h, 12, size);
    Reads32(s, end, h, 16, offset);
    Reads16(s, end, h, 20, 0);
  }

  // Reading a directory, whatever the bytes

  /** The local header at `starts[k]` holds member `k`. */
  predicate Stored(localAt: nat -> Option<Located>, ms: seq<Member>, starts: seq<nat>) {
    && |starts| == |ms| + 1
    && forall k | 0 <= k < |ms| :: localAt(starts[k]) == Some(Located(ms[k], starts[k + 1]))
  }

  /** The directory entry at `rows[k]` lists member `k` with its size and offset. */
  predicate Lists(listedAt: nat -> Option<Listed>, ms: seq<Member>, sizes: seq<int>, offsets: seq<nat>, rows: seq<nat>) {
    && |sizes| == |ms| && |offsets| == |rows| == |ms| + 1
    && forall k | 0 <= k < |ms| ::
         listedAt(rows[k]) == Some(Listed(ms[k].name, ms[k].crc, sizes[k], offsets[k], rows[k + 1]))
  }

  lemma {:induction false} ReadsDirectory(
    listedAt: nat -> Option<Listed>, localAt: nat -> Option<Located>,
    ms: seq<Member>, sizes: seq<int>, offsets: seq<nat>, rows: seq<nat>, k: nat)
    requires Lists(listedAt, ms, sizes, offsets, rows) && Stored(localAt, ms, offsets) && k <= |ms|
    requires forall j | 0 <= j < |ms| :: sizes[j] == |ms[j].content|
    ensures ReadDirectory(listedAt, localAt, rows[k], rows[|ms|], |ms| - k) == Some(ms[k..])
    decreases |ms| - k
  {
    if k < |ms| {
      assert listedAt(rows[k]) == Some(Listed(ms[k].name, ms[k].crc, sizes[k], offsets[k], rows[k + 1]));
      assert localAt(offsets[k]) == Some(Located(ms[k], offsets[k + 1]));
      ReadsDirectory(listedAt, localAt, ms, sizes, offsets, rows, k + 1);
      assert ms[k..] == [ms[k]] + ms[k + 1..];
    }
  }

  /** What a reader gets from a directory are contents of the listed sizes. */
  lemma {:induction false} ContentsAreAsListed(
    listedAt: nat -> Option<Listed>, localAt: nat -> Option<Located>,
    ms: seq<Member>, sizes: seq<int>, offsets: seq<nat>, rows: seq<nat>, k: nat)
    requires Lists(listedAt, ms, sizes, offsets, rows) && k <= |ms|
    requires ReadDirectory(listedAt, localAt, rows[k], rows[|ms|], |ms| - k) == Some(ms[k..])
    ensures forall j | k <= j < |ms| :: |ms[j].content| == sizes[j]
    decreases |ms| - k
  {
    if k < |ms| {
      assert listedAt(rows[k]) == Some(Listed(ms[k].name, ms[k].crc, sizes[k], offsets[k], rows[k + 1]));
      var found := localAt(offsets[k]).value;
      var rest := ReadDirectory(listedAt, localAt, rows[k + 1], rows[|ms|], |ms| - (k + 1)).value;
      assert ms[k..] == [found.member] + rest;
      assert ms[k] == ms[k..][0] == found.member;
      assert ms[k + 1..] == ms[k..][1..] == rest;
      ContentsAreAsListed(listedAt, localAt, ms, sizes, offsets, rows, k + 1);
    }
  }

  lemma {:induction false} WalksForward(s: seq<Byte>, ms: seq<Member>, starts: seq<nat>, k: nat)
    requires Stored(LocalIn(s), ms, starts) && k <= |ms|
    requires ReadLocal(s, starts[|ms|]).None?
    ensures WalkForward(s, starts[k]) == ms[k..]
    decreases |ms| - k
  {
    if k < |ms| {
      assert LocalIn(s)(starts[k]) == ReadLocal(s, starts[k]);
      WalksForward(s, ms, starts, k + 1);
      assert ms[k..] == [ms[k]] + ms[k + 1..];
    }
  }

  predicate SameSizes(ms: seq<Member>, sizes: seq<int>)
    requires |sizes| == |ms|
  {
    forall j | 0 <= j < |ms| :: sizes[j] == |ms[j].content|
  }

  /** The directory gives the members precisely when it lists their true sizes. */
  lemma DirectoryRoundTrip(
    listedAt: nat -> Option<Listed>, localAt: nat -> Option<Located>,
    ms: seq<Member>, sizes: seq<int>, offsets: seq<nat>, rows: seq<nat>, at: nat, end: nat, count: nat)
    requires Lists(listedAt, ms, sizes, offsets, rows)
    requires count == |ms| && at == rows[0] && end == rows[count]
    requires SameSizes(ms, sizes) ==> Stored(localAt, ms, offsets)
    ensures ReadDirectory(listedAt, localAt, at, end, count) == Some(ms) <==> SameSizes(ms, sizes)
  {
    assert ms[0..] == ms;
    if SameSizes(ms, sizes) {
      ReadsDirectory(listedAt, localAt, ms, sizes, offsets, rows, 0);
    } else if ReadDirectory(listedAt, localAt, at, end, count) == Some(ms) {
      ContentsAreAsListed(listedAt, localAt, ms, sizes, offsets, rows, 0);
    }
  }

  // Where the parts stand

  /** Part `k` stands at the end of the parts before it. */
  lemma {:induction false} PartStands(parts: seq<seq<Byte>>, k: nat)
    requires k < |parts|
    ensures Holds(Flatten(parts), |Flatten(parts[..k])|, parts[k])
    decreases |parts|
  {
    var last := |parts| - 1;
    if k < last {
      PartStands(parts[..last], k);
      assert parts[..last][..k] == parts[..k];
    }
  }

  lemma Reassociate(a: seq<Byte>, b: seq<Byte>, c: seq<Byte>)
    ensures a + b + c == a + (b + c)
  {
  }

  lemma MiddleHolds(a: seq<Byte>, b: seq<Byte>, c: seq<Byte>, at: nat, part: seq<Byte>)
    requires Holds(b, at, part)
    ensures Holds(a + b + c, |a| + at, part)
  {
    forall i | 0 <= i < |part|
      ensures (a + b + c)[|a| + at + i] == part[i]
    {
      assert (a + b)[|a| + (at + i)] == b[at + i];
    }
  }

  lemma PrefixHolds(a: seq<Byte>, b: seq<Byte>, at: nat, part: seq<Byte>)
    requires Holds(a, at, part)
    ensures Holds(a + b, at, part)
  {
  }

  /** Where the first `k` parts of a list end, counted from `base`. */
  function End(base: nat, parts: seq<seq<Byte>>, k: nat): nat
    requires k <= |parts|
  {
    base + |Flatten(parts[..k])|
  }

  function Ends(base: nat, parts: seq<seq<Byte>>): (ends: seq<nat>)
    ensures |ends| == |parts| + 1
  {
    seq(|parts| + 1, k requires 0 <= k <= |parts| => End(base, parts, k))
  }

  lemma NextEnd(base: nat, parts: seq<seq<Byte>>, k: nat)
    requires k < |parts|
    ensures End(base, parts, k + 1) == End(base, parts, k) + |parts[k]|
  {
    assert parts[..k + 1][..k] == parts[..k];
  }

  lemma FirstAndLastEnd(base: nat, parts: seq<seq<Byte>>)
    ensures Ends(base, parts)[0] == base && Ends(base, parts)[|parts|] == base + |Flatten(parts)|
  {
    assert parts[..0] == [] && parts[..|parts|] == parts;
  }

  /** Where a part stands, as a number that hides how it is summed up. */
  lemma PartPlace(base: nat, parts: seq<seq<Byte>>, whole: seq<Byte>, k: nat) returns (at: nat)
    requires k < |parts| && whole == Flatten(parts)
    ensures End(base, parts, k) == base + at && Holds(whole, at, parts[k])
  {
    PartStands(parts, k);
    at := |Flatten(parts[..k])|;
  }

  lemma PartStandsIn(a: seq<Byte>, parts: seq<seq<Byte>>, whole: seq<Byte>, c: seq<Byte>, k: nat)
    requires k < |parts| && whole == Flatten(parts)
    ensures Holds(a + whole + c, End(|a|, parts, k), parts[k])
  {
    var at := PartPlace(|a|, parts, whole, k);
    MiddleHolds(a, whole, c, at, parts[k]);
  }

  lemma FirstPartStandsIn(parts: seq<seq<Byte>>, whole: seq<Byte>, c: seq<Byte>, k: nat)
    requires k < |parts| && whole == Flatten(parts)
    ensures Holds(whole + c, End(0, parts, k), parts[k])
  {
    var at := PartPlace(0, parts, whole, k);
    PrefixHolds(whole, c, at, parts[k]);
  }

  // The writer's parts

  lemma {:induction false} LocalAt(es: seq<Entry>, k: nat)
    requires EntriesFit(es) && k < |es|
    ensures Locals(es)[k] == LocalPart(es[k])
    decreases |es|
  {
    if k < |es| - 1 {
      LocalAt(es[..|es| - 1], k);
    }
  }

  lemma {:induction false} ListedAt(es: seq<Entry>, k: nat)
    requires EntriesFit(es) && Fits32(Offset(es)) && k < |es|
    ensures Offset(es[..k]) <= Offset(es)
    ensures Directory(es)[k] == CentralPart(es[k], Offset(es[..k]))
    decreases |es|
  {
    if k < |es| - 1 {
      ListedAt(es[..|es| - 1], k);
      assert es[..|es| - 1][..k] == es[..k];
    }
  }

  lemma {:induction false} OffsetIsPlace(es: seq<Entry>)
    requires EntriesFit(es) && TrueLengths(es)
    ensures Offset(es) == |Flatten(Locals(es))|
  {
    if es != [] {
      OffsetIsPlace(es[..|es| - 1]);
      assert Locals(es)[..|es| - 1] == Locals(es[..|es| - 1]);
    }
  }

  lemma {:induction false} LocalsOfPrefix(es: seq<Entry>, k: nat)
    requires EntriesFit(es) && k <= |es|
    ensures Locals(es)[..k] == Locals(es[..k])
    decreases |es|
  {
    if k == |es| {
      assert es[..k] == es;
    } else {
      LocalsOfPrefix(es[..|es| - 1], k);
      assert es[..|es| - 1][..k] == es[..k];
    }
  }

  lemma {:induction false} DirectorySizeIsItsLength(es: seq<Entry>)
    requires EntriesFit(es) && Fits32(Offset(es))
    ensures |Flatten(Directory(es))| == DirectorySize(es)
  {
    if es != [] {
      DirectorySizeIsItsLength(es[..|es| - 1]);
      assert Directory(es)[..|es| - 1] == Directory(es[..|es| - 1]);
    }
  }

  function Sizes(es: seq<Entry>): seq<int> {
    seq(|es|, k requires 0 <= k < |es| => es[k].byteLength)
  }

  function Offsets(es: seq<Entry>): (offsets: seq<nat>)
    requires EntriesFit(es)
  {
    seq(|es| + 1, k requires 0 <= k <= |es| => Offset(es[..k]))
  }

  lemma OffsetsArePlaces(es: seq<Entry>)
    requires EntriesFit(es) && TrueLengths(es)
    ensures Offsets(es) == Ends(0, Locals(es))
  {
    forall k | 0 <= k <= |es|
      ensures Offsets(es)[k] == Ends(0, Locals(es))[k]
    {
      OffsetIsEnd(es, k);
    }
  }

  lemma OffsetIsEnd(es: seq<Entry>, k: nat)
    requires EntriesFit(es) && TrueLengths(es) && k <= |es|
    ensures Offset(es[..k]) == End(0, Locals(es), k)
  {
    OffsetIsPlace(es[..k]);
    LocalsOfPrefix(es, k);
  }

  lemma ReadsListedPart(s: seq<Byte>, at: nat, part: seq<Byte>, e: Entry, offset: nat, next: nat)
    requires EntryFits(e) && Fits32(offset) && part == CentralPart(e, offset)
    requires Holds(s, at, part) && next == at + |part|
    ensures ReadListed(s, at) == Some(Listed(e.name, e.crc, e.byteLength, offset, next))
  {
    ReadsListed(s, at, e, offset);
  }

  lemma ReadsLocalPart(s: seq<Byte>, at: nat, part: seq<Byte>, e: Entry, next: nat)
    requires EntryFits(e) && e.byteLength == |e.content| && part == LocalPart(e)
    requires Holds(s, at, part) && next == at + |part|
    ensures ReadLocal(s, at) == Some(Located(MemberOf(e), next))
  {
    ReadsLocal(s, at, e);
  }

  lemma WrittenListed(es: seq<Entry>, a: seq<Byte>, d: seq<Byte>, c: seq<Byte>, s: seq<Byte>, k: nat)
    requires EntriesFit(es) && Fits32(Offset(es)) && k < |es| && d == Flatten(Directory(es)) && s == a + d + c
    ensures ReadListed(s, End(|a|, Directory(es), k))
         == Some(Listed(es[k].name, es[k].crc, es[k].byteLength, Offset(es[..k]), End(|a|, Directory(es), k + 1)))
  {
    PartStandsIn(a, Directory(es), d, c, k);
    NextEnd(|a|, Directory(es), k);
    ListedAt(es, k);
    ReadsListedPart(s, End(|a|, Directory(es), k), Directory(es)[k], es[k], Offset(es[..k]),
                    End(|a|, Directory(es), k + 1));
  }

  lemma WrittenLocal(es: seq<Entry>, a: seq<Byte>, c: seq<Byte>, s: seq<Byte>, k: nat)
    requires EntriesFit(es) && TrueLengths(es) && k < |es| && a == Flatten(Locals(es)) && s == a + c
    ensures ReadLocal(s, End(0, Locals(es), k)) == Some(Located(MemberOf(es[k]), End(0, Locals(es), k + 1)))
  {
    FirstPartStandsIn(Locals(es), a, c, k);
    NextEnd(0, Locals(es), k);
    LocalAt(es, k);
    ReadsLocalPart(s, End(0, Locals(es), k), Locals(es)[k], es[k], End(0, Locals(es), k + 1));
  }

  /** Behind the local parts no local header follows. */
  lemma WrittenStops(es: seq<Entry>, a: seq<Byte>, d: seq<Byte>, c: seq<Byte>)
    requires EntriesFit(es) && Fits32(Offset(es)) && |c| < LOCAL_SIZE && d == Flatten(Directory(es))
    ensures ReadLocal(a + d + c, |a|).None?
  {
    if es != [] {
      PartStandsIn(a, Directory(es), d, c, 0);
      assert Directory(es)[..0] == [];
      ListedAt(es, 0);
      StartsWithCentral(a + d + c, |a|, es[0], Offset(es[..0]));
    }
  }

  lemma StartsWithCentral(s: seq<Byte>, at: nat, e: Entry, offset: int)
    requires EntryFits(e) && Fits32(offset) && Holds(s, at, CentralPart(e, offset))
    ensures ReadLocal(s, at).None?
  {
    var h := CentralHeader(e, offset);
    HoldsParts(s, at, h, e.name);
    CentralHeaderFields(e, offset);
    Reads32(s, at, h, 0, CENTRAL_DIRECTORY_HEADER);
  }

  lemma WrittenEnds(s: seq<Byte>, a: seq<Byte>, count: int, size: int, offset: int)
    requires Fits16(count) && Fits32(size) && Fits32(offset) && s == a + EndRecord(count, size, offset)
    ensures ReadZip(s) == if offset + size == |a| then ReadDirectory(ListedIn(s), LocalIn(s), offset, |a|, count) else None
  {
    var end := EndRecord(count, size, offset);
    MiddleHolds(a, end, [], 0, end);
    assert a + end + [] == s;
    ReadsEnd(s, count, size, offset);
  }

  lemma WrittenLists(es: seq<Entry>, a: seq<Byte>, d: seq<Byte>, c: seq<Byte>, s: seq<Byte>)
    requires EntriesFit(es) && Fits32(Offset(es)) && d == Flatten(Directory(es)) && s == a + d + c
    ensures Lists(ListedIn(s), Members(es), Sizes(es), Offsets(es), Ends(|a|, Directory(es)))
  {
    forall k | 0 <= k < |es|
      ensures ReadListed(s, End(|a|, Directory(es), k))
           == Some(Listed(es[k].name, es[k].crc, es[k].byteLength, Offset(es[..k]), End(|a|, Directory(es), k + 1)))
    {
      WrittenListed(es, a, d, c, s, k);
    }
  }

  lemma WrittenStored(es: seq<Entry>, a: seq<Byte>, c: seq<Byte>, s: seq<Byte>)
    requires EntriesFit(es) && TrueLengths(es) && a == Flatten(Locals(es)) && s == a + c
    ensures Stored(LocalIn(s), Members(es), Ends(0, Locals(es)))
  {
    forall k | 0 <= k < |es|
      ensures ReadLocal(s, End(0, Locals(es), k)) == Some(Located(MemberOf(es[k]), End(0, Locals(es), k + 1)))
    {
      WrittenLocal(es, a, c, s, k);
    }
  }

  lemma TrueOffsets(es: seq<Entry>, a: seq<Byte>, c: seq<Byte>, s: seq<Byte>)
    requires EntriesFit(es) && TrueLengths(es) && a == Flatten(Locals(es)) && s == a + c
    ensures Stored(LocalIn(s), Members(es), Offsets(es))
    ensures Offsets(es) == Ends(0, Locals(es)) && Offset(es) == |a| && Offsets(es)[0] == 0
  {
    WrittenStored(es, a, c, s);
    OffsetsArePlaces(es);
    OffsetIsPlace(es);
    FirstAndLastEnd(0, Locals(es));
  }

  lemma TrueSizes(es: seq<Entry>)
    ensures TrueLengths(es) <==> SameSizes(Members(es), Sizes(es))
  {
    forall k | 0 <= k < |es|
      ensures Sizes(es)[k] == es[k].byteLength && Members(es)[k].content == es[k].content
    {
    }
  }

  /** What the reader meets in an archive of three pieces. */
  lemma PieceFacts(es: seq<Entry>, a: seq<Byte>, d: seq<Byte>, c: seq<Byte>, s: seq<Byte>)
    returns (sizes: seq<int>, offsets: seq<nat>, rows: seq<nat>)
    requires EntriesFit(es) && Fits32(Offset(es)) && a == Flatten(Locals(es)) && d == Flatten(Directory(es))
    requires s == a + d + c
    ensures Lists(ListedIn(s), Members(es), sizes, offsets, rows)
    ensures offsets[|es|] == Offset(es) && rows[0] == |a| && rows[|es|] == |a| + |d|
    ensures TrueLengths(es) <==> SameSizes(Members(es), sizes)
    ensures TrueLengths(es) ==> Stored(LocalIn(s), Members(es), offsets) && Offset(es) == |a|
  {
    sizes, offsets, rows := Sizes(es), Offsets(es), Ends(|a|, Directory(es));
    WrittenLists(es, a, d, c, s);
    FirstAndLastEnd(|a|, Directory(es));
    assert es[..|es|] == es;
    Reassociate(a, d, c);
    if TrueLengths(es) {
      TrueOffsets(es, a, d + c, s);
    }
    TrueSizes(es);
  }

  /**
   * The round trip: a reader that starts from the last 22 bytes recovers exactly the names, contents
   * and checksums, in order, precisely when every stated length is the length of its content.
   */
  lemma RoundTrip(es: seq<Entry>)
    requires Writable(es)
    ensures ReadZip(Archive(es)) == Some(Members(es)) <==> TrueLengths(es)
  {
    var a, d, c := Flatten(Locals(es)), Flatten(Directory(es)), EndRecord(|es|, DirectorySize(es), Offset(es));
    var s := a + d + c;
    DirectorySizeIsItsLength(es);
    WrittenEnds(s, a + d, |es|, DirectorySize(es), Offset(es));
    var sizes, offsets, rows := PieceFacts(es, a, d, c, s);
    DirectoryRoundTrip(ListedIn(s), LocalIn(s), Members(es), sizes, offsets, rows, |a|, |a + d|, |es|);
  }

  /** A forward walk over the local headers finds the same members, without the directory. */
  lemma ForwardWalk(es: seq<Entry>)
    requires Writable(es) && TrueLengths(es)
    ensures WalkForward(Archive(es), 0) == Members(es)
  {
    var a, d, c := Flatten(Locals(es)), Flatten(Directory(es)), EndRecord(|es|, DirectorySize(es), Offset(es));
    Reassociate(a, d, c);
    TrueOffsets(es, a, d + c, a + d + c);
    FirstAndLastEnd(0, Locals(es));
    WrittenStops(es, a, d, c);
    WalksForward(a + d + c, Members(es), Offsets(es), 0);
    assert Members(es)[0..] == Members(es);
  }

  lemma LandsIn(es: seq<Entry>, a: seq<Byte>, d: seq<Byte>, c: seq<Byte>, s: seq<Byte>, k: nat)
    requires EntriesFit(es) && Fits32(Offset(es)) && TrueLengths(es) && k < |es|
    requires a == Flatten(Locals(es)) && d == Flatten(Directory(es)) && s == a + d + c
    ensures var listed := ReadListed(s, End(|a|, Directory(es), k));
            && listed.Some? && Matches(listed.value, MemberOf(es[k]))
            && ReadLocal(s, listed.value.offset) == Some(Located(MemberOf(es[k]), End(0, Locals(es), k + 1)))
  {
    WrittenListed(es, a, d, c, s, k);
    Reassociate(a, d, c);
    WrittenLocal(es, a, d + c, s, k);
    OffsetIsEnd(es, k);
  }

  /** Each offset in the directory lands on its own local header. */
  lemma OffsetsLand(es: seq<Entry>, k: nat)
    requires Writable(es) && TrueLengths(es) && k < |es|
    ensures var listed := ReadListed(Archive(es), End(|Flatten(Locals(es))|, Directory(es), k));
            && listed.Some?
            && ReadLocal(Archive(es), listed.value.offset) == Some(Located(MemberOf(es[k]), End(0, Locals(es), k + 1)))
            && Matches(listed.value, MemberOf(es[k]))
  {
    var a, d, c := Flatten(Locals(es)), Flatten(Directory(es)), EndRecord(|es|, DirectorySize(es), Offset(es));
    LandsIn(es, a, d, c, a + d + c, k);
  }

  /** Different file lists give different archives. */
  lemma ArchiveIsInjective(es: seq<Entry>, fs: seq<Entry>)
    requires Writable(es) && Writable(fs) && TrueLengths(es) && TrueLengths(fs)
    requires Archive(es) == Archive(fs)
    ensures es == fs
  {
    RoundTrip(es);
    RoundTrip(fs);
    SameMembers(es, fs);
  }

  lemma SameMembers(es: seq<Entry>, fs: seq<Entry>)
    requires Members(es) == Members(fs) && TrueLengths(es) && TrueLengths(fs)
    ensures es == fs
  {
    forall k | 0 <= k < |es|
      ensures es[k] == fs[k]
    {
      assert Members(es)[k] == Members(fs)[k];
    }
  }

  // The packaging limits

  const FILES: nat := 128
  const FILE_BYTES: nat := 1024 * 1024
  /** 240 UTF-16 code units are at most 720 bytes of UTF-8. */
  const PATH_BYTES: nat := 3 * 240

  predicate WithinLimits(es: seq<Entry>) {
    && |es| <= FILES
    && forall k | 0 <= k < |es| ::
         |es[k].name| <= PATH_BYTES && |es[k].content| <= FILE_BYTES && es[k].byteLength == |es[k].content|
         && Fits32(es[k].crc)
  }

  lemma {:induction false} SizesWithin(es: seq<Entry>)
    requires WithinLimits(es) && EntriesFit(es)
    ensures Offset(es) <= |es| * (LOCAL_SIZE + PATH_BYTES + FILE_BYTES)
    ensures DirectorySize(es) <= |es| * (CENTRAL_SIZE + PATH_BYTES)
  {
    if es != [] {
      SizesWithin(es[..|es| - 1]);
    }
  }

  /** The limits on files, paths and file sizes keep every field of the archive in range. */
  lemma LimitsKeepFieldsInRange(es: seq<Entry>)
    requires WithinLimits(es)
    ensures Writable(es) && ReadZip(Archive(es)) == Some(Members(es))
  {
    SizesWithin(es);
    RoundTrip(es);
  }
}
