/**
 * The store-only ZIP layout that `host-package-zip.ts` writes, and a reader of ZIP archives after
 * PKWARE's APPNOTE (sections 4.3.7, 4.3.12 and 4.3.16) that knows nothing of the writer.
 */
module ZipFormat {

  import opened Bytes

  const LOCAL_FILE_HEADER: int := 0x04034b50
  const CENTRAL_DIRECTORY_HEADER: int := 0x02014b50
  const END_OF_CENTRAL_DIRECTORY: int := 0x06054b50
  const UTF8_FLAG: int := 0x0800
  const ZIP_VERSION: int := 20
  /** `(3 << 8) | 20`. */
  const UNIX_ZIP_VERSION: int := 3 * 256 + 20
  const DOS_DATE_1980_01_01: int := 0x0021
  /** `(0o100644 << 16) >>> 0`. */
  const REGULAR_FILE_MODE: int := 0x81a4 * 0x1_0000

  const LOCAL_SIZE: nat := 30
  const CENTRAL_SIZE: nat := 46
  const END_SIZE: nat := 22

  // The reader

  datatype Option<+T> = Some(value: T) | None

  /** A file as the reader finds it. */
  datatype Member = Member(name: seq<Byte>, content: seq<Byte>, crc: int)

  /** A member at a local header, and where the next header would be. */
  datatype Located = Located(member: Member, next: nat)

  /** A directory entry, and where the next one would be. */
  datatype Listed = Listed(name: seq<Byte>, crc: int, size: int, offset: nat, next: nat)

  /** A stored (uncompressed) file with its local header at `at`. */
  function ReadLocal(s: seq<Byte>, at: nat): (r: Option<Located>)
    ensures r.Some? ==> at < r.value.next <= |s|
  {
    if at + LOCAL_SIZE > |s| || U32(s, at) != LOCAL_FILE_HEADER || U16(s, at + 8) != 0
       || U32(s, at + 18) != U32(s, at + 22) then None
    else
      var name := at + LOCAL_SIZE;
      var extra := name + U16(s, at + 26);
      var data := extra + U16(s, at + 28);
      var next := data + U32(s, at + 22);
      if next > |s| then None
      else Some(Located(Member(s[name..extra], s[data..next], U32(s, at + 14)), next))
  }

  function ReadListed(s: seq<Byte>, at: nat): (r: Option<Listed>)
    ensures r.Some? ==> at < r.value.next <= |s|
  {
    if at + CENTRAL_SIZE > |s| || U32(s, at) != CENTRAL_DIRECTORY_HEADER || U16(s, at + 10) != 0
       || U32(s, at + 20) != U32(s, at + 24) then None
    else
      var name := at + CENTRAL_SIZE;
      var extra := name + U16(s, at + 28);
      var next := extra + U16(s, at + 30) + U16(s, at + 32);
      if next > |s| then None
      else Some(Listed(s[name..extra], U32(s, at + 16), U32(s, at + 24), U32(s, at + 42), next))
  }

  /** The directory entry and the local header it points to must tell the same. */
  predicate Matches(listed: Listed, member: Member) {
    listed.name == member.name && listed.crc == member.crc && listed.size == |member.content|
  }

  /** `count` members, from the directory that fills `at..end`, given how to read at a place. */
  function ReadDirectory(listedAt: nat -> Option<Listed>, localAt: nat -> Option<Located>,
                         at: nat, end: nat, count: nat): (r: Option<seq<Member>>)
    ensures r.Some? ==> |r.value| == count
    decreases count
  {
    if count == 0 then if at == end then Some([]) else None
    else
      match listedAt(at)
      case None => None
      case Some(listed) =>
        match localAt(listed.offset)
        case None => None
        case Some(found) =>
          if !Matches(listed, found.member) then None
          else
            match ReadDirectory(listedAt, localAt, listed.next, end, count - 1)
            case None => None
            case Some(rest) => Some([found.member] + rest)
  }

  function ListedIn(s: seq<Byte>): nat -> Option<Listed> {
    (at: nat) => ReadListed(s, at)
  }

  function LocalIn(s: seq<Byte>): nat -> Option<Located> {
    (at: nat) => ReadLocal(s, at)
  }

  /** Reads an archive from its last 22 bytes: one disk, no comment, and nothing behind the directory. */
  function ReadZip(s: seq<Byte>): Option<seq<Member>> {
    if |s| < END_SIZE then None
    else
      var end := |s| - END_SIZE;
      var count := U16(s, end + 10);
      var size := U32(s, end + 12);
      var start := U32(s, end + 16);
      if U32(s, end) != END_OF_CENTRAL_DIRECTORY || U16(s, end + 4) != 0 || U16(s, end + 6) != 0
         || U16(s, end + 8) != count || U16(s, end + 20) != 0 || start + size != end then None
      else ReadDirectory(ListedIn(s), LocalIn(s), start, end, count)
  }

  /** Reads local headers one behind the other for as long as there are any, without the directory. */
  function WalkForward(s: seq<Byte>, at: nat): seq<Member>
    decreases |s| - at
  {
    match ReadLocal(s, at)
    case None => []
    case Some(found) => [found.member] + WalkForward(s, found.next)
  }

  // The layout

  /** A rendered file with its checksum; `byteLength` is what the caller says the content's length is. */
  datatype Entry = Entry(name: seq<Byte>, content: seq<Byte>, byteLength: int, crc: int)

  predicate EntryFits(e: Entry) {
    Fits16(|e.name|) && Fits32(e.byteLength) && Fits32(e.crc)
  }

  predicate EntriesFit(es: seq<Entry>) {
    forall k | 0 <= k < |es| :: EntryFits(es[k])
  }

  function LocalHeader(e: Entry): (h: seq<Byte>)
    requires EntryFits(e)
    ensures |h| == LOCAL_SIZE
  {
    Le32(LOCAL_FILE_HEADER) + Le16(ZIP_VERSION) + Le16(UTF8_FLAG) + Le16(0) + Le16(0) + Le16(DOS_DATE_1980_01_01)
    + Le32(e.crc) + Le32(e.byteLength) + Le32(e.byteLength) + Le16(|e.name|) + Le16(0)
  }

  function CentralHeader(e: Entry, offset: int): (h: seq<Byte>)
    requires EntryFits(e) && Fits32(offset)
    ensures |h| == CENTRAL_SIZE
  {
    Le32(CENTRAL_DIRECTORY_HEADER) + Le16(UNIX_ZIP_VERSION) + Le16(ZIP_VERSION) + Le16(UTF8_FLAG) + Le16(0) + Le16(0)
    + Le16(DOS_DATE_1980_01_01) + Le32(e.crc) + Le32(e.byteLength) + Le32(e.byteLength) + Le16(|e.name|) + Le16(0)
    + Le16(0) + Le16(0) + Le16(0) + Le32(REGULAR_FILE_MODE) + Le32(offset)
  }

  function EndRecord(count: int, size: int, offset: int): (h: seq<Byte>)
    requires Fits16(count) && Fits32(size) && Fits32(offset)
    ensures |h| == END_SIZE
  {
    Le32(END_OF_CENTRAL_DIRECTORY) + Le16(0) + Le16(0) + Le16(count) + Le16(count) + Le32(size) + Le32(offset) + Le16(0)
  }

  function LocalPart(e: Entry): seq<Byte>
    requires EntryFits(e)
  {
    LocalHeader(e) + e.name + e.content
  }

  function CentralPart(e: Entry, offset: int): seq<Byte>
    requires EntryFits(e) && Fits32(offset)
  {
    CentralHeader(e, offset) + e.name
  }

  /** Where the writer's running offset stands behind `es`: it counts the stated lengths. */
  function Offset(es: seq<Entry>): (offset: nat)
    requires EntriesFit(es)
  {
    if es == [] then 0
    else Offset(es[..|es| - 1]) + LOCAL_SIZE + |es[|es| - 1].name| + es[|es| - 1].byteLength
  }

  function DirectorySize(es: seq<Entry>): nat {
    if es == [] then 0 else DirectorySize(es[..|es| - 1]) + CENTRAL_SIZE + |es[|es| - 1].name|
  }

  /** `Buffer.concat`. */
  function Flatten(parts: seq<seq<Byte>>): seq<Byte> {
    if parts == [] then [] else Flatten(parts[..|parts| - 1]) + parts[|parts| - 1]
  }

  function Locals(es: seq<Entry>): (parts: seq<seq<Byte>>)
    requires EntriesFit(es)
    ensures |parts| == |es|
  {
    if es == [] then [] else Locals(es[..|es| - 1]) + [LocalPart(es[|es| - 1])]
  }

  /** The offsets that stand in the directory fit. */
  predicate OffsetsFit(es: seq<Entry>)
    requires EntriesFit(es)
  {
    es == [] || Fits32(Offset(es[..|es| - 1]))
  }

  function Directory(es: seq<Entry>): (parts: seq<seq<Byte>>)
    requires EntriesFit(es) && OffsetsFit(es)
    ensures |parts| == |es|
  {
    if es == [] then []
    else Directory(es[..|es| - 1]) + [CentralPart(es[|es| - 1], Offset(es[..|es| - 1]))]
  }

  /** Every number fits its field. */
  predicate Writable(es: seq<Entry>) {
    Fits16(|es|) && EntriesFit(es) && Fits32(Offset(es)) && Fits32(DirectorySize(es))
  }

  function Archive(es: seq<Entry>): seq<Byte>
    requires Writable(es)
  {
    Flatten(Locals(es)) + Flatten(Directory(es)) + EndRecord(|es|, DirectorySize(es), Offset(es))
  }

  function MemberOf(e: Entry): Member {
    Member(e.name, e.content, e.crc)
  }

  function Members(es: seq<Entry>): (ms: seq<Member>)
    ensures |ms| == |es|
  {
    seq(|es|, k requires 0 <= k < |es| => MemberOf(es[k]))
  }

  /** The stated lengths are the lengths of the contents. */
  predicate TrueLengths(es: seq<Entry>) {
    forall k | 0 <= k < |es| :: es[k].byteLength == |es[k].content|
  }
}
