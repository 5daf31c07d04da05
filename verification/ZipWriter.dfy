/** `deterministicZip` of `host-package-zip.ts`, buffer by buffer. */
module ZipWriter {

  import opened Bytes
  import opened ZipFormat
  import Crc32

  /** What the writer uses of a rendered file: the path in UTF-8, the content, and its stated length. */
  datatype File = File(name: seq<Byte>, content: seq<Byte>, byteLength: int)

  function EntryOf(f: File): Entry {
    Entry(f.name, f.content, f.byteLength, Crc32.Checksum(f.content))
  }

  function Entries(files: seq<File>): (es: seq<Entry>)
    ensures |es| == |files|
  {
    seq(|files|, k requires 0 <= k < |files| => EntryOf(files[k]))
  }

  /** What the first loop keeps of a file for the directory. */
  datatype CentralEntry = CentralEntry(name: seq<Byte>, crc32: int, byteLength: int, localOffset: int)

  predicate IsCentralEntry(c: CentralEntry, e: Entry, offset: int) {
    c == CentralEntry(e.name, e.crc, e.byteLength, offset)
  }

  // The three records, field by field

  /** The first 14 bytes of a local header, the same for every file. */
  function LocalStart(): (h: seq<Byte>)
    ensures |h| == 14
  {
    Le32(LOCAL_FILE_HEADER) + Le16(ZIP_VERSION) + Le16(UTF8_FLAG) + Le16(0) + Le16(0) + Le16(DOS_DATE_1980_01_01)
  }

  method WriteLocalStart(header: array<Byte>)
    requires header.Length == 30
    modifies header
    ensures header[..14] == LocalStart()
  {
    WriteUInt32LE(header, LOCAL_FILE_HEADER, 0);
    WriteUInt16LE(header, ZIP_VERSION, 4);
    WriteUInt16LE(header, UTF8_FLAG, 6);
    WriteUInt16LE(header, 0, 8);
    WriteUInt16LE(header, 0, 10);
    WriteUInt16LE(header, DOS_DATE_1980_01_01, 12);
  }

  method LocalFileHeader(e: Entry) returns (r: Result<seq<Byte>>)
    ensures r.Ok? <==> EntryFits(e)
    ensures r.Ok? ==> r.value == LocalHeader(e)
  {
    var header := new Byte[30](_ => 0);
    WriteLocalStart(header);
    :- TryWriteUInt32LE(header, e.crc, 14);
    :- TryWriteUInt32LE(header, e.byteLength, 18);
    WriteUInt32LE(header, e.byteLength, 22);
    :- TryWriteUInt16LE(header, |e.name|, 26);
    WriteUInt16LE(header, 0, 28);
    assert header[..30] == header[..];
    return Ok(header[..]);
  }

  /** The first 16 bytes of a central header, the same for every file. */
  function CentralStart(): (h: seq<Byte>)
    ensures |h| == 16
  {
    Le32(CENTRAL_DIRECTORY_HEADER) + Le16(UNIX_ZIP_VERSION) + Le16(ZIP_VERSION) + Le16(UTF8_FLAG) + Le16(0) + Le16(0)
    + Le16(DOS_DATE_1980_01_01)
  }

  method WriteCentralStart(header: array<Byte>)
    requires header.Length == 46
    modifies header
    ensures header[..16] == CentralStart()
  {
    WriteUInt32LE(header, CENTRAL_DIRECTORY_HEADER, 0);
    WriteUInt16LE(header, UNIX_ZIP_VERSION, 4);
    WriteUInt16LE(header, ZIP_VERSION, 6);
    WriteUInt16LE(header, UTF8_FLAG, 8);
    WriteUInt16LE(header, 0, 10);
    WriteUInt16LE(header, 0, 12);
    WriteUInt16LE(header, DOS_DATE_1980_01_01, 14);
  }

  method CentralFileHeader(entry: CentralEntry, ghost e: Entry) returns (r: Result<seq<Byte>>)
    requires EntryFits(e) && IsCentralEntry(entry, e, entry.localOffset)
    ensures r.Ok? <==> Fits32(entry.localOffset)
    ensures r.Ok? ==> r.value == CentralHeader(e, entry.localOffset)
  {
    var header := new Byte[46](_ => 0);
    WriteCentralStart(header);
    WriteUInt32LE(header, entry.crc32, 16);
    WriteUInt32LE(header, entry.byteLength, 20);
    WriteUInt32LE(header, entry.byteLength, 24);
    WriteUInt16LE(header, |entry.name|, 28);
    WriteUInt16LE(header, 0, 30);
    WriteUInt16LE(header, 0, 32);
    WriteUInt16LE(header, 0, 34);
    WriteUInt16LE(header, 0, 36);
    WriteUInt32LE(header, REGULAR_FILE_MODE, 38);
    :- TryWriteUInt32LE(header, entry.localOffset, 42);
    assert header[..46] == header[..];
    return Ok(header[..]);
  }

  method EndOfCentralDirectory(count: int, centralSize: int, localOffset: int) returns (r: Result<seq<Byte>>)
    ensures r.Ok? <==> Fits16(count) && Fits32(centralSize) && Fits32(localOffset)
    ensures r.Ok? ==> r.value == EndRecord(count, centralSize, localOffset)
  {
    var end := new Byte[22](_ => 0);
    WriteUInt32LE(end, END_OF_CENTRAL_DIRECTORY, 0);
    WriteUInt16LE(end, 0, 4);
    WriteUInt16LE(end, 0, 6);
    :- TryWriteUInt16LE(end, count, 8);
    WriteUInt16LE(end, count, 10);
    :- TryWriteUInt32LE(end, centralSize, 12);
    :- TryWriteUInt32LE(end, localOffset, 16);
    WriteUInt16LE(end, 0, 20);
    assert end[..22] == end[..];
    return Ok(end[..]);
  }

  // The loops

  lemma {:induction false} FlattenAppend(left: seq<seq<Byte>>, right: seq<seq<Byte>>)
    ensures Flatten(left + right) == Flatten(left) + Flatten(right)
    decreases |right|
  {
    if right == [] {
      assert left + right == left;
    } else {
      var last := |right| - 1;
      FlattenAppend(left, right[..last]);
      assert (left + right)[..|left| + last] == left + right[..last];
    }
  }

  lemma FlattenTwo(parts: seq<seq<Byte>>, a: seq<Byte>, b: seq<Byte>)
    ensures Flatten(parts + [a, b]) == Flatten(parts) + a + b
  {
    assert (parts + [a, b])[..|parts| + 1] == parts + [a];
    assert (parts + [a])[..|parts|] == parts;
  }

  lemma FlattenThree(parts: seq<seq<Byte>>, a: seq<Byte>, b: seq<Byte>, c: seq<Byte>)
    ensures Flatten(parts + [a, b, c]) == Flatten(parts) + (a + b + c)
  {
    FlattenTwo(parts, a, b);
    assert (parts + [a, b, c])[..|parts| + 2] == parts + [a, b];
  }

  /** The first loop has written the parts of the first `k` files. */
  ghost predicate LocalsWritten(es: seq<Entry>, k: nat, localParts: seq<seq<Byte>>, localOffset: int) {
    && k <= |es| && EntriesFit(es[..k])
    && Flatten(localParts) == Flatten(Locals(es[..k]))
    && localOffset == Offset(es[..k])
  }

  /** And it has kept what the directory needs of them. */
  ghost predicate CentralKept(es: seq<Entry>, k: nat, centralEntries: seq<CentralEntry>) {
    && k <= |es| && EntriesFit(es[..k]) && |centralEntries| == k
    && forall j | 0 <= j < k :: IsCentralEntry(centralEntries[j], es[j], Offset(es[..j]))
  }

  lemma OneLocalMore(before: seq<Entry>, up: seq<Entry>, e: Entry, part: seq<Byte>)
    requires EntriesFit(before) && EntryFits(e) && up == before + [e] && part == LocalPart(e)
    ensures EntriesFit(up) && Flatten(Locals(up)) == Flatten(Locals(before)) + part
    ensures Offset(up) == Offset(before) + LOCAL_SIZE + |e.name| + e.byteLength
  {
    assert up[..|up| - 1] == before;
    assert Locals(up)[..|before|] == Locals(before);
  }

  lemma LocalsStep(es: seq<Entry>, k: nat, localParts: seq<seq<Byte>>, localOffset: int, header: seq<Byte>)
    requires LocalsWritten(es, k, localParts, localOffset) && k < |es|
    requires EntryFits(es[k]) && header == LocalHeader(es[k])
    ensures LocalsWritten(es, k + 1, localParts + [header, es[k].name, es[k].content],
                          localOffset + |header| + |es[k].name| + es[k].byteLength)
  {
    FlattenThree(localParts, header, es[k].name, es[k].content);
    assert es[..k + 1] == es[..k] + [es[k]];
    OneLocalMore(es[..k], es[..k + 1], es[k], header + es[k].name + es[k].content);
  }

  lemma CentralStep(es: seq<Entry>, k: nat, centralEntries: seq<CentralEntry>, c: CentralEntry)
    requires CentralKept(es, k, centralEntries) && k < |es| && EntriesFit(es[..k + 1])
    requires IsCentralEntry(c, es[k], Offset(es[..k]))
    ensures CentralKept(es, k + 1, centralEntries + [c])
  {
  }

  method WriteLocals(table: array<bv32>, files: seq<File>, ghost es: seq<Entry>)
    returns (r: Result<(seq<seq<Byte>>, seq<CentralEntry>, int)>)
    requires Crc32.IsTable(table[..]) && es == Entries(files)
    ensures r.Ok? <==> EntriesFit(es)
    ensures r.Ok? ==> LocalsWritten(es, |es|, r.value.0, r.value.2) && CentralKept(es, |es|, r.value.1)
  {
    var localParts, centralEntries, localOffset := [], [], 0;
    for k := 0 to |files|
      invariant LocalsWritten(es, k, localParts, localOffset) && CentralKept(es, k, centralEntries)
    {
      var file := files[k];
      var checksum := Crc32.Crc32(table, file.content);
      var e := Entry(file.name, file.content, file.byteLength, checksum as int);
      assert e == es[k];
      var header :- LocalFileHeader(e);
      LocalsStep(es, k, localParts, localOffset, header);
      CentralStep(es, k, centralEntries, CentralEntry(file.name, e.crc, file.byteLength, localOffset));
      localParts := localParts + [header, file.name, file.content];
      centralEntries := centralEntries + [CentralEntry(file.name, e.crc, file.byteLength, localOffset)];
      localOffset := localOffset + |header| + |file.name| + file.byteLength;
    }
    assert es[..|es|] == es;
    return Ok((localParts, centralEntries, localOffset));
  }

  /** The state of the second loop after `k` entries. */
  ghost predicate DirectoryDone(es: seq<Entry>, k: nat, centralParts: seq<seq<Byte>>, centralSize: int) {
    && k <= |es| && EntriesFit(es) && OffsetsFit(es[..k])
    && Flatten(centralParts) == Flatten(Directory(es[..k]))
    && centralSize == DirectorySize(es[..k])
  }

  lemma DirectoryStep(es: seq<Entry>, k: nat, centralParts: seq<seq<Byte>>, centralSize: int, header: seq<Byte>)
    requires DirectoryDone(es, k, centralParts, centralSize) && k < |es|
    requires Fits32(Offset(es[..k])) && header == CentralHeader(es[k], Offset(es[..k]))
    ensures DirectoryDone(es, k + 1, centralParts + [header, es[k].name], centralSize + |header| + |es[k].name|)
  {
    var before, up := es[..k], es[..k + 1];
    assert up[..k] == before && up[k] == es[k];
    FlattenTwo(centralParts, header, es[k].name);
    assert Directory(up)[..k] == Directory(before);
  }

  lemma {:induction false} OffsetsGrow(es: seq<Entry>, k: nat)
    requires EntriesFit(es) && k <= |es|
    ensures Offset(es[..k]) <= Offset(es)
    decreases |es|
  {
    if k == |es| {
      assert es[..k] == es;
    } else {
      OffsetsGrow(es[..|es| - 1], k);
      assert es[..|es| - 1][..k] == es[..k];
    }
  }

  method WriteDirectory(centralEntries: seq<CentralEntry>, ghost es: seq<Entry>)
    returns (r: Result<(seq<seq<Byte>>, int)>)
    requires EntriesFit(es) && |centralEntries| == |es|
    requires forall j | 0 <= j < |es| :: IsCentralEntry(centralEntries[j], es[j], Offset(es[..j]))
    ensures r.Ok? ==> DirectoryDone(es, |es|, r.value.0, r.value.1)
    ensures r.RangeError? ==> !Fits32(Offset(es))
  {
    var centralParts, centralSize := [], 0;
    for k := 0 to |centralEntries|
      invariant DirectoryDone(es, k, centralParts, centralSize)
    {
      var entry := centralEntries[k];
      OffsetsGrow(es, k);
      var header :- CentralFileHeader(entry, es[k]);
      DirectoryStep(es, k, centralParts, centralSize, header);
      centralParts := centralParts + [header, entry.name];
      centralSize := centralSize + |header| + |entry.name|;
    }
    return Ok((centralParts, centralSize));
  }

  lemma Assembled(es: seq<Entry>, localParts: seq<seq<Byte>>, centralParts: seq<seq<Byte>>, end: seq<Byte>)
    requires Writable(es) && end == EndRecord(|es|, DirectorySize(es), Offset(es))
    requires Flatten(localParts) == Flatten(Locals(es)) && Flatten(centralParts) == Flatten(Directory(es))
    ensures Flatten(localParts + centralParts + [end]) == Archive(es)
  {
    FlattenAppend(localParts, centralParts);
    FlattenAppend(localParts + centralParts, [end]);
  }

  /**
   * `deterministicZip`: writes an archive precisely when every count, length and offset fits its
   * field, and then the archive of `ZipFormat`, which `ZipRoundTrip` reads back.
   */
  method DeterministicZip(table: array<bv32>, files: seq<File>) returns (r: Result<seq<Byte>>)
    requires Crc32.IsTable(table[..])
    ensures r.Ok? <==> Writable(Entries(files))
    ensures r.Ok? ==> r.value == Archive(Entries(files))
  {
    ghost var es := Entries(files);
    var locals :- WriteLocals(table, files, es);
    var (localParts, centralEntries, localOffset) := locals;
    assert es[..|es|] == es;
    var directory :- WriteDirectory(centralEntries, es);
    var (centralParts, centralSize) := directory;
    var end :- EndOfCentralDirectory(|files|, centralSize, localOffset);
    Assembled(es, localParts, centralParts, end);
    return Ok(Flatten(localParts + centralParts + [end]));
  }
}
