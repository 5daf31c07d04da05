/** The bytes of the three ZIP records, as PKWARE's APPNOTE (sections 4.3.7, 4.3.12 and 4.3.16) lists their fields. */
module ZipBytes {

  import opened Bytes
  import opened ZipFormat

  /** `PK\3\4`, version 2.0, names in UTF-8, stored, midnight of January 1st, 1980. */
  lemma LocalHeaderBytes(e: Entry)
    requires EntryFits(e)
    ensures LocalHeader(e)
         == [0x50, 0x4b, 3, 4] + [20, 0] + [0, 8] + [0, 0] + [0, 0] + [0x21, 0]
            + Le32(e.crc) + Le32(e.byteLength) + Le32(e.byteLength) + Le16(|e.name|) + [0, 0]
  {
    assert Le32(LOCAL_FILE_HEADER) == [0x50, 0x4b, 3, 4];
    SmallNumbers();
  }

  lemma SmallNumbers()
    ensures Le16(0) == [0, 0] && Le16(ZIP_VERSION) == [20, 0] && Le16(UTF8_FLAG) == [0, 8]
    ensures Le16(UNIX_ZIP_VERSION) == [20, 3] && Le16(DOS_DATE_1980_01_01) == [0x21, 0]
  {
  }

  /** `PK\1\2`, made by version 2.0 on Unix, otherwise as above; a regular file that its owner may write. */
  lemma CentralHeaderBytes(e: Entry, offset: int)
    requires EntryFits(e) && Fits32(offset)
    ensures CentralHeader(e, offset)
         == [0x50, 0x4b, 1, 2] + [20, 3] + [20, 0] + [0, 8] + [0, 0] + [0, 0] + [0x21, 0]
            + Le32(e.crc) + Le32(e.byteLength) + Le32(e.byteLength) + Le16(|e.name|) + [0, 0]
            + [0, 0] + [0, 0] + [0, 0] + [0, 0, 0xa4, 0x81] + Le32(offset)
  {
    assert Le32(CENTRAL_DIRECTORY_HEADER) == [0x50, 0x4b, 1, 2];
    assert Le32(REGULAR_FILE_MODE) == [0, 0, 0xa4, 0x81];
    SmallNumbers();
  }

  /** `PK\5\6`, one disk, and no comment. */
  lemma EndRecordBytes(count: int, size: int, offset: int)
    requires Fits16(count) && Fits32(size) && Fits32(offset)
    ensures EndRecord(count, size, offset)
         == [0x50, 0x4b, 5, 6] + [0, 0] + [0, 0] + Le16(count) + Le16(count) + Le32(size) + Le32(offset) + [0, 0]
  {
    assert Le32(END_OF_CENTRAL_DIRECTORY) == [0x50, 0x4b, 5, 6];
    SmallNumbers();
  }
}
