/**
 The byte layout of the records the writer emits, and the fields found in them at the
 offsets where the reader looks.
 */
module ZipRecords {
  import opened Bytes
  import opened ZipFormat

  // Local file header (APPNOTE.TXT section 4.3.7) without its checks; the CRC and both
  // sizes are zero because a data descriptor follows the file.
  function LocalKind(h: FileHeader): bytes {
    Put32(FILE_HEADER_SIGNATURE) + Put16(h.readerVersion) + Put16(h.flags) + Put16(h.compression)
  }

  function LocalDates(h: FileHeader): bytes {
    LocalKind(h) + Put16(h.modifiedTime) + Put16(h.modifiedDate) + Put32(0) + Put32(0) + Put32(0)
  }

  function LocalFixed(h: FileHeader): (r: bytes)
    ensures |r| == FILE_HEADER_LEN
  {
    LocalDates(h) + Put16(Uint16(|h.name|)) + Put16(Uint16(|h.extra|))
  }

  function LocalHeader(h: FileHeader): bytes {
    LocalFixed(h) + h.name + h.extra
  }

  // Data descriptor (section 4.3.9): 8-byte sizes only for zip64 files.
  function Descriptor(h: FileHeader): (r: bytes)
    ensures |r| == if h.IsZip64() then DATA_DESCRIPTOR64_LEN else DATA_DESCRIPTOR_LEN
  {
    var start := Put32(DATA_DESCRIPTOR_SIGNATURE) + Put32(h.crc32);
    if h.IsZip64() then start + Put64(h.compressedSize64) + Put64(h.uncompressedSize64)
    else start + Put32(h.compressedSize) + Put32(h.uncompressedSize)
  }

  // The zip64 record of the extra field (section 4.5.3).
  function Zip64Extra(h: FileHeader, offset: uint64): (r: bytes)
    ensures |r| == 28
  {
    Put16(ZIP64_EXTRA_ID) + Put16(24) +
    Put64(h.uncompressedSize64) + Put64(h.compressedSize64) + Put64(offset)
  }

  predicate NeedsZip64(h: FileHeader, offset: uint64) {
    h.IsZip64() || offset >= UINT32_MAX
  }

  // The header as the central directory lists it.
  function Listed(h: FileHeader, offset: uint64): FileHeader {
    if NeedsZip64(h, offset) then h.(extra := h.extra + Zip64Extra(h, offset)) else h
  }

  // Central directory header (section 4.3.12).
  function CentralKind(h: FileHeader): bytes {
    Put32(DIRECTORY_HEADER_SIGNATURE) + Put16(h.creatorVersion) + Put16(h.readerVersion) +
    Put16(h.flags) + Put16(h.compression)
  }

  function CentralDates(h: FileHeader): bytes {
    CentralKind(h) + Put16(h.modifiedTime) + Put16(h.modifiedDate) + Put32(h.crc32)
  }

  function CentralSizes(h: FileHeader, offset: uint64): bytes {
    if NeedsZip64(h, offset) then CentralDates(h) + Put32(UINT32_MAX) + Put32(UINT32_MAX)
    else CentralDates(h) + Put32(h.compressedSize) + Put32(h.uncompressedSize)
  }

  function CentralLengths(h: FileHeader, offset: uint64): bytes {
    CentralSizes(h, offset) +
    Put16(Uint16(|h.name|)) + Put16(Uint16(|Listed(h, offset).extra|)) + Put16(Uint16(|h.comment|))
  }

  function CentralFixed(h: FileHeader, offset: uint64): (r: bytes)
    ensures |r| == DIRECTORY_HEADER_LEN
  {
    CentralLengths(h, offset) +
    Zeros(4) + Put32(h.externalAttrs) + Put32(if offset > UINT32_MAX then UINT32_MAX else offset)
  }

  function Central(h: FileHeader, offset: uint64): bytes {
    CentralFixed(h, offset) + h.name + Listed(h, offset).extra + h.comment
  }

  lemma CentralDatesFields(h: FileHeader)
    ensures
      var b := CentralDates(h);
      && |b| == 20
      && Get32(b, 0) == 0x02014b50
      && Get16(b, 4) == h.creatorVersion && Get16(b, 6) == h.readerVersion
      && Get16(b, 8) == h.flags && Get16(b, 10) == h.compression
      && Get16(b, 12) == h.modifiedTime && Get16(b, 14) == h.modifiedDate
      && Get32(b, 16) == h.crc32
  {
  }

  lemma CentralTailFields(a: bytes, csize: uint32, usize: uint32, name: uint16, extra: uint16, comment: uint16,
                          attrs: uint32, offset: uint32)
    requires |a| == 20
    ensures
      var b := a + Put32(csize) + Put32(usize) + Put16(name) + Put16(extra) + Put16(comment) +
               Zeros(4) + Put32(attrs) + Put32(offset);
      && a <= b
      && Get32(b, 20) == csize && Get32(b, 24) == usize
      && Get16(b, 28) == name && Get16(b, 30) == extra && Get16(b, 32) == comment && Get32(b, 34) == 0
      && Get32(b, 38) == attrs && Get32(b, 42) == offset
  {
  }

  // The fields of a central header, found where the reader looks for them.
  ghost predicate CentralSays(b: bytes, h: FileHeader, offset: uint64)
    requires |b| >= DIRECTORY_HEADER_LEN
  {
    var zip64 := NeedsZip64(h, offset);
    && Get32(b, 0) == 0x02014b50
    && Get16(b, 4) == h.creatorVersion && Get16(b, 6) == h.readerVersion
    && Get16(b, 8) == h.flags && Get16(b, 10) == h.compression
    && Get16(b, 12) == h.modifiedTime && Get16(b, 14) == h.modifiedDate
    && Get32(b, 16) == h.crc32
    && Get32(b, 20) == (if zip64 then UINT32_MAX else h.compressedSize)
    && Get32(b, 24) == (if zip64 then UINT32_MAX else h.uncompressedSize)
    && Get16(b, 28) == Uint16(|h.name|) && Get16(b, 30) == Uint16(|Listed(h, offset).extra|)
    && Get16(b, 32) == Uint16(|h.comment|) && Get32(b, 34) == 0
    && Get32(b, 38) == h.externalAttrs
    && Get32(b, 42) == if offset > UINT32_MAX then UINT32_MAX else offset
  }

  lemma CentralFields(h: FileHeader, offset: uint64)
    ensures CentralSays(CentralFixed(h, offset), h, offset)
  {
    hide CentralDates, Put16, Put32, Zeros;
    CentralDatesFields(h);
    var a, zip64 := CentralDates(h), NeedsZip64(h, offset);
    CentralTailFields(a, if zip64 then UINT32_MAX else h.compressedSize,
                      if zip64 then UINT32_MAX else h.uncompressedSize,
                      Uint16(|h.name|), Uint16(|Listed(h, offset).extra|), Uint16(|h.comment|),
                      h.externalAttrs, if offset > UINT32_MAX then UINT32_MAX else offset);
    var b := CentralFixed(h, offset);
    assert b == a + b[20..];
    GetPrefix(a, b[20..], 0);
    GetPrefix(a, b[20..], 4);
    GetPrefix(a, b[20..], 6);
    GetPrefix(a, b[20..], 8);
    GetPrefix(a, b[20..], 10);
    GetPrefix(a, b[20..], 12);
    GetPrefix(a, b[20..], 14);
    GetPrefix(a, b[20..], 16);
  }

  // Zip64 end of central directory record (section 4.3.14) and its locator (section 4.3.15).
  function Zip64EndStart(): bytes {
    Put32(DIRECTORY64_END_SIGNATURE) + Put64(DIRECTORY64_END_LEN - 12) +
    Put16(ZIP_VERSION_45) + Put16(ZIP_VERSION_45) + Put32(0) + Put32(0)
  }

  function Zip64End(records: uint64, size: uint64, offset: uint64): (r: bytes)
    ensures |r| == DIRECTORY64_END_LEN
  {
    Zip64EndStart() + Put64(records) + Put64(records) + Put64(size) + Put64(offset)
  }

  function Zip64Locator(end: uint64): (r: bytes)
    ensures |r| == DIRECTORY64_LOC_LEN
  {
    Put32(DIRECTORY64_LOC_SIGNATURE) + Put32(0) + Put64(end) + Put32(1)
  }

  // End of central directory record (section 4.3.16).
  function EndStart(records: uint16): bytes {
    Put32(DIRECTORY_END_SIGNATURE) + Zeros(4) + Put16(records) + Put16(records)
  }

  function EndFixed(records: uint16, size: uint32, offset: uint32, comment: bytes): (r: bytes)
    ensures |r| == DIRECTORY_END_LEN
  {
    EndStart(records) + Put32(size) + Put32(offset) + Put16(Uint16(|comment|))
  }

  predicate EndNeedsZip64(records: uint64, size: uint64, offset: uint64) {
    records >= UINT16_MAX || size >= UINT32_MAX || offset >= UINT32_MAX
  }

  // All that follows the central directory, which ends at position `end`.
  function Trailer(records: uint64, size: uint64, offset: uint64, end: uint64, comment: bytes): bytes {
    if EndNeedsZip64(records, size, offset) then
      Zip64End(records, size, offset) + Zip64Locator(end) +
      EndFixed(UINT16_MAX, UINT32_MAX, UINT32_MAX, comment) + comment
    else EndFixed(records, size, offset, comment) + comment
  }

  lemma Zip64EndFields(records: uint64, size: uint64, offset: uint64)
    ensures
      var b := Zip64End(records, size, offset);
      && Get32(b, 0) == 0x06064b50 && Get64(b, 4) == 44
      && Get16(b, 12) == Get16(b, 14) == 45 && Get32(b, 16) == Get32(b, 20) == 0
      && Get64(b, 24) == records && Get64(b, 32) == records && Get64(b, 40) == size && Get64(b, 48) == offset
  {
    var a := Zip64EndStart() + Put64(records);
    var b := Zip64End(records, size, offset);
    GetPut64(a, records, Put64(size) + Put64(offset));
    GetPut64(a + Put64(records), size, Put64(offset));
    GetPut64(a + Put64(records) + Put64(size), offset, []);
    assert b == a + Put64(records) + (Put64(size) + Put64(offset));
    assert b == a + Put64(records) + Put64(size) + Put64(offset) + [];
  }

  lemma Zip64LocatorFields(end: uint64)
    ensures
      var b := Zip64Locator(end);
      && Get32(b, 0) == 0x07064b50 && Get32(b, 4) == 0
      && Get64(b, 8) == end && Get32(b, 16) == 1
  {
    GetPut64(Put32(DIRECTORY64_LOC_SIGNATURE) + Put32(0), end, Put32(1));
  }

  lemma EndFields(records: uint16, size: uint32, offset: uint32, comment: bytes)
    ensures
      var b := EndFixed(records, size, offset, comment);
      && Get32(b, 0) == 0x06054b50 && Get32(b, 4) == 0
      && Get16(b, 8) == records && Get16(b, 10) == records && Get32(b, 12) == size && Get32(b, 16) == offset
      && Get16(b, 20) == Uint16(|comment|)
  {
  }

  lemma LocalFields(h: FileHeader)
    ensures
      var b := LocalFixed(h);
      && Get32(b, 0) == 0x04034b50
      && Get16(b, 4) == h.readerVersion && Get16(b, 6) == h.flags && Get16(b, 8) == h.compression
      && Get16(b, 10) == h.modifiedTime && Get16(b, 12) == h.modifiedDate
      && Get32(b, 14) == Get32(b, 18) == Get32(b, 22) == 0
      && Get16(b, 26) == Uint16(|h.name|) && Get16(b, 28) == Uint16(|h.extra|)
  {
  }

  // Behind the fixed part of a local header stands the name, and then the extra field.
  lemma LocalStrings(h: FileHeader)
    ensures var b := LocalHeader(h);
            && |b| == 30 + |h.name| + |h.extra|
            && b[..30] == LocalFixed(h) && b[30..30 + |h.name|] == h.name && b[30 + |h.name|..] == h.extra
  {
    hide LocalFixed;
  }

  lemma DescriptorFields(h: FileHeader)
    ensures
      var b := Descriptor(h);
      && Get32(b, 0) == 0x08074b50 && Get32(b, 4) == h.crc32
      && if h.IsZip64() then Get64(b, 8) == h.compressedSize64 && Get64(b, 16) == h.uncompressedSize64
         else Get32(b, 8) == h.compressedSize && Get32(b, 12) == h.uncompressedSize
  {
    var start := Put32(DATA_DESCRIPTOR_SIGNATURE) + Put32(h.crc32);
    if h.IsZip64() {
      GetPut64(start, h.compressedSize64, Put64(h.uncompressedSize64));
      GetPut64(start + Put64(h.compressedSize64), h.uncompressedSize64, []);
      assert Descriptor(h) == start + Put64(h.compressedSize64) + Put64(h.uncompressedSize64) + [];
    }
  }
}
