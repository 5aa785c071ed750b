/**
 What the archive reader (pkg/util/zip/reader.go) computes from the bytes of a file, as
 functions. The methods in Reader.dfy are proved to compute exactly these.
 */
module ReaderModel {
  import opened Bytes
  import opened Wrappers
  import opened Clock
  import opened ZipFormat
  import opened Codecs
  import Crc
  import Utf8

  datatype File = File(header: FileHeader, headerOffset: int)

  datatype Archive = Archive(files: seq<File>, comment: bytes)

  // ---- extra fields ----

  // What the walk over the extra field of one header has found so far.
  datatype Extras = Extras(
    uncompressedSize64: uint64, compressedSize64: uint64, headerOffset: int,
    needUSize: bool, needCSize: bool, needHeaderOffset: bool, modified: Time)

  function TakeUSize(x: Extras, field: bytes): Result<(Extras, bytes), Error> {
    if !x.needUSize then Ok((x, field))
    else if |field| < 8 then Err(ErrFormat)
    else Ok((x.(needUSize := false, uncompressedSize64 := Get64(field, 0)), field[8..]))
  }

  function TakeCSize(x: Extras, field: bytes): Result<(Extras, bytes), Error> {
    if !x.needCSize then Ok((x, field))
    else if |field| < 8 then Err(ErrFormat)
    else Ok((x.(needCSize := false, compressedSize64 := Get64(field, 0)), field[8..]))
  }

  function TakeHeaderOffset(x: Extras, field: bytes): Result<Extras, Error> {
    if !x.needHeaderOffset then Ok(x)
    else if |field| < 8 then Err(ErrFormat)
    else Ok(x.(needHeaderOffset := false, headerOffset := Int64(Get64(field, 0))))
  }

  function TakeZip64(x: Extras, field: bytes): Result<Extras, Error> {
    match TakeUSize(x, field)
    case Err(e) => Err(e)
    case Ok((x1, field1)) =>
      match TakeCSize(x1, field1)
      case Err(e) => Err(e)
      case Ok((x2, field2)) => TakeHeaderOffset(x2, field2)
  }

  const NTFS_EPOCH := -11644473600    // 1601-01-01T00:00:00Z
  const TICKS_PER_SECOND := 10_000_000

  // A Windows timestamp; both divisions truncate toward zero.
  function NtfsTime(v: uint64): Time {
    var ts := Int64(v);
    var secs := if ts >= 0 then ts / TICKS_PER_SECOND else -(-ts / TICKS_PER_SECOND);
    Unix(NTFS_EPOCH + secs, (ts - secs * TICKS_PER_SECOND) * 100)
  }

  function NtfsAttributes(modified: Time, field: bytes): Time
    decreases |field|
  {
    if |field| < 4 then modified
    else
      var tag, size, rest := Get16(field, 0), Get16(field, 2), field[4..];
      if |rest| < size then modified
      else NtfsAttributes(if tag == 1 && size == 24 then NtfsTime(Get64(rest, 0)) else modified, rest[size..])
  }

  // The modification time after a record that is not a zip64 record.
  function TakeTime(modified: Time, tag: uint16, field: bytes): Time {
    if tag == NTFS_EXTRA_ID then
      if |field| < 4 then modified else NtfsAttributes(modified, field[4..])
    else if tag == UNIX_EXTRA_ID || tag == INFO_ZIP_UNIX_EXTRA_ID then
      if |field| < 8 then modified else Unix(Get32(field, 4), 0)
    else if tag == EXT_TIME_EXTRA_ID then
      if |field| < 5 || field[0] % 2 == 0 then modified else Unix(Get32(field, 1), 0)
    else modified
  }

  function TakeRecord(x: Extras, tag: uint16, field: bytes): Result<Extras, Error> {
    if tag == ZIP64_EXTRA_ID then TakeZip64(x, field)
    else Ok(x.(modified := TakeTime(x.modified, tag, field)))
  }

  function WalkExtras(x: Extras, extra: bytes): Result<Extras, Error>
    decreases |extra|
  {
    if |extra| < 4 then Ok(x)
    else
      var tag, size, rest := Get16(extra, 0), Get16(extra, 2), extra[4..];
      if |rest| < size then Ok(x)
      else
        match TakeRecord(x, tag, rest[..size])
        case Err(e) => Err(e)
        case Ok(x1) => WalkExtras(x1, rest[size..])
  }

  // ---- central headers ----

  // io.ReadFull found fewer than the n bytes it wants.
  function ShortRead(b: bytes): Error { if b == [] then EOF else UnexpectedEOF }

  function NonUTF8(name: bytes, comment: bytes, flags: uint16): bool {
    var (valid1, require1) := Utf8.DetectUTF8(name);
    var (valid2, require2) := Utf8.DetectUTF8(comment);
    if !valid1 || !valid2 then true
    else if !require1 && !require2 then false
    else !Utf8Flag(flags)
  }

  // The modification time from the MS-DOS stamp and the extended one, if there was any.
  function ReadModified(dosDate: uint16, dosTime: uint16, modified: Time): Time {
    var dos := MsDosTimeToTime(dosDate, dosTime);
    if IsZero(modified) then dos
    else if dosTime != 0 || dosDate != 0 then modified.(zone := TimeZone(Sub(dos, modified)))
    else modified.(zone := UTC)
  }

  function StartExtras(csize: uint32, usize: uint32, offset: uint32): Extras {
    Extras(usize, csize, offset, usize == UINT32_MAX, csize == UINT32_MAX, offset == UINT32_MAX, ZERO)
  }

  // How long the record at the start of b says it is.
  function RecordLen(b: bytes): nat
    requires |b| >= DIRECTORY_HEADER_LEN
  {
    DIRECTORY_HEADER_LEN + Get16(b, 28) + Get16(b, 30) + Get16(b, 32)
  }

  // The file of the complete record b, given what its extra field says.
  function FileOf(b: bytes, x: Extras): File
    requires |b| >= DIRECTORY_HEADER_LEN && |b| >= RecordLen(b)
  {
    var n, m, k := Get16(b, 28), Get16(b, 30), Get16(b, 32);
    var name, extra, comment := b[46..46 + n], b[46 + n..46 + n + m], b[46 + n + m..46 + n + m + k];
    File(FileHeader(
      name, comment, NonUTF8(name, comment, Get16(b, 8)),
      Get16(b, 4), Get16(b, 6), Get16(b, 8), Get16(b, 10),
      ReadModified(Get16(b, 14), Get16(b, 12), x.modified), Get16(b, 12), Get16(b, 14),
      Get32(b, 16), Get32(b, 20), Get32(b, 24), x.compressedSize64, x.uncompressedSize64,
      extra, Get32(b, 38)), x.headerOffset)
  }

  // readDirectoryHeader on a stream holding b: the file and the length of its record.
  function ParseHeader(b: bytes): (r: Result<(File, nat), Error>)
    ensures r.Ok? ==> DIRECTORY_HEADER_LEN <= r.value.1 <= |b|
  {
    if |b| < DIRECTORY_HEADER_LEN then Err(ShortRead(b))
    else if Get32(b, 0) != DIRECTORY_HEADER_SIGNATURE then Err(ErrFormat)
    else if |b| < RecordLen(b) then Err(ShortRead(b[DIRECTORY_HEADER_LEN..]))
    else
      var n, m := Get16(b, 28), Get16(b, 30);
      match WalkExtras(StartExtras(Get32(b, 20), Get32(b, 24), Get32(b, 42)), b[46 + n..46 + n + m])
      case Err(e) => Err(e)
      case Ok(x) =>
        if x.needCSize || x.needHeaderOffset then Err(ErrFormat)
        else Ok((FileOf(b, x), RecordLen(b)))
  }

  // The loop of init: headers until the first one that is not.
  function ReadHeaders(b: bytes): (seq<File>, Error) {
    match ParseHeader(b)
    case Err(e) => ([], e)
    case Ok((f, n)) => var (fs, e) := ReadHeaders(b[n..]); ([f] + fs, e)
  }

  // ---- end of central directory ----

  // An end record with room for its comment starts at i.
  predicate EndAt(b: bytes, i: int) {
    && 0 <= i && i + DIRECTORY_END_LEN <= |b|
    && b[i] == 'P' as int && b[i + 1] == 'K' as int && b[i + 2] == 5 && b[i + 3] == 6
    && Get16(b, i + 20) + DIRECTORY_END_LEN + i <= |b|
  }

  lemma EndAtBound(b: bytes, i: int)
    requires EndAt(b, i)
    ensures 0 <= i <= |b| - DIRECTORY_END_LEN
  {
  }

  // The window the reader looks at: an end record with a comment of any legal length fits.
  const SEARCH_WINDOW := 65 * 1024

  function SearchFloor(size: nat): nat { if size <= SEARCH_WINDOW then 0 else size - SEARCH_WINDOW }

  // One scan down from i to lo for the last end record.
  function LastEndDown(b: bytes, i: int, lo: nat): (r: Option<nat>)
    ensures r.Some? ==> EndAt(b, r.value) && lo <= r.value <= i
    ensures r.Some? ==> forall j :: r.value < j <= i ==> !EndAt(b, j)
    ensures r.None? ==> forall j :: lo <= j <= i ==> !EndAt(b, j)
    decreases i - lo
  {
    if i < lo then None
    else if EndAt(b, i) then Some(i)
    else LastEndDown(b, i - 1, lo)
  }

  // A position that no later one in the window beats is the result of the single scan.
  lemma {:induction false} LastEndIs(file: bytes, i: int, lo: nat, p: nat)
    requires EndAt(file, p) && lo <= p <= i
    requires forall j :: p < j <= i ==> !EndAt(file, j)
    ensures LastEndDown(file, i, lo) == Some(p)
    decreases i - p
  {
    if i > p {
      LastEndIs(file, i - 1, lo, p);
    }
  }

  function LastEnd(file: bytes): Option<nat> {
    LastEndDown(file, |file| - DIRECTORY_END_LEN, SearchFloor(|file|))
  }

  function EndRecord(b: bytes, i: nat): DirectoryEnd
    requires EndAt(b, i)
  {
    DirectoryEnd(Get16(b, i + 10), Get32(b, i + 12), Get32(b, i + 16),
                 b[i + DIRECTORY_END_LEN..i + DIRECTORY_END_LEN + Get16(b, i + 20)])
  }

  // Where the zip64 locator in front of an end record at i points, or -1.
  function FindEnd64(file: bytes, i: nat): int
    requires i <= |file|
  {
    var loc := i - DIRECTORY64_LOC_LEN;
    if loc < 0 then -1
    else if Get32(file, loc) != DIRECTORY64_LOC_SIGNATURE then -1
    else if Get32(file, loc + 4) != 0 || Get32(file, loc + 16) != 1 then -1
    else Int64(Get64(file, loc + 8))
  }

  function ReadEnd64(file: bytes, p: nat, d: DirectoryEnd): Result<DirectoryEnd, Error> {
    if p + DIRECTORY64_END_LEN > |file| then Err(EOF)
    else if Get32(file, p) != DIRECTORY64_END_SIGNATURE then Err(ErrFormat)
    else Ok(DirectoryEnd(Get64(file, p + 32), Get64(file, p + 40), Get64(file, p + 48), d.comment))
  }

  // The test for a possible zip64 archive; the size is compared with 0xffff.
  predicate MaybeZip64(d: DirectoryEnd) {
    d.directoryRecords == 0xffff || d.directorySize == 0xffff || d.directoryOffset == 0xffffffff
  }

  function Upgraded(file: bytes, i: nat, d: DirectoryEnd): Result<DirectoryEnd, Error>
    requires i <= |file|
  {
    if !MaybeZip64(d) then Ok(d)
    else
      var p := FindEnd64(file, i);
      if p < 0 then Ok(d) else ReadEnd64(file, p, d)
  }

  function ReadDirectoryEnd(file: bytes): Result<DirectoryEnd, Error> {
    match LastEnd(file)
    case None => Err(ErrFormat)
    case Some(i) =>
      match Upgraded(file, i, EndRecord(file, i))
      case Err(e) => Err(e)
      case Ok(d) =>
        var o := Int64(d.directoryOffset);
        if o < 0 || o >= |file| then Err(ErrFormat) else Ok(d)
  }

  // Reader.init on a whole file.
  function Init(file: bytes): Result<Archive, Error> {
    match ReadDirectoryEnd(file)
    case Err(e) => Err(e)
    case Ok(d) =>
      if d.directoryRecords > |file| / FILE_HEADER_LEN then Err(ErrImpossibleCount(d.directoryRecords, |file|))
      else
        var (files, e) := ReadHeaders(file[Int64(d.directoryOffset)..]);
        if e != ErrFormat && e != UnexpectedEOF then Err(e)
        else if Uint16(|files|) != Uint16(d.directoryRecords) then Err(e)
        else Ok(Archive(files, d.comment))
  }

  // ---- contents ----

  // findBodyOffset: the length of the local header.
  function BodyOffset(file: bytes, headerOffset: int): Result<nat, Error> {
    if headerOffset < 0 then Err(ErrBadOffset)
    else if headerOffset + FILE_HEADER_LEN > |file| then Err(EOF)
    else if Get32(file, headerOffset) != FILE_HEADER_SIGNATURE then Err(ErrFormat)
    else Ok(FILE_HEADER_LEN + Get16(file, headerOffset + 26) + Get16(file, headerOffset + 28))
  }

  // What a section reader over n bytes of the file at off delivers.
  function Section(file: bytes, off: nat, n: int): bytes {
    if n <= 0 || off >= |file| then []
    else if off + n <= |file| then file[off..off + n]
    else file[off..]
  }

  // Where the data descriptor behind data that ends at off is read from.
  function DescriptorSection(file: bytes, off: int): Result<bytes, Error> {
    if off < 0 then Err(ErrBadOffset) else Ok(Section(file, off, DATA_DESCRIPTOR_LEN))
  }

  // An opened file: the plain contents its decompressor makes of the data (or its failure),
  // and where its data descriptor is read from, if it has one.
  datatype Opened = Opened(plain: Option<bytes>, descriptor: Option<Result<bytes, Error>>)

  function OpenAt(file: bytes, f: File, decompressors: map<uint16, Decompressor>): Result<Opened, Error> {
    match BodyOffset(file, f.headerOffset)
    case Err(e) => Err(e)
    case Ok(n) =>
      var start, size := f.headerOffset + n, Int64(f.header.compressedSize64);
      if f.header.compression !in decompressors then Err(ErrAlgorithm)
      else
        Ok(Opened(decompressors[f.header.compression](Section(file, start, size)),
                  if f.header.HasDataDescriptor() then Some(DescriptorSection(file, start + size)) else None))
  }

  // readDataDescriptor: the error, or none if the descriptor names the CRC. The signature is
  // optional; the sizes are not looked at.
  function DescriptorError(b: bytes, crc: uint32): Option<Error> {
    if |b| < 4 then Some(ShortRead(b))
    else
      var signed := Get32(b, 0) == DATA_DESCRIPTOR_SIGNATURE;
      var need := if signed then 12 else 8;
      if |b| - 4 < need then Some(ShortRead(b[4..]))
      else if (if signed then Get32(b, 4) else Get32(b, 0)) != crc then Some(ErrChecksum)
      else None
  }

  // What the underlying reader answers to one Read, and what checksumReader answers.
  datatype Delivery = Delivery(data: bytes, err: Option<Error>)

  // The state of a checksumReader.
  datatype Check = Check(hash: Crc.Hash, nread: uint64, err: Option<Error>)

  const NEW_CHECK := Check(Crc.NEW_IEEE, 0, None)

  // The error that ends the reading once all bytes have arrived; EOF if all is well.
  function Verdict(h: FileHeader, descriptor: Option<Result<bytes, Error>>, hash: Crc.Hash): Error {
    match descriptor
    case None => if h.crc32 != 0 && Crc.Sum32(hash) != h.crc32 then ErrChecksum else EOF
    case Some(Err(e)) => if e == EOF then UnexpectedEOF else e
    case Some(Ok(b)) =>
      match DescriptorError(b, h.crc32)
      case Some(e) => if e == EOF then UnexpectedEOF else e
      case None => if Crc.Sum32(hash) != h.crc32 then ErrChecksum else EOF
  }

  function CheckStep(h: FileHeader, descriptor: Option<Result<bytes, Error>>, c: Check, got: Delivery)
    : (Check, Delivery)
  {
    if c.err.Some? then (c, Delivery([], c.err))
    else
      var c1 := Check(Crc.Feed(c.hash, got.data), Uint64(c.nread + |got.data|), None);
      if got.err.None? then (c1, got)
      else if got.err.value != EOF then (c1.(err := got.err), got)
      else if c1.nread != h.uncompressedSize64 then (c1, Delivery([], Some(UnexpectedEOF)))
      else
        var e := Verdict(h, descriptor, c1.hash);
        (c1.(err := Some(e)), Delivery(got.data, Some(e)))
  }
}
