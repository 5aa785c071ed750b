/**
 pkg/util/zip/struct.go: the constants of the ZIP format, the file header, the end record,
 and the MS-DOS date conversions. Strings are byte sequences, as in Go.
 */
module ZipFormat {
  import opened Bytes
  import opened Clock

  const STORE: uint16 := 0

  const FILE_HEADER_SIGNATURE: uint32 := 0x04034b50
  const DIRECTORY_HEADER_SIGNATURE: uint32 := 0x02014b50
  const DIRECTORY_END_SIGNATURE: uint32 := 0x06054b50
  const DIRECTORY64_LOC_SIGNATURE: uint32 := 0x07064b50
  const DIRECTORY64_END_SIGNATURE: uint32 := 0x06064b50
  const DATA_DESCRIPTOR_SIGNATURE: uint32 := 0x08074b50

  const FILE_HEADER_LEN := 30
  const DIRECTORY_HEADER_LEN := 46
  const DIRECTORY_END_LEN := 22
  const DATA_DESCRIPTOR_LEN := 16
  const DATA_DESCRIPTOR64_LEN := 24
  const DIRECTORY64_LOC_LEN := 20
  const DIRECTORY64_END_LEN := 56

  const ZIP_VERSION_20: uint16 := 20
  const ZIP_VERSION_45: uint16 := 45

  const ZIP64_EXTRA_ID: uint16 := 0x0001
  const NTFS_EXTRA_ID: uint16 := 0x000a
  const UNIX_EXTRA_ID: uint16 := 0x000d
  const EXT_TIME_EXTRA_ID: uint16 := 0x5455
  const INFO_ZIP_UNIX_EXTRA_ID: uint16 := 0x5855

  datatype Error =
    | ErrFormat | ErrAlgorithm | ErrChecksum | ErrLongName | ErrLongExtra
    | EOF | UnexpectedEOF
    | ErrLongComment          // zip: Writer.Comment too long
    | ErrDuplicateHeader      // archive/zip: invalid duplicate FileHeader
    | ErrWriterClosedTwice    // zip: writer closed twice
    | ErrFileClosedTwice      // zip: file closed twice
    | ErrFileClosed           // zip: write to closed file
    | ErrCommentLength        // zip: invalid comment length
    | ErrImpossibleCount(records: uint64, size: nat)
    | ErrBadOffset            // a read outside the file

  // Two bits of the flag word: 0x8 announces a data descriptor, 0x800 UTF-8 strings.
  predicate DescriptorFlag(flags: uint16) { flags / 0x8 % 2 == 1 }
  predicate Utf8Flag(flags: uint16) { flags / 0x800 % 2 == 1 }

  function WithDescriptorFlag(flags: uint16, on: bool): (r: uint16)
    ensures DescriptorFlag(r) == on && Utf8Flag(r) == Utf8Flag(flags)
    ensures r % 8 == flags % 8 && r / 16 == flags / 16
  {
    var r := flags / 16 * 16 + flags % 8 + if on then 8 else 0;
    DescriptorFlagSet(flags, on, r);
    r
  }

  lemma DescriptorFlagSet(flags: uint16, on: bool, r: int)
    requires r == flags / 16 * 16 + flags % 8 + if on then 8 else 0
    ensures 0 <= r < 0x1_0000
    ensures r / 8 % 2 == (if on then 1 else 0) && r / 0x800 == flags / 0x800
    ensures r % 8 == flags % 8 && r / 16 == flags / 16
  {
    var hi, bit, lo := flags / 16, flags / 8 % 2, flags % 8;
    FlagsSplit(flags);
    FlagParts(flags, hi, bit, lo);
    FlagParts(r, hi, if on then 1 else 0, lo);
  }

  lemma FlagsSplit(flags: uint16)
    ensures flags == flags / 16 * 16 + flags / 8 % 2 * 8 + flags % 8 && 0 <= flags / 16 < 0x1000
    ensures flags == flags / 0x1000 * 0x1000 + flags / 0x800 % 2 * 0x800 + flags % 0x800 && 0 <= flags / 0x1000 < 16
  {
    var eights, high := flags / 8, flags / 0x800;
    assert flags == eights * 8 + flags % 8;
    assert flags == high * 0x800 + flags % 0x800;
    Eights(flags, eights, flags % 8);
    HighFlags(flags, high, flags % 0x800);
    assert eights == eights / 2 * 2 + eights % 2 && high == high / 2 * 2 + high % 2;
  }

  // A flag word in front of, at and behind the descriptor bit.
  lemma FlagParts(v: int, hi: int, bit: int, lo: int)
    requires 0 <= hi && 0 <= bit < 2 && 0 <= lo < 8 && v == hi * 16 + bit * 8 + lo
    ensures v / 8 % 2 == bit && v % 8 == lo && v / 16 == hi && v / 0x800 == hi / 0x80
  {
    Eights(v, hi * 2 + bit, lo);
    Twos(hi * 2 + bit, hi, bit);
    var q, m := hi / 0x80, hi % 0x80;
    assert hi == q * 0x80 + m;
    HighFlags(v, q, m * 16 + bit * 8 + lo);
  }

  lemma Twos(v: int, q: int, r: int)
    requires v == q * 2 + r && 0 <= r < 2
    ensures v / 2 == q && v % 2 == r
  {
  }

  lemma Eights(v: int, q: int, r: int)
    requires v == q * 8 + r && 0 <= r < 8
    ensures v / 8 == q && v % 8 == r && v / 16 == q / 2
  {
  }

  lemma HighFlags(v: int, q: int, r: int)
    requires v == q * 0x800 + r && 0 <= r < 0x800
    ensures v / 0x800 == q && v % 0x800 == r && v / 0x1000 == q / 2
  {
  }

  function WithUtf8Flag(flags: uint16, on: bool): (r: uint16)
    ensures Utf8Flag(r) == on && DescriptorFlag(r) == DescriptorFlag(flags)
    ensures r % 0x800 == flags % 0x800 && r / 0x1000 == flags / 0x1000
  {
    var r := flags / 0x1000 * 0x1000 + flags % 0x800 + if on then 0x800 else 0;
    Utf8FlagSet(flags, on, r);
    r
  }

  lemma Utf8FlagSet(flags: uint16, on: bool, r: int)
    requires r == flags / 0x1000 * 0x1000 + flags % 0x800 + if on then 0x800 else 0
    ensures 0 <= r < 0x1_0000
    ensures r / 0x800 % 2 == (if on then 1 else 0) && r / 8 % 2 == flags / 8 % 2
    ensures r % 0x800 == flags % 0x800 && r / 0x1000 == flags / 0x1000
  {
    var hi, bit, lo := flags / 0x1000, flags / 0x800 % 2, flags % 0x800;
    FlagsSplit(flags);
    Utf8Parts(flags, hi, bit, lo);
    Utf8Parts(r, hi, if on then 1 else 0, lo);
  }

  // A flag word in front of, at and behind the UTF-8 bit.
  lemma Utf8Parts(v: int, hi: int, bit: int, lo: int)
    requires 0 <= hi && 0 <= bit < 2 && 0 <= lo < 0x800 && v == hi * 0x1000 + bit * 0x800 + lo
    ensures v / 0x800 % 2 == bit && v % 0x800 == lo && v / 0x1000 == hi && v / 8 % 2 == lo / 8 % 2
  {
    HighFlags(v, hi * 2 + bit, lo);
    Twos(hi * 2 + bit, hi, bit);
    var q, r := lo / 8, lo % 8;
    assert lo == q * 8 + r;
    Eights(v, hi * 0x200 + bit * 0x100 + q, r);
    var s := q / 2;
    assert q == s * 2 + q % 2;
    Twos(hi * 0x200 + bit * 0x100 + q, hi * 0x100 + bit * 0x80 + s, q % 2);
  }

  datatype FileHeader = FileHeader(
    name: bytes, comment: bytes, nonUTF8: bool,
    creatorVersion: uint16, readerVersion: uint16, flags: uint16, compression: uint16,
    modified: Time, modifiedTime: uint16, modifiedDate: uint16,
    crc32: uint32, compressedSize: uint32, uncompressedSize: uint32,
    compressedSize64: uint64, uncompressedSize64: uint64,
    extra: bytes, externalAttrs: uint32)
  {
    predicate IsZip64() {
      compressedSize64 >= UINT32_MAX || uncompressedSize64 >= UINT32_MAX
    }

    predicate IsDirectory() {
      |name| > 0 && name[|name| - 1] == '/' as int
    }

    predicate HasDataDescriptor() {
      DescriptorFlag(flags)
    }
  }

  datatype DirectoryEnd = DirectoryEnd(
    directoryRecords: uint64, directorySize: uint64, directoryOffset: uint64, comment: bytes)

  // The zone a clock difference in nanoseconds points to; a nonsensical one means offset 0.
  function TimeZone(offset: int): Zone {
    var rounded := Round(offset, 15 * 60 * NANOS);
    FixedZone(if rounded < -12 * 3600 * NANOS || 14 * 3600 * NANOS < rounded then 0 else rounded / NANOS)
  }

  // The calendar fields packed in an MS-DOS date and time.
  function UnpackDos(dosDate: uint16, dosTime: uint16): Wall {
    Wall(dosDate / 0x200 + 1980, dosDate / 0x20 % 0x10, dosDate % 0x20,
         dosTime / 0x800, dosTime / 0x20 % 0x40, dosTime % 0x20 * 2)
  }

  function PackDos(w: Wall): (uint16, uint16) {
    (Uint16(w.day + w.month * 0x20 + (w.year - 1980) * 0x200),
     Uint16(w.second / 2 + w.minute * 0x20 + w.hour * 0x800))
  }

  function MsDosTimeToTime(dosDate: uint16, dosTime: uint16): Time {
    Time(DateSeconds(UnpackDos(dosDate, dosTime)), 0, UTC)
  }

  function TimeToMsDosTime(t: Time): (uint16, uint16) {
    PackDos(WallClock(t))
  }

  // The years an MS-DOS date can hold.
  predicate DosYear(t: Time) { 1980 <= WallClock(t).year <= 2107 }

  // A zone that TimeZone can give back: whole quarters of an hour from -12h to +14h.
  predicate QuarterHourZone(t: Time) {
    var z := ZoneSeconds(t.zone);
    z % 900 == 0 && -12 * 3600 <= z <= 14 * 3600
  }

  // A stamp written by the clock of t reads back as that clock's time, odd seconds cut.
  lemma DosDateRoundTrip(t: Time)
    requires DosYear(t)
    ensures var (d, c) := TimeToMsDosTime(t);
            && d != 0
            && MsDosTimeToTime(d, c) == Time(t.sec + ZoneSeconds(t.zone) - WallClock(t).second % 2, 0, UTC)
  {
    var w := WallClock(t);
    UnpackPacked(w);
    DateOfWallClock(t);
    SecondsAddUp(w, w.second / 2 * 2);
  }

  lemma UnpackPacked(w: Wall)
    requires 1980 <= w.year <= 2107 && 1 <= w.month <= 12 && 1 <= w.day <= 31
    requires 0 <= w.hour < 24 && 0 <= w.minute < 60 && 0 <= w.second < 60
    ensures var (d, c) := PackDos(w);
            d != 0 && UnpackDos(d, c) == w.(second := w.second / 2 * 2)
  {
    var d, c := w.day + w.month * 0x20 + (w.year - 1980) * 0x200, w.second / 2 + w.minute * 0x20 + w.hour * 0x800;
    DateFields(w, d);
    TimeFields(w, c);
    assert Uint16(d) == d by { Small(d); }
    assert Uint16(c) == c by { Small(c); }
    hide Uint16;
    assert PackDos(w) == (d, c);
  }

  lemma Small(v: int)
    requires 0 <= v < 0x1_0000
    ensures Uint16(v) == v
  {
  }

  lemma SecondsAddUp(w: Wall, second: int)
    ensures DateSeconds(w.(second := second)) == DateSeconds(w) - w.second + second
  {
  }

  lemma DateFields(w: Wall, v: int)
    requires 1980 <= w.year <= 2107 && 1 <= w.month <= 12 && 1 <= w.day <= 31
    requires v == w.day + w.month * 0x20 + (w.year - 1980) * 0x200
    ensures 0 < v < 0x1_0000
    ensures v / 0x200 == w.year - 1980 && v / 0x20 % 0x10 == w.month && v % 0x20 == w.day
  {
    assert v / 0x20 == w.month + (w.year - 1980) * 0x10;
  }

  lemma TimeFields(w: Wall, v: int)
    requires 0 <= w.hour < 24 && 0 <= w.minute < 60 && 0 <= w.second < 60
    requires v == w.second / 2 + w.minute * 0x20 + w.hour * 0x800
    ensures 0 <= v < 0x1_0000
    ensures v / 0x800 == w.hour && v / 0x20 % 0x40 == w.minute && v % 0x20 == w.second / 2
  {
    var half := w.second / 2;
    assert 0 <= half < 30;
    HalfSecondFields(w.hour, w.minute, half, v);
  }

  lemma HalfSecondFields(h: int, m: int, half: int, v: int)
    requires 0 <= h < 24 && 0 <= m < 60 && 0 <= half < 30 && v == half + m * 0x20 + h * 0x800
    ensures 0 <= v < 0x1_0000
    ensures v / 0x800 == h && v / 0x20 % 0x40 == m && v % 0x20 == half
  {
    assert v / 0x20 == m + h * 0x40;
  }

  // The clock difference of a stamp from its instant gives the zone back, although the
  // stamp lost up to one second.
  lemma ZoneRoundTrip(t: Time, lost: int)
    requires QuarterHourZone(t) && 0 <= lost <= 1
    ensures TimeZone((ZoneSeconds(t.zone) - lost) * NANOS) == FixedZone(ZoneSeconds(t.zone))
  {
    var z := ZoneSeconds(t.zone);
    var k := z / 900;
    assert z == 900 * k;
    var m := 15 * 60 * NANOS;
    var d := (z - lost) * NANOS;
    assert d == k * m - lost * NANOS;
    if d < 0 {
      assert (-d + m / 2) == (-k) * m + lost * NANOS + m / 2;
      assert (-d + m / 2) / m == -k;
    } else {
      assert (d + m / 2) / m == k;
    }
  }
}
