/**
 Central headers of any origin, and the extra fields other tools write: what the reader makes
 of them, said by the bytes.
 */
module ForeignHeaders {
  import opened Bytes
  import opened Wrappers
  import opened Clock
  import opened ZipFormat
  import opened ReaderModel
  import opened ExtraFields
  import Utf8

  // A complete central header with the right signature.
  predicate Complete(b: bytes) {
    |b| >= 46 && Get32(b, 0) == 0x02014b50 && |b| >= 46 + Get16(b, 28) + Get16(b, 30) + Get16(b, 32)
  }

  function ExtraOf(b: bytes): bytes
    requires Complete(b)
  {
    b[46 + Get16(b, 28)..46 + Get16(b, 28) + Get16(b, 30)]
  }

  // The 64-bit values a header takes from a zip64 record with this payload: only those whose
  // 32-bit fields are saturated, one behind the other.
  function Needed(usize: uint32, csize: uint32, offset: uint32): nat {
    (if usize == 0xffff_ffff then 1 else 0) + (if csize == 0xffff_ffff then 1 else 0) +
    (if offset == 0xffff_ffff then 1 else 0)
  }

  // For every complete header, whoever wrote it: the first zip64 record supplies exactly the
  // saturated values, the others stay. Without one the header is refused if the compressed
  // size or the offset is saturated; a saturated uncompressed size is taken at its word.
  lemma ParseComplete(b: bytes)
    requires Complete(b)
    ensures
      var usize, csize, offset := Get32(b, 24), Get32(b, 20), Get32(b, 42);
      var csizeAt := if usize == 0xffff_ffff then 8 else 0;
      var offsetAt := csizeAt + if csize == 0xffff_ffff then 8 else 0;
      var r := ParseHeader(b);
      match FirstZip64(Records(ExtraOf(b)))
      case None =>
        if csize == 0xffff_ffff || offset == 0xffff_ffff then r == Err(ErrFormat)
        else r.Ok? && Sized(r.value.0, usize, csize, offset)
      case Some(z) =>
        if |z.payload| < 8 * Needed(usize, csize, offset) then r == Err(ErrFormat)
        else r.Ok? && Sized(r.value.0,
                            if usize == 0xffff_ffff then Get64(z.payload, 0) else usize,
                            if csize == 0xffff_ffff then Get64(z.payload, csizeAt) else csize,
                            if offset == 0xffff_ffff then Int64(Get64(z.payload, offsetAt)) else offset)
  {
    hide TakeZip64, TakeTime, Get16, Get32, Get64, NonUTF8, ReadModified, Records, FirstZip64;
    var x, extra := StartExtras(Get32(b, 20), Get32(b, 24), Get32(b, 42)), ExtraOf(b);
    WalkIsFold(x, extra);
    FoldIsFirst(x, Records(extra));
    if FirstZip64(Records(extra)).Some? {
      TakeNeeded(x, FirstZip64(Records(extra)).value.payload);
    }
  }

  predicate Sized(f: File, usize: uint64, csize: uint64, offset: int) {
    f.header.uncompressedSize64 == usize && f.header.compressedSize64 == csize && f.headerOffset == offset
  }

  // The other fields come from their places in the record, the strings in the order of name,
  // extra field and comment.
  lemma ParsedFields(b: bytes)
    requires Complete(b) && ParseHeader(b).Ok?
    ensures
      var h := ParseHeader(b).value.0.header;
      var n: nat, m: nat, k: nat := Get16(b, 28), Get16(b, 30), Get16(b, 32);
      && ParseHeader(b).value.1 == 46 + n + m + k
      && h.creatorVersion == Get16(b, 4) && h.readerVersion == Get16(b, 6) && h.flags == Get16(b, 8)
      && h.compression == Get16(b, 10) && h.modifiedTime == Get16(b, 12) && h.modifiedDate == Get16(b, 14)
      && h.crc32 == Get32(b, 16) && h.compressedSize == Get32(b, 20) && h.uncompressedSize == Get32(b, 24)
      && h.externalAttrs == Get32(b, 38)
      && h.name + h.extra + h.comment == b[46..46 + n + m + k] && |h.name| == n && |h.extra| == m
  {
    hide WalkExtras, NonUTF8, ReadModified, Get16, Get32;
    var n: nat, m: nat, k: nat := Get16(b, 28), Get16(b, 30), Get16(b, 32);
    assert b[46..46 + n] + b[46 + n..46 + n + m] + b[46 + n + m..46 + n + m + k] == b[46..46 + n + m + k];
  }

  // What is too short or begins otherwise is no header.
  lemma Incomplete(b: bytes)
    requires !Complete(b)
    ensures ParseHeader(b) ==
            Err(if b == [] then EOF
                else if |b| < 46 then UnexpectedEOF
                else if Get32(b, 0) != 0x02014b50 then ErrFormat
                else if |b| == 46 then EOF
                else UnexpectedEOF)
  {
  }

  // A small file far into a big archive, as other tools write it: only the offset is
  // saturated, and the zip64 record holds nothing else.
  lemma OffsetAlone(b: bytes, offset: uint64)
    requires Complete(b) && Get32(b, 20) < 0xffff_ffff && Get32(b, 24) < 0xffff_ffff && Get32(b, 42) == 0xffff_ffff
    requires ExtraOf(b) == Encode(Record(0x0001, Put64(offset)))
    ensures ParseHeader(b).Ok? && Sized(ParseHeader(b).value.0, Get32(b, 24), Get32(b, 20), Int64(offset))
  {
    hide ParseHeader, Get16, Get32, Get64, Put64;
    var z := Record(0x0001, Put64(offset));
    OneRecord(z);
    assert FirstZip64([z]) == Some(z);
    GetPut64([], offset, []);
    assert [] + Put64(offset) + [] == Put64(offset);
    ParseComplete(b);
  }

  // The encoding mark of any header: set on what is not UTF-8, and on what could be another
  // encoding and does not carry the flag.
  lemma ParsedEncoding(name: bytes, comment: bytes, flags: uint16)
    ensures
      NonUTF8(name, comment, flags) <==>
      || !(exists rs :: Utf8.Spells(rs, name))
      || !(exists rs :: Utf8.Spells(rs, comment))
      || (flags / 0x800 % 2 == 0 && (Utf8.DetectUTF8(name).1 || Utf8.DetectUTF8(comment).1))
  {
    hide Utf8.Spells, Utf8.Detect;
    Utf8.DetectUTF8Correct(name);
    Utf8.DetectUTF8Correct(comment);
  }

  // ---- times ----

  // The zone read off a clock difference: the nearest quarter of an hour, the one away from
  // zero in the middle of two, if that is one of -12h to +14h, and else zero.
  lemma NearestQuarter(offset: int, k: int)
    requires var rest := offset - k * 900 * NANOS;
             if offset < 0 then -450 * NANOS < rest <= 450 * NANOS else -450 * NANOS <= rest < 450 * NANOS
    ensures TimeZone(offset) == FixedZone(if -12 * 4 <= k <= 14 * 4 then k * 900 else 0)
  {
    var m := 15 * 60 * NANOS;
    if offset < 0 {
      assert -offset + m / 2 == -k * m + (m / 2 - (offset - k * m));
      assert (-offset + m / 2) / m == -k;
    } else {
      assert (offset + m / 2) / m == k;
    }
    assert Round(offset, m) == k * m;
  }

  // The time read is the one found in the extra field, shown in the zone that the difference
  // to the MS-DOS date suggests, or in UTC if there is no such date. Without one found it is
  // the MS-DOS date in UTC.
  lemma ParsedTime(dosDate: uint16, dosTime: uint16, found: Time)
    ensures
      var m, dos := ReadModified(dosDate, dosTime, found), MsDosTimeToTime(dosDate, dosTime);
      && (IsZero(found) ==> m == dos && m.zone == UTC)
      && (!IsZero(found) ==>
            && m.sec == found.sec && m.nsec == found.nsec
            && m.zone == if dosDate == 0 && dosTime == 0 then UTC else TimeZone(Sub(dos, found)))
  {
  }

  // NTFS counts in units of 100 nanoseconds from the start of 1601.
  lemma NtfsTicks(v: uint64)
    ensures var t := NtfsTime(v);
            && t.sec * 10_000_000 + t.nsec / 100 == -11644473600 * 10_000_000 + Int64(v)
            && 0 <= t.nsec < 1_000_000_000 && t.nsec % 100 == 0 && t.zone == UTC
  {
    var ts := Int64(v);
    var secs := if ts >= 0 then ts / TICKS_PER_SECOND else -(-ts / TICKS_PER_SECOND);
    var rest := ts - secs * TICKS_PER_SECOND;
    assert -TICKS_PER_SECOND < rest < TICKS_PER_SECOND;
    var q, r := rest * 100 / NANOS, rest * 100 % NANOS;
    assert rest * 100 == q * NANOS + r;
    assert r == 100 * (rest - q * TICKS_PER_SECOND);
  }

  // A Unix record: the access time, the modification time, and whatever follows.
  lemma UnixStamp(m: Time, tag: uint16, access: uint32, modified: uint32, rest: bytes)
    requires tag == 0x000d || tag == 0x5855
    ensures TakeTime(m, tag, Put32(access) + Put32(modified) + rest) == Time(modified, 0, UTC)
  {
    hide Put32, Get32;
    GetPut32(Put32(access), modified, rest);
  }

  // An extended timestamp: flags of which the lowest announces the modification time.
  lemma ExtendedStamp(m: Time, flags: byte, modified: uint32, rest: bytes)
    ensures TakeTime(m, 0x5455, [flags] + Put32(modified) + rest) ==
            if flags % 2 == 1 then Time(modified, 0, UTC) else m
  {
    hide Put32, Get32;
    GetPut32([flags], modified, rest);
  }

  function Attribute(tag: uint16, value: bytes): bytes
    requires |value| <= 0xffff
  {
    Put16(tag) + Put16(|value|) + value
  }

  // NTFS attributes in front of the times are skipped.
  lemma AttributeSkipped(m: Time, tag: uint16, value: bytes, rest: bytes)
    requires |value| <= 0xffff && (tag != 1 || |value| != 24)
    ensures NtfsAttributes(m, Attribute(tag, value) + rest) == NtfsAttributes(m, rest)
  {
    AttributeFields(tag, value, rest);
  }

  lemma AttributeFields(tag: uint16, value: bytes, rest: bytes)
    requires |value| <= 0xffff
    ensures var b := Attribute(tag, value) + rest;
            && |b| >= 4 && Get16(b, 0) == tag && Get16(b, 2) == |value|
            && b[4..] == value + rest && b[4..][|value|..] == rest
  {
    EncodeFields(Record(tag, value), rest);
    assert Attribute(tag, value) == Encode(Record(tag, value));
    var b := Attribute(tag, value) + rest;
    assert b[4..] == value + rest;
  }

  // The attribute of the times gives the modification time, which comes first in it.
  lemma AttributeTaken(m: Time, modified: uint64, other: bytes)
    requires |other| == 16
    ensures NtfsAttributes(m, Attribute(1, Put64(modified) + other)) == NtfsTime(modified)
  {
    hide NtfsTime, Get64, Put64;
    var value := Put64(modified) + other;
    AttributeFields(1, value, []);
    assert Attribute(1, value) + [] == Attribute(1, value) && value + [] == value;
    GetPut64([], modified, other);
    assert [] + Put64(modified) + other == value;
  }

  // A whole NTFS record: four reserved bytes, other attributes, then the times.
  lemma {:induction false} NtfsStamp(m: Time, reserved: uint32, skipped: seq<Record>, modified: uint64, other: bytes)
    requires |other| == 16 && Fits(skipped) && forall a :: a in skipped ==> a.tag != 1 || |a.payload| != 24
    ensures TakeTime(m, 0x000a, Put32(reserved) + (EncodeAll(skipped) + Attribute(1, Put64(modified) + other))) ==
            NtfsTime(modified)
    decreases |skipped|
  {
    hide NtfsTime, NtfsAttributes, Put32, Put64;
    var last := Attribute(1, Put64(modified) + other);
    var field := Put32(reserved) + (EncodeAll(skipped) + last);
    assert field[4..] == EncodeAll(skipped) + last;
    if skipped == [] {
      assert EncodeAll(skipped) + last == last;
      AttributeTaken(m, modified, other);
    } else {
      var a, rest := skipped[0], EncodeAll(skipped[1..]) + last;
      assert Encode(a) == Attribute(a.tag, a.payload);
      Associative(Encode(a), EncodeAll(skipped[1..]), last);
      AttributeSkipped(m, a.tag, a.payload, rest);
      NtfsStamp(m, reserved, skipped[1..], modified, other);
      assert (Put32(reserved) + rest)[4..] == rest;
    }
  }
}
