/**
 What a caller gets back of the header passed to CreateHeader: the modification time and the
 character encoding survive the trip through the archive.
 */
module HeaderMeaning {
  import opened Bytes
  import opened Wrappers
  import opened Clock
  import opened ZipFormat
  import opened ZipRecords
  import opened WriterModel
  import opened ReaderModel
  import opened ExtraFields
  import opened HeaderCodec
  import Utf8

  // h is the header g once its data is written.
  predicate Completes(h: FileHeader, g: FileHeader) {
    h == g.(crc32 := h.crc32, readerVersion := h.readerVersion,
            compressedSize := h.compressedSize, uncompressedSize := h.uncompressedSize,
            compressedSize64 := h.compressedSize64, uncompressedSize64 := h.uncompressedSize64)
  }

  function Stamp(t: Time): Record {
    Record(EXT_TIME_EXTRA_ID, [1] + Put32(Uint32(t.sec)))
  }

  lemma StampIsRecord(t: Time)
    ensures TimestampExtra(t) == Encode(Stamp(t))
    ensures Records(TimestampExtra(t)) == [Stamp(t)] && WellFormed(TimestampExtra(t))
  {
    hide Put16, Put32, Records, WellFormed;
    var p := Put32(Uint32(t.sec));
    assert |[1] + p| == 5;
    Associative(Put16(EXT_TIME_EXTRA_ID) + Put16(5), [1], p);
    OneRecord(Stamp(t));
  }

  lemma StampSetsTime(t: Time, m: Time)
    ensures SetsTime(Stamp(t))
    ensures TakeTime(m, EXT_TIME_EXTRA_ID, Stamp(t).payload) == Unix(Uint32(t.sec), 0)
  {
    hide Put32, Get32;
    var p := Stamp(t).payload;
    GetPut32([1], Uint32(t.sec), []);
    assert p == [1] + Put32(Uint32(t.sec)) + [];
  }

  // Behind a well-formed extra field the written stamp is the one that is found, even when a
  // zip64 record follows it.
  lemma StampFound(fh: FileHeader, h: FileHeader, offset: uint64)
    requires !IsZero(fh.modified) && WellFormed(fh.extra)
    requires Completes(h, Prepared(fh))
    ensures FoundTime(Listed(h, offset).extra) == Unix(Uint32(fh.modified.sec), 0)
  {
    hide TakeTime, TimestampExtra, Zip64Record, Prepared, SetsTime;
    var t, rs := fh.modified, Records(fh.extra);
    StampIsRecord(t);
    RecordsConcat(fh.extra, TimestampExtra(t));
    PreparedExtra(fh);
    if NeedsZip64(h, offset) {
      RecordsOfListed(h, offset);
      assert !SetsTime(Zip64Record(h, offset)) by { Zip64SetsNoTime(h, offset); }
      StampWins(rs, t, [Zip64Record(h, offset)]);
    } else {
      assert Records(h.extra) == rs + [Stamp(t)] + [];
      StampWins(rs, t, []);
    }
  }

  lemma PreparedExtra(fh: FileHeader)
    requires !IsZero(fh.modified)
    ensures Prepared(fh).extra == fh.extra + TimestampExtra(fh.modified)
  {
    hide TimestampExtra, TimeToMsDosTime, EncodingFlags;
  }

  lemma Zip64SetsNoTime(h: FileHeader, offset: uint64)
    ensures !SetsTime(Zip64Record(h, offset))
  {
  }

  lemma StampWins(before: seq<Record>, t: Time, after: seq<Record>)
    requires forall r :: r in after ==> !SetsTime(r)
    ensures FoldTime(ZERO, before + [Stamp(t)] + after) == Unix(Uint32(t.sec), 0)
  {
    hide TakeTime, SetsTime;
    StampSetsTime(t, ZERO);
    var rs := before + [Stamp(t)] + after;
    assert forall j :: |before| < j < |rs| ==> rs[j] == after[j - |before| - 1];
    LastTimeWins(ZERO, rs, |before|);
  }

  // The time of the last record with one decides what is read, and without any the MS-DOS
  // date.
  lemma SeenTime(fh: FileHeader, h: FileHeader, offset: uint64)
    requires !IsZero(fh.modified) && Completes(h, Prepared(fh))
    ensures
      var (d, c) := TimeToMsDosTime(fh.modified);
      var m := ReadBack(h, offset).header.modified;
      match StampTime(Records(Listed(h, offset).extra))
      case Some(u) => m.sec == u.sec && m.nsec == u.nsec
      case None => m == MsDosTimeToTime(d, c)
  {
    hide TakeTime, TimestampExtra, Zip64Extra, EncodingFlags, MsDosTimeToTime, TimeToMsDosTime, TimeZone, FoldTime,
      NonUTF8;
    FoldTimeIsLast(ZERO, Records(Listed(h, offset).extra));
  }

  // The modification time reads back to the second exactly if that record, or in its absence
  // the MS-DOS date, says it; the date does so only in a zone that makes up for the odd second.
  // Behind a well-formed extra field the record is the writer's: then the time comes back if it
  // fits 32 bits, and only then. Where the MS-DOS date can hold it as well, its zone comes back
  // exactly if it is a quarter-hour zone, although the date was cut to two seconds.
  lemma ModifiedRoundTrip(fh: FileHeader, h: FileHeader, offset: uint64)
    requires !IsZero(fh.modified) && Completes(h, Prepared(fh))
    ensures
      var t, m := fh.modified, ReadBack(h, offset).header.modified;
      && (match StampTime(Records(Listed(h, offset).extra))
          case Some(u) => m.sec == t.sec <==> u.sec == t.sec
          case None => DosYear(t) ==> (m.sec == t.sec <==> ZoneSeconds(t.zone) == WallClock(t).second % 2))
      && (WellFormed(fh.extra) ==>
            && m.nsec == 0
            && (m.sec == t.sec <==> 0 <= t.sec < 0x1_0000_0000)
            && (m.sec == t.sec && DosYear(t) ==>
                  (m.zone == FixedZone(ZoneSeconds(t.zone)) <==> QuarterHourZone(t))))
  {
    hide Records, StampTime, ReadBack, MsDosTimeToTime, TimeToMsDosTime, WallClock, ZoneSeconds, Prepared;
    SeenTime(fh, h, offset);
    if DosYear(fh.modified) {
      DosDateRoundTrip(fh.modified);
    }
    if WellFormed(fh.extra) {
      ZoneComesBack(fh, h, offset);
    }
  }

  lemma ZoneComesBack(fh: FileHeader, h: FileHeader, offset: uint64)
    requires !IsZero(fh.modified) && WellFormed(fh.extra)
    requires Completes(h, Prepared(fh))
    ensures
      var t, m := fh.modified, ReadBack(h, offset).header.modified;
      && m.nsec == 0
      && (m.sec == t.sec <==> 0 <= t.sec < 0x1_0000_0000)
      && (m.sec == t.sec && DosYear(t) ==>
            (m.zone == FixedZone(ZoneSeconds(t.zone)) <==> QuarterHourZone(t)))
  {
    hide TakeTime, TimestampExtra, Zip64Extra, EncodingFlags, MsDosTimeToTime, PackDos, TimeZone, WallClock, FoundTime,
      NonUTF8;
    var t, m := fh.modified, ReadBack(h, offset).header.modified;
    var (d, c) := TimeToMsDosTime(t);
    var found := Unix(Uint32(t.sec), 0);
    StampFound(fh, h, offset);
    assert h.modifiedDate == d && h.modifiedTime == c;
    assert m == ReadModified(d, c, found);
    if m.sec == t.sec && DosYear(t) {
      DosDateRoundTrip(t);
      var lost := WallClock(t).second % 2;
      var diff := (ZoneSeconds(t.zone) - lost) * NANOS;
      ZoneIsQuarterHour(Sub(MsDosTimeToTime(d, c), found));
      if QuarterHourZone(t) {
        ZoneRoundTrip(t, lost);
        assert Sub(MsDosTimeToTime(d, c), found) == diff;
      }
    }
  }

  // An extra field that ends in the start of a record of nine bytes swallows the stamp: the
  // time is read off the MS-DOS date.
  lemma SwallowedStamp(fh: FileHeader, h: FileHeader, offset: uint64, tag: uint16)
    requires !IsZero(fh.modified) && Completes(h, Prepared(fh)) && !NeedsZip64(h, offset)
    requires fh.extra == Put16(tag) + Put16(9)
    requires tag !in {NTFS_EXTRA_ID, UNIX_EXTRA_ID, INFO_ZIP_UNIX_EXTRA_ID, EXT_TIME_EXTRA_ID}
    ensures var (d, c) := TimeToMsDosTime(fh.modified);
            ReadBack(h, offset).header.modified == MsDosTimeToTime(d, c)
  {
    hide Prepared, Put16, Put32, MsDosTimeToTime, TimeToMsDosTime, ReadBack, Records, Zip64Extra;
    var r := Record(tag, TimestampExtra(fh.modified));
    PreparedExtra(fh);
    StampLength(fh.modified);
    OneRecord(r);
    assert Listed(h, offset).extra == Encode(r);
    assert LastStamp([r]) == None by { assert [r][1..] == []; }
    SeenTime(fh, h, offset);
  }

  lemma StampLength(t: Time)
    ensures |TimestampExtra(t)| == 9
  {
  }

  // TimeZone only ever answers with quarter-hour zones.
  lemma ZoneIsQuarterHour(offset: int)
    ensures QuarterHourZone(Time(0, 0, TimeZone(offset)))
  {
    var m := 15 * 60 * NANOS;
    var k := if offset < 0 then -((-offset + m / 2) / m) else (offset + m / 2) / m;
    assert Round(offset, m) == k * m;
    assert k * m / NANOS == k * 900;
  }

  // The encoding mark the reader derives: set on anything that is not UTF-8, and otherwise
  // exactly as the caller set it if some character tells the encodings apart.
  lemma EncodingRoundTrip(fh: FileHeader, h: FileHeader, offset: uint64)
    requires Completes(h, Prepared(fh))
    ensures
      var (valid1, require1) := Utf8.DetectUTF8(fh.name);
      var (valid2, require2) := Utf8.DetectUTF8(fh.comment);
      ReadBack(h, offset).header.nonUTF8 <==>
      !valid1 || !valid2 || ((require1 || require2) && fh.nonUTF8)
  {
    hide Utf8.Detect, FoundTime, ReadModified, TimestampExtra, TimeToMsDosTime, Zip64Extra;
    Utf8.DetectUTF8Correct(fh.name);
    Utf8.DetectUTF8Correct(fh.comment);
  }
}
