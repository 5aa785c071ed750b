/**
 Writing a central directory header and reading it back, zip64 or not.
 */
module HeaderCodec {
  import opened Bytes
  import opened Wrappers
  import opened Clock
  import opened ZipFormat
  import opened ZipRecords
  import opened ReaderModel
  import opened ExtraFields

  // The deprecated 32-bit sizes are the 64-bit ones where those fit.
  predicate SizesAgree(h: FileHeader) {
    !h.IsZip64() ==> h.compressedSize == h.compressedSize64 && h.uncompressedSize == h.uncompressedSize64
  }

  predicate LengthsFit(h: FileHeader, offset: uint64) {
    |h.name| <= UINT16_MAX && |Listed(h, offset).extra| <= UINT16_MAX && |h.comment| <= UINT16_MAX
  }

  // The modification time found in an extra field; ZERO if there is none.
  function FoundTime(extra: bytes): Time { FoldTime(ZERO, Records(extra)) }

  // What the reader makes of the header h listed at `offset`: h itself with the zip64 record
  // in its extra field; only the encoding mark and the time are derived anew, and the
  // deprecated sizes are saturated.
  function ReadBack(h: FileHeader, offset: uint64): File {
    var zip64, l := NeedsZip64(h, offset), Listed(h, offset);
    File(l.(nonUTF8 := NonUTF8(h.name, h.comment, h.flags),
            compressedSize := if zip64 then UINT32_MAX else h.compressedSize,
            uncompressedSize := if zip64 then UINT32_MAX else h.uncompressedSize,
            modified := ReadModified(h.modifiedDate, h.modifiedTime, FoundTime(l.extra))),
         Int64(offset))
  }

  lemma RecordsOfListed(h: FileHeader, offset: uint64)
    requires NeedsZip64(h, offset) && WellFormed(h.extra)
    ensures Records(Listed(h, offset).extra) == Records(h.extra) + [Zip64Record(h, offset)]
  {
    Zip64ExtraIsRecord(h, offset);
    RecordsConcat(h.extra, Zip64Extra(h, offset));
  }

  // The writer's zip64 record carries no time.
  lemma FoundTimeListed(h: FileHeader, offset: uint64)
    requires WellFormed(h.extra)
    ensures FoundTime(Listed(h, offset).extra) == FoundTime(h.extra)
  {
    hide TakeTime;
    if NeedsZip64(h, offset) {
      RecordsOfListed(h, offset);
      FoldTimeConcat(ZERO, Records(h.extra), [Zip64Record(h, offset)]);
      NoTimeNoChange(FoundTime(h.extra), [Zip64Record(h, offset)]);
    }
  }

  function StartOf(h: FileHeader, offset: uint64): Extras {
    var zip64 := NeedsZip64(h, offset);
    StartExtras(if zip64 then UINT32_MAX else h.compressedSize, if zip64 then UINT32_MAX else h.uncompressedSize,
                if offset > UINT32_MAX then UINT32_MAX else offset)
  }

  // Where the 32-bit fields are saturated, the first zip64 record of the listed extra field
  // says what they cannot.
  predicate Zip64Told(h: FileHeader, offset: uint64) {
    NeedsZip64(h, offset) ==>
      match FirstZip64(Records(Listed(h, offset).extra))
      case None => false
      case Some(r) => Tells(r, h, offset)
  }

  // For a caller's extra field of complete records: there is none in it, or its first is true.
  lemma ToldByCaller(h: FileHeader, offset: uint64)
    requires NeedsZip64(h, offset) && WellFormed(h.extra)
    ensures Zip64Told(h, offset) <==>
            match FirstZip64(Records(h.extra))
            case None => true
            case Some(r) => Tells(r, h, offset)
  {
    hide Tells, Zip64Record;
    var z := Zip64Record(h, offset);
    RecordsOfListed(h, offset);
    WrittenTells(h, offset);
    FirstZip64Concat(Records(h.extra), [z]);
    assert z.tag == ZIP64_EXTRA_ID by { WrittenTag(h, offset); }
  }

  lemma WrittenTag(h: FileHeader, offset: uint64)
    ensures Zip64Record(h, offset).tag == ZIP64_EXTRA_ID
  {
  }

  // What the walk should end with: the true values, nothing needed, the last time.
  function TrueExtras(h: FileHeader, offset: uint64): Extras {
    Extras(h.uncompressedSize64, h.compressedSize64, Int64(offset), false, false, false,
           FoundTime(Listed(h, offset).extra))
  }

  // What the walk over the listed extra field ends with if a size or the offset is saturated.
  lemma WalkSaturated(h: FileHeader, offset: uint64)
    requires NeedsZip64(h, offset)
    ensures
      var w, x := WalkExtras(StartOf(h, offset), Listed(h, offset).extra), TrueExtras(h, offset);
      match FirstZip64(Records(Listed(h, offset).extra))
      case None => w.Ok? && w.value.needCSize
      case Some(r) =>
        if |r.payload| < (if offset >= UINT32_MAX then 24 else 16) then w == Err(ErrFormat)
        else w == Ok(x.(uncompressedSize64 := Get64(r.payload, 0), compressedSize64 := Get64(r.payload, 8),
                        headerOffset := if offset >= UINT32_MAX then Int64(Get64(r.payload, 16)) else offset))
  {
    hide TakeZip64, TakeTime, Get64, Listed, FoldTime, FirstZip64;
    var x, rs := StartOf(h, offset), Records(Listed(h, offset).extra);
    WalkIsFold(x, Listed(h, offset).extra);
    FoldIsFirst(x, rs);
    if FirstZip64(rs).Some? {
      TakeNeeded(x, FirstZip64(rs).value.payload);
    }
  }

  // For every pair of sizes and offset the walk gives the three 64-bit values back and leaves
  // nothing needed, exactly if they were told.
  lemma WalkListed(h: FileHeader, offset: uint64)
    requires SizesAgree(h)
    ensures WalkExtras(StartOf(h, offset), Listed(h, offset).extra) == Ok(TrueExtras(h, offset)) <==>
            Zip64Told(h, offset)
  {
    hide TakeTime, TakeZip64, Get64;
    if NeedsZip64(h, offset) {
      hide Listed, FoundTime;
      WalkSaturated(h, offset);
    } else {
      var x, l := StartOf(h, offset), Listed(h, offset).extra;
      WalkIsFold(x, l);
      FoldWithoutNeeds(x, Records(l));
    }
  }

  // The parts of a complete record, whatever follows it.
  lemma CentralParts(h: FileHeader, offset: uint64, tail: bytes)
    requires LengthsFit(h, offset)
    ensures
      var b, extra := Central(h, offset) + tail, Listed(h, offset).extra;
      var n, m, k := |h.name|, |extra|, |h.comment|;
      && |Central(h, offset)| == DIRECTORY_HEADER_LEN + n + m + k
      && CentralSays(b, h, offset)
      && b[46..46 + n] == h.name && b[46 + n..46 + n + m] == extra && b[46 + n + m..46 + n + m + k] == h.comment
      && b[|Central(h, offset)|..] == tail
  {
    hide CentralSays, CentralFixed;
    CentralFields(h, offset);
    var extra := Listed(h, offset).extra;
    FieldsOfPrefix(CentralFixed(h, offset), h, offset, h.name + extra + h.comment + tail);
    FivePieces(CentralFixed(h, offset), h.name, extra, h.comment, tail);
  }

  lemma FivePieces(f: bytes, n: bytes, m: bytes, k: bytes, t: bytes)
    ensures
      var b := f + n + m + k + t;
      && b == f + (n + m + k + t)
      && b[|f|..|f| + |n|] == n && b[|f| + |n|..|f| + |n| + |m|] == m
      && b[|f| + |n| + |m|..|f| + |n| + |m| + |k|] == k && b[|f| + |n| + |m| + |k|..] == t
  {
  }

  lemma FieldsOfPrefix(a: bytes, h: FileHeader, offset: uint64, c: bytes)
    requires |a| == DIRECTORY_HEADER_LEN && CentralSays(a, h, offset)
    ensures CentralSays(a + c, h, offset)
  {
  }

  // b starts with the complete record of h.
  ghost predicate Holds(b: bytes, h: FileHeader, offset: uint64) {
    var extra := Listed(h, offset).extra;
    var n, m, k := |h.name|, |extra|, |h.comment|;
    && LengthsFit(h, offset)
    && |b| >= DIRECTORY_HEADER_LEN + n + m + k
    && CentralSays(b, h, offset)
    && b[46..46 + n] == h.name && b[46 + n..46 + n + m] == extra && b[46 + n + m..46 + n + m + k] == h.comment
  }

  lemma FileOfHeld(b: bytes, h: FileHeader, offset: uint64, x: Extras)
    requires Holds(b, h, offset) && x.modified == FoundTime(Listed(h, offset).extra)
    ensures RecordLen(b) == DIRECTORY_HEADER_LEN + |h.name| + |Listed(h, offset).extra| + |h.comment|
    ensures
      var f := ReadBack(h, offset);
      FileOf(b, x) ==
      File(f.header.(uncompressedSize64 := x.uncompressedSize64, compressedSize64 := x.compressedSize64),
           x.headerOffset)
  {
    hide Get16, Get32, NonUTF8, ReadModified, FoundTime, Zip64Extra;
  }

  // What a complete record parses to is up to the walk over its extra field.
  lemma ParseByWalk(h: FileHeader, offset: uint64, tail: bytes)
    requires LengthsFit(h, offset)
    ensures
      var b, f := Central(h, offset) + tail, ReadBack(h, offset);
      ParseHeader(b) ==
      match WalkExtras(StartOf(h, offset), Listed(h, offset).extra)
      case Err(e) => Err(e)
      case Ok(x) =>
        if x.needCSize || x.needHeaderOffset then Err(ErrFormat)
        else Ok((File(f.header.(uncompressedSize64 := x.uncompressedSize64, compressedSize64 := x.compressedSize64),
                      x.headerOffset), |Central(h, offset)|))
  {
    hide WalkExtras, FileOf, ReadBack, Central, FoundTime, Get16, Get32, Listed;
    var b := Central(h, offset) + tail;
    CentralParts(h, offset, tail);
    assert Holds(b, h, offset);
    var w := WalkExtras(StartOf(h, offset), Listed(h, offset).extra);
    if w.Ok? {
      WalkFindsTime(StartOf(h, offset), Listed(h, offset).extra);
      FileOfHeld(b, h, offset, w.value);
    } else {
      FileOfHeld(b, h, offset, TrueExtras(h, offset));
    }
  }

  lemma WalkFindsTime(x: Extras, extra: bytes)
    requires x.modified == ZERO
    ensures var w := WalkExtras(x, extra); w.Ok? ==> w.value.modified == FoundTime(extra)
  {
    hide TakeZip64, TakeTime;
    WalkIsFold(x, extra);
    FoldIsFirst(x, Records(extra));
  }

  // The condition for one header to be read back.
  predicate Recoverable(h: FileHeader, offset: uint64) {
    LengthsFit(h, offset) && Zip64Told(h, offset)
  }

  lemma HeaderRoundTrip(h: FileHeader, offset: uint64, tail: bytes)
    requires Recoverable(h, offset) && SizesAgree(h)
    ensures ParseHeader(Central(h, offset) + tail) == Ok((ReadBack(h, offset), |Central(h, offset)|))
  {
    HeaderRoundTripIff(h, offset, tail);
  }

  // The header reads back exactly if name, comment and extra field, the zip64 record included,
  // fit their length fields, and the first zip64 record tells the truth. CreateHeader checks
  // the name and the caller's extra field; nothing checks the comment, the room for the record
  // or what else is in the extra field.
  lemma HeaderRoundTripIff(h: FileHeader, offset: uint64, tail: bytes)
    requires SizesAgree(h)
    ensures ParseHeader(Central(h, offset) + tail) == Ok((ReadBack(h, offset), |Central(h, offset)|)) <==>
            && |h.name| <= UINT16_MAX && |h.comment| <= UINT16_MAX
            && |h.extra| + (if NeedsZip64(h, offset) then 28 else 0) <= UINT16_MAX
            && Zip64Told(h, offset)
  {
    hide ParseHeader, WalkExtras, Central, FoundTime, Zip64Told, Zip64Extra, ReadModified, NonUTF8;
    if LengthsFit(h, offset) {
      ParseByWalk(h, offset, tail);
      WalkListed(h, offset);
      WalkFindsTime(StartOf(h, offset), Listed(h, offset).extra);
      if NeedsZip64(h, offset) {
        WalkSettles(h, offset);
      } else {
        assert Zip64Told(h, offset) by { PlainIsTold(h, offset); }
      }
    } else {
      ParsedLengths(Central(h, offset) + tail);
    }
  }

  lemma PlainIsTold(h: FileHeader, offset: uint64)
    requires !NeedsZip64(h, offset)
    ensures Zip64Told(h, offset)
  {
  }

  // After a walk over saturated values that a header survives, nothing is needed.
  lemma WalkSettles(h: FileHeader, offset: uint64)
    requires NeedsZip64(h, offset)
    ensures var w := WalkExtras(StartOf(h, offset), Listed(h, offset).extra);
            w.Ok? && !w.value.needCSize ==> NoNeeds(w.value)
  {
    hide WalkExtras, Records, Get64;
    WalkSaturated(h, offset);
  }

  // A length field cannot announce more than 65535 bytes.
  lemma ParsedLengths(b: bytes)
    ensures ParseHeader(b).Ok? ==>
              && |ParseHeader(b).value.0.header.name| <= UINT16_MAX
              && |ParseHeader(b).value.0.header.extra| <= UINT16_MAX
              && |ParseHeader(b).value.0.header.comment| <= UINT16_MAX
  {
    hide WalkExtras, NonUTF8, ReadModified;
  }

  // A zip64 record that the caller brought along is the one the reader takes: the writer's
  // own record behind it is never looked at. The header reads back exactly if it is true;
  // too short, it makes the reader refuse the header, and else its values are believed.
  lemma ForeignZip64Wins(h: FileHeader, offset: uint64, r: Record, tail: bytes)
    requires SizesAgree(h) && LengthsFit(h, offset) && NeedsZip64(h, offset)
    requires WellFormed(h.extra) && FirstZip64(Records(h.extra)) == Some(r)
    ensures
      var w, f := ParseHeader(Central(h, offset) + tail), ReadBack(h, offset);
      && (w == Ok((f, |Central(h, offset)|)) <==> Tells(r, h, offset))
      && (|r.payload| < (if offset >= UINT32_MAX then 24 else 16) ==> w == Err(ErrFormat))
      && (|r.payload| >= (if offset >= UINT32_MAX then 24 else 16) ==>
            w == Ok((File(f.header.(uncompressedSize64 := Get64(r.payload, 0), compressedSize64 := Get64(r.payload, 8)),
                          if offset >= UINT32_MAX then Int64(Get64(r.payload, 16)) else offset),
                     |Central(h, offset)|)))
  {
    hide ParseHeader, WalkExtras, Central, FoundTime, ReadBack, Get64, Listed, Records, Tells, Zip64Record, StartOf;
    HeaderRoundTripIff(h, offset, tail);
    ToldByCaller(h, offset);
    ParseByWalk(h, offset, tail);
    WalkSaturated(h, offset);
    FirstOfListed(h, offset);
    assert |Listed(h, offset).extra| == |h.extra| + 28 by { ListedLength(h, offset); }
  }

  lemma FirstOfListed(h: FileHeader, offset: uint64)
    requires NeedsZip64(h, offset) && WellFormed(h.extra)
    ensures FirstZip64(Records(h.extra)).Some? ==>
              FirstZip64(Records(Listed(h, offset).extra)) == FirstZip64(Records(h.extra))
  {
    RecordsOfListed(h, offset);
    FirstZip64Concat(Records(h.extra), [Zip64Record(h, offset)]);
  }

  lemma ListedLength(h: FileHeader, offset: uint64)
    ensures |Listed(h, offset).extra| == |h.extra| + (if NeedsZip64(h, offset) then 28 else 0)
  {
  }

  // An extra field that ends in the start of a record of 28 bytes swallows the writer's
  // record: the reader refuses the header.
  lemma SwallowedZip64(h: FileHeader, offset: uint64, tag: uint16, tail: bytes)
    requires SizesAgree(h) && LengthsFit(h, offset) && NeedsZip64(h, offset)
    requires h.extra == Put16(tag) + Put16(28) && tag != ZIP64_EXTRA_ID
    ensures ParseHeader(Central(h, offset) + tail) == Err(ErrFormat)
  {
    hide ParseHeader, WalkExtras, Central, FoundTime, ReadBack, Put16, Records, Zip64Extra, StartOf, TrueExtras;
    var r := Record(tag, Zip64Extra(h, offset));
    OneRecord(r);
    assert Listed(h, offset).extra == Encode(r);
    assert FirstZip64([r]) == None by { assert [r][1..] == []; }
    ParseByWalk(h, offset, tail);
    WalkSaturated(h, offset);
  }
}
