/**
 Writing the end of an archive and finding it again from the back: end record, zip64 end
 record and locator.
 */
module EndCodec {
  import opened Bytes
  import opened Wrappers
  import opened ZipFormat
  import opened ZipRecords
  import opened ReaderModel

  // The end record the writer emits, with the clamped values when a zip64 record precedes it.
  function EndPart(records: uint64, size: uint64, offset: uint64, comment: bytes): bytes {
    if EndNeedsZip64(records, size, offset) then EndFixed(UINT16_MAX, UINT32_MAX, UINT32_MAX, comment) + comment
    else EndFixed(records, size, offset, comment) + comment
  }

  function Zip64Part(records: uint64, size: uint64, offset: uint64, end: uint64): bytes {
    if EndNeedsZip64(records, size, offset) then Zip64End(records, size, offset) + Zip64Locator(end) else []
  }

  lemma TrailerParts(records: uint64, size: uint64, offset: uint64, end: uint64, comment: bytes)
    ensures Trailer(records, size, offset, end, comment) ==
            Zip64Part(records, size, offset, end) + EndPart(records, size, offset, comment)
  {
    hide Zip64End, Zip64Locator, EndFixed;
    if EndNeedsZip64(records, size, offset) {
      var clamped := EndFixed(UINT16_MAX, UINT32_MAX, UINT32_MAX, comment);
      Associative(Zip64Part(records, size, offset, end), clamped, comment);
    }
  }

  // The two forms of the trailer: just the end record while the number of entries is below
  // 65535 and the size and position of the directory below 2^32 - 1; otherwise an end record
  // with all three fields saturated, behind the zip64 record and its locator.
  lemma TrailerForm(records: uint64, size: uint64, offset: uint64, end: uint64, comment: bytes)
    ensures
      var t := Trailer(records, size, offset, end, comment);
      if records < 0xffff && size < 0xffff_ffff && offset < 0xffff_ffff then
        && |t| == 22 + |comment| && t[22..] == comment
        && Get16(t, 8) == Get16(t, 10) == records && Get32(t, 12) == size && Get32(t, 16) == offset
      else
        && |t| == 98 + |comment| && t[98..] == comment
        && t[..56] == Zip64End(records, size, offset) && t[56..76] == Zip64Locator(end)
        && Get16(t, 84) == Get16(t, 86) == 0xffff && Get32(t, 88) == Get32(t, 92) == 0xffff_ffff
  {
    hide Zip64End, Zip64Locator, EndFixed, Get16, Get32;
    var zip64 := EndNeedsZip64(records, size, offset);
    var r, s, o := if zip64 then UINT16_MAX else records, if zip64 then UINT32_MAX else size,
                   if zip64 then UINT32_MAX else offset;
    EndFields(r, s, o, comment);
    var front := if zip64 then Zip64End(records, size, offset) + Zip64Locator(end) else [];
    assert Trailer(records, size, offset, end, comment) == front + (EndFixed(r, s, o, comment) + comment);
    Middle(front, EndFixed(r, s, o, comment), comment);
  }

  // Nothing behind the start of the end record passes for another one.
  ghost predicate Unambiguous(part: bytes) {
    forall k :: 0 < k ==> !EndAt(part, k)
  }

  lemma EndAtShift(a: bytes, b: bytes, k: nat)
    ensures EndAt(a + b, |a| + k) <==> EndAt(b, k)
  {
    assert forall i :: 0 <= i < |b| ==> (a + b)[|a| + i] == b[i];
  }

  lemma EndPartAccepted(records: uint64, size: uint64, offset: uint64, comment: bytes)
    requires |comment| <= UINT16_MAX
    ensures var part := EndPart(records, size, offset, comment);
            && |part| == DIRECTORY_END_LEN + |comment|
            && EndAt(part, 0)
            && part[DIRECTORY_END_LEN..] == comment
  {
    var r, s, o := if EndNeedsZip64(records, size, offset) then UINT16_MAX else records,
                   if EndNeedsZip64(records, size, offset) then UINT32_MAX else size,
                   if EndNeedsZip64(records, size, offset) then UINT32_MAX else offset;
    EndFields(r, s, o, comment);
  }

  // The search ends at the true end record exactly if nothing later passes for one.
  lemma SearchFindsEnd(front: bytes, records: uint64, size: uint64, offset: uint64, comment: bytes)
    requires |comment| <= UINT16_MAX
    ensures var part := EndPart(records, size, offset, comment);
            LastEnd(front + part) == Some(|front|) <==> Unambiguous(part)
  {
    var part := EndPart(records, size, offset, comment);
    var file := front + part;
    hide EndPart, EndAt;
    EndPartAccepted(records, size, offset, comment);
    forall k: nat
      ensures EndAt(file, |front| + k) <==> EndAt(part, k)
    {
      EndAtShift(front, part, k);
    }
    assert EndAt(file, |front| + 0);
    if Unambiguous(part) {
      forall j | |front| < j <= |file| - DIRECTORY_END_LEN
        ensures !EndAt(file, j)
      {
        assert !EndAt(part, j - |front|);
        assert EndAt(file, |front| + (j - |front|)) <==> EndAt(part, j - |front|);
      }
      LastEndIs(file, |file| - DIRECTORY_END_LEN, SearchFloor(|file|), |front|);
    } else {
      var k :| 0 < k && EndAt(part, k);
      assert EndAt(file, |front| + k);
      EndAtBound(file, |front| + k);
    }
  }

  // A comment of fewer than ten bytes can never be taken for another end record.
  lemma ShortCommentUnambiguous(records: uint64, size: uint64, offset: uint64, comment: bytes)
    requires |comment| < 10
    ensures Unambiguous(EndPart(records, size, offset, comment))
  {
    var part := EndPart(records, size, offset, comment);
    forall k | 0 < k
      ensures !EndAt(part, k)
    {
      if k <= |comment| {
        EndPartStart(records, size, offset, comment);
        assert part[1] == 'K' as int && part[2] == 5 && part[3] == 6;
        assert part[4] == part[5] == part[6] == part[7] == 0;
        assert part[8] == part[10] && part[9] == part[11];
      }
    }
  }

  lemma EndPartStart(records: uint64, size: uint64, offset: uint64, comment: bytes)
    ensures var part := EndPart(records, size, offset, comment);
            && |part| == DIRECTORY_END_LEN + |comment|
            && part[1] == 'K' as int && part[2] == 5 && part[3] == 6
            && part[4] == part[5] == part[6] == part[7] == 0
            && part[8] == part[10] && part[9] == part[11]
  {
  }

  // A comment that ends in a complete end record of its own hides the true one.
  lemma NestedEndHides(front: bytes, records: uint64, size: uint64, offset: uint64, lead: bytes,
                       r: uint16, s: uint32, o: uint32)
    requires |lead| + DIRECTORY_END_LEN <= UINT16_MAX
    ensures var comment := lead + EndFixed(r, s, o, []);
            var file := front + EndPart(records, size, offset, comment);
            && LastEnd(file) == Some(|file| - DIRECTORY_END_LEN)
            && EndRecord(file, |file| - DIRECTORY_END_LEN) == DirectoryEnd(r, s, o, [])
  {
    hide EndFixed, EndPart;
    var inner := EndFixed(r, s, o, []);
    var comment := lead + inner;
    var part := EndPart(records, size, offset, comment);
    EndPartAccepted(records, size, offset, comment);
    var before := front + part[..DIRECTORY_END_LEN] + lead;
    assert front + part == before + (inner + []);
    EmptyEndAccepted(before, r, s, o);
  }

  lemma EmptyEndAccepted(before: bytes, r: uint16, s: uint32, o: uint32)
    ensures var file := before + (EndFixed(r, s, o, []) + []);
            && LastEnd(file) == Some(|before|)
            && EndRecord(file, |before|) == DirectoryEnd(r, s, o, [])
  {
    var inner := EndFixed(r, s, o, []);
    var file := before + (inner + []);
    EndFields(r, s, o, []);
    assert EndAt(inner + [], 0);
    EndAtShift(before, inner + [], 0);
    LastEndIs(file, |file| - DIRECTORY_END_LEN, SearchFloor(|file|), |before|);
    Middle(before, inner, []);
  }

  lemma EndRecordOfPart(front: bytes, records: uint64, size: uint64, offset: uint64, comment: bytes)
    requires |comment| <= UINT16_MAX
    ensures
      var file := front + EndPart(records, size, offset, comment);
      && EndAt(file, |front|)
      && EndRecord(file, |front|) ==
         if EndNeedsZip64(records, size, offset) then DirectoryEnd(UINT16_MAX, UINT32_MAX, UINT32_MAX, comment)
         else DirectoryEnd(records, size, offset, comment)
  {
    var part := EndPart(records, size, offset, comment);
    var file := front + part;
    EndPartAccepted(records, size, offset, comment);
    EndAtShift(front, part, 0);
    var r, s, o := if EndNeedsZip64(records, size, offset) then UINT16_MAX else records,
                   if EndNeedsZip64(records, size, offset) then UINT32_MAX else size,
                   if EndNeedsZip64(records, size, offset) then UINT32_MAX else offset;
    EndFields(r, s, o, comment);
    assert part == EndFixed(r, s, o, comment) + comment;
    Middle(front, EndFixed(r, s, o, comment), comment);
  }

  // The fields of b inside a + b + c, and c itself.
  lemma Middle(a: bytes, b: bytes, c: bytes)
    ensures var f := a + (b + c);
            && (forall i: nat | i + 2 <= |b| :: Get16(f, |a| + i) == Get16(b, i))
            && (forall i: nat | i + 4 <= |b| :: Get32(f, |a| + i) == Get32(b, i))
            && f[|a| + |b|..] == c
  {
  }

  lemma Middle64(a: bytes, b: bytes, c: bytes, i: nat)
    requires i + 8 <= |b|
    ensures Get64(a + (b + c), |a| + i) == Get64(b, i)
  {
  }

  // Behind a directory of exactly 65535 bytes, for which the plain end record sends the reader
  // to look for a zip64 locator: what stands there is none, or leads to a record that happens
  // to say the same.
  ghost predicate PlainEndClear(front: bytes, records: uint64, size: uint64, offset: uint64, comment: bytes) {
    !EndNeedsZip64(records, size, offset) && size == 0xffff ==>
      var p, d := FindEnd64(front, |front|), DirectoryEnd(records, size, offset, comment);
      p < 0 || ReadEnd64(front + EndPart(records, size, offset, comment), p, d) == Ok(d)
  }

  // A later end record has a shorter comment than the true one.
  lemma LaterEndIsShorter(front: bytes, records: uint64, size: uint64, offset: uint64, comment: bytes)
    requires |comment| <= UINT16_MAX && !Unambiguous(EndPart(records, size, offset, comment))
    ensures var r := ReadDirectoryEnd(front + EndPart(records, size, offset, comment));
            r.Ok? ==> |r.value.comment| < |comment|
  {
    var part := EndPart(records, size, offset, comment);
    var file := front + part;
    SearchFindsEnd(front, records, size, offset, comment);
    EndPartAccepted(records, size, offset, comment);
    EndAtShift(front, part, 0);
    hide EndPart, EndAt, FindEnd64, Unambiguous;
    var at := LastEnd(file);
    assert at.Some? && at.value > |front|;
    LaterComment(file, at.value);
  }

  lemma LaterComment(file: bytes, i: nat)
    requires EndAt(file, i)
    ensures |EndRecord(file, i).comment| <= |file| - i - DIRECTORY_END_LEN
  {
  }

  // For every record count, directory size and offset the reader recovers the true 64-bit
  // values from the end of the archive, clamped or not, exactly if the comment holds no later
  // end record and a 65535-byte directory does not end in a misleading locator.
  lemma EndRoundTrip(front: bytes, records: uint64, size: uint64, offset: uint64, comment: bytes)
    requires |comment| <= UINT16_MAX && |front| < INT64_LIMIT && offset <= |front|
    ensures ReadDirectoryEnd(front + Trailer(records, size, offset, |front|, comment)) ==
            Ok(DirectoryEnd(records, size, offset, comment)) <==>
            Unambiguous(EndPart(records, size, offset, comment)) && PlainEndClear(front, records, size, offset, comment)
  {
    hide EndPart, Trailer, Zip64End, Zip64Locator, LastEnd, EndRecord, Unambiguous, FindEnd64, ReadEnd64;
    var part := EndPart(records, size, offset, comment);
    var zip64 := Zip64Part(records, size, offset, |front|);
    var e := front + zip64;
    var file := front + Trailer(records, size, offset, |front|, comment);
    TrailerParts(records, size, offset, |front|, comment);
    Associative(front, zip64, part);
    assert file == e + part;
    if !Unambiguous(part) {
      LaterEndIsShorter(e, records, size, offset, comment);
      return;
    }
    SearchFindsEnd(e, records, size, offset, comment);
    EndRecordOfPart(e, records, size, offset, comment);
    EndPartStart(records, size, offset, comment);
    if EndNeedsZip64(records, size, offset) {
      Zip64EndFound(front, records, size, offset, part);
      Zip64EndRead(front, records, size, offset, part, DirectoryEnd(UINT16_MAX, UINT32_MAX, UINT32_MAX, comment));
      assert file == front + Zip64End(records, size, offset) + Zip64Locator(|front|) + part;
    } else {
      assert e == front;
      BeforeEnd(front, part);
    }
  }

  // Such a locator pointing beyond the file makes the reader give up on the archive.
  lemma FalseLocatorFails(lead: bytes, records: uint64, offset: uint64, comment: bytes)
    requires records < UINT16_MAX && offset < UINT32_MAX && |comment| <= UINT16_MAX
    requires |lead| + DIRECTORY64_LOC_LEN + DIRECTORY_END_LEN + |comment| < INT64_LIMIT
    requires Unambiguous(EndPart(records, 0xffff, offset, comment))
    ensures var front := lead + Zip64Locator(INT64_LIMIT - 1);
            ReadDirectoryEnd(front + Trailer(records, 0xffff, offset, |front|, comment)) == Err(EOF)
  {
    hide EndPart, Trailer, Zip64End, Zip64Locator, LastEnd, EndRecord, Unambiguous, Get32, Get64;
    var b, part := Zip64Locator(INT64_LIMIT - 1), EndPart(records, 0xffff, offset, comment);
    var front := lead + b;
    TrailerParts(records, 0xffff, offset, |front|, comment);
    assert Zip64Part(records, 0xffff, offset, |front|) + part == part;
    SearchFindsEnd(front, records, 0xffff, offset, comment);
    EndRecordOfPart(front, records, 0xffff, offset, comment);
    EndPartStart(records, 0xffff, offset, comment);
    Zip64LocatorFields(INT64_LIMIT - 1);
    Middle(lead, b, part);
    Middle64(lead, b, part, 8);
    assert front + part == lead + (b + part);
    assert Get32(b, 4) == Get32(front + part, |lead| + 4) && Get32(b, 16) == Get32(front + part, |lead| + 16);
    assert Get32(b, 0) == Get32(front + part, |lead| + 0);
  }

  // The locator test reads nothing at or behind the end record.
  lemma BeforeEnd(front: bytes, part: bytes)
    ensures FindEnd64(front + part, |front|) == FindEnd64(front, |front|)
  {
  }

  lemma Zip64EndFound(front: bytes, records: uint64, size: uint64, offset: uint64, part: bytes)
    requires |front| < INT64_LIMIT
    ensures var e := front + Zip64End(records, size, offset) + Zip64Locator(|front|);
            FindEnd64(e + part, |e|) == |front|
  {
    hide Zip64End, Zip64Locator, Get32, Get64;
    var a, b := front + Zip64End(records, size, offset), Zip64Locator(|front|);
    Zip64LocatorFields(|front|);
    Associative(a, b, part);
    Middle(a, b, part);
    Middle64(a, b, part, 8);
    assert |a + b| - DIRECTORY64_LOC_LEN == |a| + 0;
  }

  lemma Zip64EndRead(front: bytes, records: uint64, size: uint64, offset: uint64, part: bytes, d: DirectoryEnd)
    requires |front| < INT64_LIMIT
    ensures ReadEnd64(front + Zip64End(records, size, offset) + Zip64Locator(|front|) + part, |front|, d) ==
            Ok(DirectoryEnd(records, size, offset, d.comment))
  {
    hide Zip64End, Zip64Locator, Get32, Get64;
    var b, c := Zip64End(records, size, offset), Zip64Locator(|front|) + part;
    Zip64EndFields(records, size, offset);
    assert front + b + Zip64Locator(|front|) + part == front + (b + c);
    Middle(front, b, c);
    assert Get32(front + (b + c), |front| + 0) == Get32(b, 0);
    Middle64(front, b, c, 32);
    Middle64(front, b, c, 40);
    Middle64(front, b, c, 48);
  }
}
