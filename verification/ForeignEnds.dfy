/**
 The end of an archive of any origin: what the reader makes of the end record, the zip64
 locator and the zip64 end record, said by their bytes.
 */
module ForeignEnds {
  import opened Bytes
  import opened Wrappers
  import opened ZipFormat
  import opened ZipRecords
  import opened ReaderModel
  import opened EndCodec

  // End of central directory record (section 4.3.16) with all its fields.
  function EndBytes(disk: uint16, start: uint16, here: uint16, total: uint16, size: uint32, offset: uint32,
                    comment: bytes): bytes
    requires |comment| <= 65535
  {
    ['P' as int, 'K' as int, 5, 6] + Put16(disk) + Put16(start) + Put16(here) + Put16(total) +
    Put32(size) + Put32(offset) + Put16(|comment|)
  }

  // Of an end record the total count of entries, the size, the position and the comment
  // matter; neither the numbers of disks do nor the count of entries on this one.
  lemma EndBytesRead(front: bytes, disk: uint16, start: uint16, here: uint16, total: uint16, size: uint32,
                     offset: uint32, comment: bytes, rest: bytes)
    requires |comment| <= 65535
    ensures var file := front + (EndBytes(disk, start, here, total, size, offset, comment) + (comment + rest));
            && EndAt(file, |front|)
            && EndRecord(file, |front|) == DirectoryEnd(total, size, offset, comment)
  {
    hide Get16, Get32, EndBytes;
    var b := EndBytes(disk, start, here, total, size, offset, comment);
    var file := front + (b + (comment + rest));
    EndBytesFields(disk, start, here, total, size, offset, comment);
    Middle(front, b, comment + rest);
    assert file[|front| + 22..] == comment + rest;
    assert file[|front| + 22..|front| + 22 + |comment|] == comment;
    assert forall i :: 0 <= i < 4 ==> file[|front| + i] == b[i];
  }

  lemma EndBytesFields(disk: uint16, start: uint16, here: uint16, total: uint16, size: uint32, offset: uint32,
                       comment: bytes)
    requires |comment| <= 65535
    ensures
      var b := EndBytes(disk, start, here, total, size, offset, comment);
      && |b| == 22 && b[0] == 'P' as int && b[1] == 'K' as int && b[2] == 5 && b[3] == 6
      && Get16(b, 10) == total && Get32(b, 12) == size && Get32(b, 16) == offset && Get16(b, 20) == |comment|
  {
  }

  // Zip64 end of central directory record (section 4.3.14): its own length, two versions, two
  // numbers of disks, then the values.
  function Zip64Bytes(length: uint64, made: uint16, needed: uint16, disk: uint32, start: uint32, here: uint64,
                      total: uint64, size: uint64, offset: uint64): (b: bytes)
    ensures |b| == 56
  {
    Put32(0x06064b50) + Put64(length) + Put16(made) + Put16(needed) + Put32(disk) + Put32(start) +
    Put64(here) + Put64(total) + Put64(size) + Put64(offset)
  }

  lemma Zip64BytesFields(length: uint64, made: uint16, needed: uint16, disk: uint32, start: uint32, here: uint64,
                         total: uint64, size: uint64, offset: uint64)
    ensures
      var b := Zip64Bytes(length, made, needed, disk, start, here, total, size, offset);
      Get32(b, 0) == 0x06064b50 && Get64(b, 32) == total && Get64(b, 40) == size && Get64(b, 48) == offset
  {
    hide Put64, Get64;
    var a := Put32(0x06064b50) + Put64(length) + Put16(made) + Put16(needed) + Put32(disk) + Put32(start) + Put64(here);
    var b := Zip64Bytes(length, made, needed, disk, start, here, total, size, offset);
    GetPut64(a, total, Put64(size) + Put64(offset));
    GetPut64(a + Put64(total), size, Put64(offset));
    GetPut64(a + Put64(total) + Put64(size), offset, []);
    assert b == a + Put64(total) + (Put64(size) + Put64(offset));
    assert b == a + Put64(total) + Put64(size) + Put64(offset) + [];
  }

  lemma Zip64BytesRead(front: bytes, length: uint64, made: uint16, needed: uint16, disk: uint32, start: uint32,
                       here: uint64, total: uint64, size: uint64, offset: uint64, rest: bytes, d: DirectoryEnd)
    ensures
      var file := front + (Zip64Bytes(length, made, needed, disk, start, here, total, size, offset) + rest);
      ReadEnd64(file, |front|, d) == Ok(DirectoryEnd(total, size, offset, d.comment))
  {
    hide Zip64Bytes, Get32, Get64;
    var b := Zip64Bytes(length, made, needed, disk, start, here, total, size, offset);
    Zip64BytesFields(length, made, needed, disk, start, here, total, size, offset);
    Middle(front, b, rest);
    assert Get32(front + (b + rest), |front| + 0) == Get32(b, 0);
    Middle64(front, b, rest, 32);
    Middle64(front, b, rest, 40);
    Middle64(front, b, rest, 48);
  }

  // A zip64 end record is refused exactly if it does not fit in the file or does not begin
  // with the signature.
  lemma Zip64Refused(file: bytes, p: nat, d: DirectoryEnd)
    ensures ReadEnd64(file, p, d).Ok? <==> p + 56 <= |file| && file[p..p + 4] == ['P' as int, 'K' as int, 6, 6]
    ensures ReadEnd64(file, p, d).Err? ==> ReadEnd64(file, p, d).error == if p + 56 > |file| then EOF else ErrFormat
  {
    hide Get64;
    if p + 56 <= |file| {
      FourBytes(file, p, 0x06064b50);
    }
  }

  lemma FourBytes(b: bytes, i: nat, v: uint32)
    requires i + 4 <= |b|
    ensures Get32(b, i) == v <==> b[i..i + 4] == [v % 0x100, v / 0x100 % 0x100, v / 0x1_0000 % 0x100, v / 0x100_0000]
  {
    hide Put32, Get32;
    LittleEndian(v);
    PutGet32(b, i);
    GetPut32([], v, []);
    assert [] + Put32(v) + [] == Put32(v);
    GetSlice(b, i, i + 4, 0);
  }

  // The 20 bytes in front of an end record are a locator on the first and only disk, whatever
  // position it gives, or there is none.
  lemma LocatorTest(file: bytes, i: nat)
    requires i <= |file|
    ensures i < 20 ==> FindEnd64(file, i) == -1
    ensures forall p: uint64 :: i >= 20 && file[i - 20..i] == Zip64Locator(p) ==> FindEnd64(file, i) == Int64(p)
    ensures (forall p: uint64 :: i >= 20 ==> file[i - 20..i] != Zip64Locator(p)) ==> FindEnd64(file, i) == -1
  {
    if i >= 20 {
      LocatorFields(file, i);
    }
  }

  lemma LocatorFields(file: bytes, i: nat)
    requires 20 <= i <= |file|
    ensures forall p: uint64 :: file[i - 20..i] == Zip64Locator(p) ==> FindEnd64(file, i) == Int64(p)
    ensures (forall p: uint64 :: file[i - 20..i] != Zip64Locator(p)) ==> FindEnd64(file, i) == -1
  {
    hide Zip64Locator, Get32, Get64;
    var b := file[i - 20..i];
    GetSlice(file, i - 20, i, 0);
    GetSlice(file, i - 20, i, 4);
    GetSlice(file, i - 20, i, 8);
    GetSlice(file, i - 20, i, 16);
    forall p: uint64 | b == Zip64Locator(p)
      ensures FindEnd64(file, i) == Int64(p)
    {
      Zip64LocatorFields(p);
    }
    if Get32(b, 0) == 0x07064b50 && Get32(b, 4) == 0 && Get32(b, 16) == 1 {
      LocatorOfFields(b);
    }
  }

  lemma LocatorOfFields(b: bytes)
    requires |b| == 20 && Get32(b, 0) == 0x07064b50 && Get32(b, 4) == 0 && Get32(b, 16) == 1
    ensures b == Zip64Locator(Get64(b, 8))
  {
    hide Put32, Put64, Get32, Get64;
    PutGet32(b, 0);
    PutGet32(b, 4);
    PutGet64(b, 8);
    PutGet32(b, 16);
    assert b == b[0..4] + b[4..8] + b[8..16] + b[16..20];
  }

  // An archive of another tool that ends in a zip64 end record, its locator and an end record:
  // the 64-bit values count as soon as one of the three fields of the end record is saturated.
  // (The size counts as saturated at 65535, which is what the code compares with.)
  lemma Zip64Counts(front: bytes, made: uint16, total64: uint64, size64: uint64, offset64: uint64,
                    total: uint16, size: uint32, offset: uint32, comment: bytes)
    requires |comment| <= 65535 && |front| < INT64_LIMIT
    ensures
      var e := front + Zip64Bytes(44, made, 45, 0, 0, total64, total64, size64, offset64) + Zip64Locator(|front|);
      var file := e + (EndBytes(0, 0, total, total, size, offset, comment) + (comment + []));
      && EndAt(file, |e|)
      && Upgraded(file, |e|, EndRecord(file, |e|)) ==
         Ok(if total == 0xffff || size == 0xffff || offset == 0xffff_ffff
            then DirectoryEnd(total64, size64, offset64, comment)
            else DirectoryEnd(total, size, offset, comment))
  {
    hide Zip64Bytes, Zip64Locator, EndBytes, ReadEnd64, EndAt, EndRecord, FindEnd64;
    var b, c := Zip64Bytes(44, made, 45, 0, 0, total64, total64, size64, offset64), Zip64Locator(|front|);
    var e := front + b + c;
    var tail := EndBytes(0, 0, total, total, size, offset, comment) + (comment + []);
    EndBytesRead(e, 0, 0, total, total, size, offset, comment, []);
    assert (e + tail)[|e| - 20..|e|] == c;
    LocatorTest(e + tail, |e|);
    Associative(front, b, c);
    assert e + tail == front + (b + (c + tail));
    Zip64BytesRead(front, 44, made, 45, 0, 0, total64, total64, size64, offset64, c + tail,
                   DirectoryEnd(total, size, offset, comment));
  }

  // What makes the reader give up on a file, and with which error.
  lemma EndRefused(file: bytes)
    ensures LastEnd(file).None? ==> ReadDirectoryEnd(file) == Err(ErrFormat)
    ensures LastEnd(file).Some? ==>
              var d := Upgraded(file, LastEnd(file).value, EndRecord(file, LastEnd(file).value));
              ReadDirectoryEnd(file) ==
              if d.Ok? && (d.value.directoryOffset >= |file| || d.value.directoryOffset >= INT64_LIMIT)
              then Err(ErrFormat) else d
  {
    hide LastEnd, Upgraded, EndRecord;
  }
}
