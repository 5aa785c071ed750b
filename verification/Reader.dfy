/**
 pkg/util/zip/reader.go in its own imperative form, proved against ReaderModel.dfy. The file
 is an in-memory byte sequence and reads of it do not fail otherwise than by reaching its end.
 */
module Reader {
  import opened Bytes
  import opened Wrappers
  import opened Clock
  import opened ZipFormat
  import opened ReaderModel
  import opened Codecs
  import Crc
  import Utf8

  // io.ReadFull: n bytes of the stream, or the error that says how many were missing.
  method ReadFull(r: ReadBuf, n: nat) returns (b: bytes, err: Option<Error>)
    modifies r
    ensures n <= |old(r.rest)| ==> err.None? && b == old(r.rest)[..n] && r.rest == old(r.rest)[n..]
    ensures n > |old(r.rest)| ==> err == Some(ShortRead(old(r.rest))) && b == [] && r.rest == []
  {
    if n <= |r.rest| {
      b, err := r.rest[..n], None;
      r.rest := r.rest[n..];
    } else {
      b, err := [], Some(if |r.rest| == 0 then EOF else UnexpectedEOF);
      r.rest := [];
    }
  }

  // The zip64 case of the walk: three values, each taken only if it is still wanted.
  method Zip64Case(x: Extras, field: ReadBuf) returns (r: Result<Extras, Error>)
    modifies field
    ensures r == TakeZip64(x, old(field.rest))
  {
    var y := x;
    if y.needUSize {
      y := y.(needUSize := false);
      if |field.rest| < 8 {
        return Err(ErrFormat);
      }
      var v := field.Uint64();
      y := y.(uncompressedSize64 := v);
    }
    if y.needCSize {
      y := y.(needCSize := false);
      if |field.rest| < 8 {
        return Err(ErrFormat);
      }
      var v := field.Uint64();
      y := y.(compressedSize64 := v);
    }
    if y.needHeaderOffset {
      y := y.(needHeaderOffset := false);
      if |field.rest| < 8 {
        return Err(ErrFormat);
      }
      var v := field.Uint64();
      y := y.(headerOffset := Int64(v));
    }
    return Ok(y);
  }

  // The NTFS case: a list of attributes inside the record.
  method NtfsCase(modified: Time, field: ReadBuf) returns (t: Time)
    modifies field
    ensures t == TakeTime(modified, NTFS_EXTRA_ID, old(field.rest))
  {
    t := modified;
    if |field.rest| < 4 {
      return;
    }
    var reserved := field.Uint32();
    ghost var attributes := field.rest;
    while |field.rest| >= 4
      invariant NtfsAttributes(t, field.rest) == NtfsAttributes(modified, attributes)
      decreases |field.rest|
    {
      ghost var here := field.rest;
      var tag := field.Uint16();
      var size := field.Uint16();
      assert field.rest == here[4..] && tag == Get16(here, 0) && size == Get16(here, 2);
      if |field.rest| < size {
        return;
      }
      var attribute := field.Sub(size);
      if tag != 1 || size != 24 {
        continue;
      }
      var v := attribute.Uint64();
      assert v == Get64(here[4..], 0);
      t := NtfsTime(v);
    }
  }

  // The loop parseExtras of readDirectoryHeader.
  method ParseExtras(start: Extras, extra: bytes) returns (r: Result<Extras, Error>)
    ensures r == WalkExtras(start, extra)
  {
    hide TakeZip64, NtfsAttributes;
    var x := start;
    var b := new ReadBuf(extra);
    while |b.rest| >= 4
      invariant fresh(b)
      invariant WalkExtras(x, b.rest) == WalkExtras(start, extra)
      decreases |b.rest|
    {
      ghost var here := b.rest;
      var tag := b.Uint16();
      var size := b.Uint16();
      assert b.rest == here[4..] && tag == Get16(here, 0) && size == Get16(here, 2);
      if |b.rest| < size {
        break;
      }
      var field := b.Sub(size);
      ghost var payload := field.rest;
      if tag == ZIP64_EXTRA_ID {
        var y := Zip64Case(x, field);
        if y.Err? {
          return y;
        }
        x := y.value;
      } else if tag == NTFS_EXTRA_ID {
        var t := NtfsCase(x.modified, field);
        x := x.(modified := t);
      } else if tag == UNIX_EXTRA_ID || tag == INFO_ZIP_UNIX_EXTRA_ID {
        if |field.rest| < 8 {
          continue;
        }
        var accessed := field.Uint32();
        var ts := field.Uint32();
        assert ts == Get32(payload, 4);
        x := x.(modified := Unix(ts, 0));
      } else if tag == EXT_TIME_EXTRA_ID {
        if |field.rest| < 5 {
          continue;
        }
        var flags := field.Uint8();
        if flags % 2 == 0 {
          continue;
        }
        var ts := field.Uint32();
        assert ts == Get32(payload, 1);
        x := x.(modified := Unix(ts, 0));
      }
    }
    return Ok(x);
  }

  // The fixed fields of a central header, in the order they are stored.
  datatype Fixed = Fixed(header: FileHeader, nameLen: uint16, extraLen: uint16, commentLen: uint16, offset: uint32)

  method ReadFixed(b: ReadBuf) returns (f: Fixed)
    requires |b.rest| == DIRECTORY_HEADER_LEN - 4
    modifies b
    ensures var buf := old(b.rest);
            f == Fixed(
              FileHeader([], [], false, Get16(buf, 0), Get16(buf, 2), Get16(buf, 4), Get16(buf, 6), ZERO,
                         Get16(buf, 8), Get16(buf, 10), Get32(buf, 12), Get32(buf, 16), Get32(buf, 20),
                         Get32(buf, 16), Get32(buf, 20), [], Get32(buf, 34)),
              Get16(buf, 24), Get16(buf, 26), Get16(buf, 28), Get32(buf, 38))
  {
    hide Get16, Get32;
    ghost var buf := b.rest;
    AtCursor(buf, 2);
    AtCursor(buf, 4);
    var creatorVersion := b.Uint16();
    var readerVersion := b.Uint16();
    var flags := b.Uint16();
    assert b.rest == buf[6..];
    AtCursor(buf, 6);
    AtCursor(buf, 8);
    AtCursor(buf, 10);
    var compression := b.Uint16();
    var modifiedTime := b.Uint16();
    var modifiedDate := b.Uint16();
    assert b.rest == buf[12..];
    AtCursor(buf, 12);
    AtCursor(buf, 16);
    AtCursor(buf, 20);
    var crc := b.Uint32();
    var csize := b.Uint32();
    var usize := b.Uint32();
    assert b.rest == buf[24..];
    AtCursor(buf, 24);
    AtCursor(buf, 26);
    AtCursor(buf, 28);
    var nameLen := b.Uint16();
    var extraLen := b.Uint16();
    var commentLen := b.Uint16();
    assert b.rest == buf[30..];
    b.Skip(4);
    AtCursor(buf, 34);
    AtCursor(buf, 38);
    var attrs := b.Uint32();
    var offset := b.Uint32();
    f := Fixed(
      FileHeader([], [], false, creatorVersion, readerVersion, flags, compression, ZERO,
                 modifiedTime, modifiedDate, crc, csize, usize, csize, usize, [], attrs),
      nameLen, extraLen, commentLen, offset);
  }

  // A cursor that stands at n reads the fields at n.
  lemma AtCursor(b: bytes, n: nat)
    requires n + 2 <= |b|
    ensures Get16(b[n..], 0) == Get16(b, n)
    ensures n + 4 <= |b| ==> Get32(b[n..], 0) == Get32(b, n)
  {
  }

  method DetectNonUTF8(name: bytes, comment: bytes, flags: uint16) returns (nonUTF8: bool)
    ensures nonUTF8 == NonUTF8(name, comment, flags)
  {
    var valid1, require1 := Utf8.DetectUTF8Loop(name);
    var valid2, require2 := Utf8.DetectUTF8Loop(comment);
    if !valid1 || !valid2 {
      nonUTF8 := true;
    } else if !require1 && !require2 {
      nonUTF8 := false;
    } else {
      nonUTF8 := !Utf8Flag(flags);
    }
  }

  // The fixed part of the record at the start of the stream.
  function FixedOf(stream: bytes): Fixed
    requires |stream| >= DIRECTORY_HEADER_LEN
  {
    Fixed(
      FileHeader([], [], false, Get16(stream, 4), Get16(stream, 6), Get16(stream, 8), Get16(stream, 10), ZERO,
                 Get16(stream, 12), Get16(stream, 14), Get32(stream, 16), Get32(stream, 20), Get32(stream, 24),
                 Get32(stream, 20), Get32(stream, 24), [], Get32(stream, 38)),
      Get16(stream, 28), Get16(stream, 30), Get16(stream, 32), Get32(stream, 42))
  }

  // The file put together from the fixed part, the strings and the walk.
  lemma PutTogether(stream: bytes, d: bytes, x: Extras)
    requires |stream| >= DIRECTORY_HEADER_LEN && |stream| >= RecordLen(stream)
    requires var f := FixedOf(stream); d == stream[DIRECTORY_HEADER_LEN..][..f.nameLen + f.extraLen + f.commentLen]
    ensures
      var f := FixedOf(stream);
      var n, m, h := f.nameLen, f.extraLen, f.header;
      var name, extra, comment := d[..n], d[n..n + m], d[n + m..];
      && extra == stream[46 + n..46 + n + m]
      && FileOf(stream, x) ==
         File(h.(name := name, extra := extra, comment := comment, nonUTF8 := NonUTF8(name, comment, h.flags),
                 modified := ReadModified(h.modifiedDate, h.modifiedTime, x.modified),
                 compressedSize64 := x.compressedSize64, uncompressedSize64 := x.uncompressedSize64),
              x.headerOffset)
  {
    hide NonUTF8, ReadModified, Get16, Get32;
    var f := FixedOf(stream);
    DataFields(stream, d, f.nameLen, f.extraLen, f.commentLen);
  }

  // readDirectoryHeader once the whole record is read: strings, encoding, extra field, time.
  method FinishHeader(fixed: Fixed, d: bytes, ghost stream: bytes) returns (f: File, err: Option<Error>)
    requires |stream| >= DIRECTORY_HEADER_LEN && |stream| >= RecordLen(stream)
    requires Get32(stream, 0) == DIRECTORY_HEADER_SIGNATURE
    requires fixed == FixedOf(stream)
    requires d == stream[DIRECTORY_HEADER_LEN..][..fixed.nameLen + fixed.extraLen + fixed.commentLen]
    ensures match ParseHeader(stream)
            case Ok((file, n)) => err.None? && f == file && n == RecordLen(stream)
            case Err(e) => err == Some(e)
  {
    hide WalkExtras, NonUTF8, ReadModified, Get16, Get32, FileOf;
    var name := d[..fixed.nameLen];
    var extra := d[fixed.nameLen..fixed.nameLen + fixed.extraLen];
    var comment := d[fixed.nameLen + fixed.extraLen..];
    var nonUTF8 := DetectNonUTF8(name, comment, fixed.header.flags);
    var h := fixed.header.(name := name, extra := extra, comment := comment, nonUTF8 := nonUTF8);
    f := File(h, fixed.offset);
    var walked := ParseExtras(StartExtras(h.compressedSize, h.uncompressedSize, fixed.offset), extra);
    if walked.Err? {
      PutTogether(stream, d, StartExtras(0, 0, 0));
      return f, Some(walked.error);
    }
    var x := walked.value;
    PutTogether(stream, d, x);
    h := h.(modified := ReadModified(h.modifiedDate, h.modifiedTime, x.modified),
            compressedSize64 := x.compressedSize64, uncompressedSize64 := x.uncompressedSize64);
    if x.needCSize || x.needHeaderOffset {
      return f, Some(ErrFormat);
    }
    return File(h, x.headerOffset), None;
  }

  lemma DropTwice(s: bytes, i: nat, j: nat)
    requires i + j <= |s|
    ensures s[i..][j..] == s[i + j..]
  {
  }

  // readDirectoryHeader on the stream r.
  method ReadDirectoryHeader(r: ReadBuf) returns (f: File, err: Option<Error>)
    modifies r
    ensures match ParseHeader(old(r.rest))
            case Ok((file, n)) => err.None? && f == file && r.rest == old(r.rest)[n..]
            case Err(e) => err == Some(e)
  {
    hide WalkExtras, Get16, Get32, FileOf;
    ghost var stream := r.rest;
    var none := FileHeader([], [], false, 0, 0, 0, 0, ZERO, 0, 0, 0, 0, 0, 0, 0, [], 0);
    f := File(none, 0);
    var buf, readErr := ReadFull(r, DIRECTORY_HEADER_LEN);
    if readErr.Some? {
      return f, readErr;
    }
    var b := new ReadBuf(buf);
    var sig := b.Uint32();
    assert sig == Get32(stream, 0) by { SameStart(stream, buf); }
    if sig != DIRECTORY_HEADER_SIGNATURE {
      return f, Some(ErrFormat);
    }
    var fixed := ReadFixed(b);
    assert fixed == FixedOf(stream) by { FixedFields(stream, buf); }
    var len := fixed.nameLen + fixed.extraLen + fixed.commentLen;
    assert RecordLen(stream) == DIRECTORY_HEADER_LEN + len;
    var d, dErr := ReadFull(r, len);
    if dErr.Some? {
      return f, dErr;
    }
    DropTwice(stream, DIRECTORY_HEADER_LEN, len);
    hide ParseHeader, FixedOf, RecordLen;
    f, err := FinishHeader(fixed, d, stream);
  }

  lemma SameStart(stream: bytes, buf: bytes)
    requires |stream| >= DIRECTORY_HEADER_LEN && buf == stream[..DIRECTORY_HEADER_LEN]
    ensures Get32(buf, 0) == Get32(stream, 0)
  {
  }

  // The fixed fields, seen from the start of the stream.
  lemma FixedFields(stream: bytes, buf: bytes)
    requires |stream| >= DIRECTORY_HEADER_LEN && buf == stream[..DIRECTORY_HEADER_LEN]
    ensures forall i | 0 <= i <= 40 :: Get16(buf[4..], i) == Get16(stream, 4 + i)
    ensures forall i | 0 <= i <= 38 :: Get32(buf[4..], i) == Get32(stream, 4 + i)
  {
  }

  lemma DataFields(stream: bytes, d: bytes, n: nat, m: nat, k: nat)
    requires |stream| >= DIRECTORY_HEADER_LEN + n + m + k && d == stream[DIRECTORY_HEADER_LEN..][..n + m + k]
    ensures d[..n] == stream[46..46 + n]
    ensures d[n..n + m] == stream[46 + n..46 + n + m]
    ensures d[n + m..] == stream[46 + n + m..46 + n + m + k]
  {
    var len := n + m + k;
    assert stream[46..] == stream[46..|stream|] && stream[46..][..len] == stream[46..|stream|][0..len];
    PartOfPart(stream, 46, |stream| - 46, 0, len);
    assert d == stream[46..46 + len];
    PartOfPart(stream, 46, n + m + k, 0, n);
    PartOfPart(stream, 46, n + m + k, n, n + m);
    PartOfPart(stream, 46, n + m + k, n + m, n + m + k);
    assert d[..n] == d[0..n] && d[n + m..] == d[n + m..n + m + k];
  }

  lemma PartOfPart(s: bytes, at: nat, len: nat, lo: nat, hi: nat)
    requires lo <= hi <= len && at + len <= |s|
    ensures s[at..at + len][lo..hi] == s[at + lo..at + hi]
  {
    var a, b := s[at..at + len][lo..hi], s[at + lo..at + hi];
    forall i | 0 <= i < hi - lo
      ensures a[i] == b[i]
    {
      assert a[i] == s[at..at + len][lo + i] == s[at + lo + i];
    }
    assert a == b;
  }

  // findSignatureInBlock: the last acceptable end record in the block, or -1.
  method FindSignatureInBlock(b: bytes) returns (p: int)
    ensures p < 0 ==> p == -1 && forall j :: !EndAt(b, j)
    ensures p >= 0 ==> EndAt(b, p) && forall j :: p < j ==> !EndAt(b, j)
  {
    var i := |b| - DIRECTORY_END_LEN;
    while i >= 0
      invariant i <= |b| - DIRECTORY_END_LEN
      invariant forall j :: i < j ==> !EndAt(b, j)
    {
      if b[i] == 'P' as int && b[i + 1] == 'K' as int && b[i + 2] == 5 && b[i + 3] == 6 {
        var n := b[i + DIRECTORY_END_LEN - 2] + b[i + DIRECTORY_END_LEN - 1] as int * 0x100;
        if n + DIRECTORY_END_LEN + i <= |b| {
          return i;
        }
      }
      i := i - 1;
    }
    return -1;
  }

  // What a search of the end of the file says about the file.
  lemma BlockSearched(file: bytes, lo: nat, q: int)
    requires lo <= |file|
    requires q < 0 ==> forall j :: !EndAt(file[lo..], j)
    requires q >= 0 ==> EndAt(file[lo..], q) && forall j :: q < j ==> !EndAt(file[lo..], j)
    ensures LastEndDown(file, |file| - DIRECTORY_END_LEN, lo) == if q < 0 then None else Some(lo + q)
  {
    forall j | lo <= j
      ensures EndAt(file, j) <==> EndAt(file[lo..], j - lo)
    {
      EndAtInBlock(file, lo, j - lo);
    }
    hide EndAt;
    if q >= 0 {
      assert EndAt(file, lo + q);
      EndAtBound(file, lo + q);
      LastEndIs(file, |file| - DIRECTORY_END_LEN, lo, lo + q);
    }
  }

  // An end record in the block is one in the file, and the other way round.
  lemma EndAtInBlock(file: bytes, lo: nat, p: int)
    requires lo <= |file| && 0 <= p
    ensures EndAt(file[lo..], p) <==> EndAt(file, lo + p)
  {
  }

  // The last end record in the last bLen bytes of the file.
  method SearchWindow(file: bytes, bLen: nat) returns (p: Option<nat>)
    requires bLen <= |file|
    ensures p == LastEndDown(file, |file| - DIRECTORY_END_LEN, |file| - bLen)
  {
    hide EndAt, LastEndDown;
    var lo := |file| - bLen;
    var q := FindSignatureInBlock(file[lo..]);
    BlockSearched(file, lo, q);
    return if q < 0 then None else Some(lo + q);
  }

  // What is last in a window is last in a wider one.
  lemma WiderWindow(file: bytes, lo: nat, wide: nat)
    requires wide <= lo
    ensures var i := |file| - DIRECTORY_END_LEN;
            LastEndDown(file, i, lo).Some? ==> LastEndDown(file, i, wide) == LastEndDown(file, i, lo)
  {
    hide EndAt;
    var i := |file| - DIRECTORY_END_LEN;
    if LastEndDown(file, i, lo).Some? {
      LastEndIs(file, i, wide, LastEndDown(file, i, lo).value);
    }
  }

  // The search of readDirectoryEnd: the last 1 KiB, and only if that has no end record the
  // last 65 KiB. It finds what one scan of the last 65 KiB would find.
  method SearchEnd(file: bytes) returns (p: Option<nat>)
    ensures p == LastEnd(file)
  {
    hide EndAt, LastEndDown;
    var size := |file|;
    for i := 0 to 2
      invariant i == 1 ==> size > 1024
      invariant i < 2
    {
      var bLen := if i == 0 then 1024 else 65 * 1024;
      if bLen > size {
        bLen := size;
      }
      p := SearchWindow(file, bLen);
      if p.Some? {
        WiderWindow(file, size - bLen, SearchFloor(size));
        return p;
      }
      if i == 1 || bLen == size {
        return None;
      }
    }
    assert false;
  }

  method FindDirectory64End(file: bytes, directoryEndOffset: nat) returns (p: int)
    requires directoryEndOffset <= |file|
    ensures p == FindEnd64(file, directoryEndOffset)
  {
    var locOffset := directoryEndOffset - DIRECTORY64_LOC_LEN;
    if locOffset < 0 {
      return -1;
    }
    ghost var buf := file[locOffset..locOffset + DIRECTORY64_LOC_LEN];
    var b := new ReadBuf(file[locOffset..locOffset + DIRECTORY64_LOC_LEN]);
    var sig := b.Uint32();
    assert sig == Get32(file, locOffset);
    if sig != DIRECTORY64_LOC_SIGNATURE {
      return -1;
    }
    var disk := b.Uint32();
    assert disk == Get32(file, locOffset + 4);
    if disk != 0 {
      return -1;
    }
    var v := b.Uint64();
    assert b.rest == buf[16..];
    assert v == Get64(file, locOffset + 8);
    var disks := b.Uint32();
    if disks != 1 {
      return -1;
    }
    return Int64(v);
  }

  method ReadDirectory64End(file: bytes, offset: nat, d: DirectoryEnd) returns (r: Result<DirectoryEnd, Error>)
    ensures r == ReadEnd64(file, offset, d)
  {
    hide Get64;
    if offset + DIRECTORY64_END_LEN > |file| {
      return Err(EOF);
    }
    ghost var buf := file[offset..offset + DIRECTORY64_END_LEN];
    var b := new ReadBuf(file[offset..offset + DIRECTORY64_END_LEN]);
    var sig := b.Uint32();
    assert sig == Get32(file, offset);
    if sig != DIRECTORY64_END_SIGNATURE {
      return Err(ErrFormat);
    }
    b.Skip(12);
    var diskNbr := b.Uint32();
    var dirDiskNbr := b.Uint32();
    var recordsThisDisk := b.Uint64();
    assert b.rest == file[offset + 32..offset + 56];
    var records := b.Uint64();
    assert b.rest == file[offset + 40..offset + 56];
    var size := b.Uint64();
    assert b.rest == file[offset + 48..offset + 56];
    var start := b.Uint64();
    GetSlice(file, offset + 32, offset + 56, 0);
    GetSlice(file, offset + 40, offset + 56, 0);
    GetSlice(file, offset + 48, offset + 56, 0);
    return Ok(DirectoryEnd(records, size, start, d.comment));
  }

  // The end record at the start of buf; its comment is known to fit.
  method ReadEndRecord(file: bytes, i: nat) returns (d: DirectoryEnd)
    requires EndAt(file, i)
    ensures d == EndRecord(file, i)
  {
    hide Get16, Get32;
    AtCursor(file, i + 10);
    AtCursor(file, i + 12);
    AtCursor(file, i + 16);
    AtCursor(file, i + 20);
    var b := new ReadBuf(file[i..]);
    b.Skip(4);
    var diskNbr := b.Uint16();
    var dirDiskNbr := b.Uint16();
    var recordsThisDisk := b.Uint16();
    assert b.rest == file[i + 10..];
    var records := b.Uint16();
    assert b.rest == file[i + 12..];
    var size := b.Uint32();
    assert b.rest == file[i + 16..];
    var offset := b.Uint32();
    assert b.rest == file[i + 20..];
    var l := b.Uint16();
    assert b.rest == file[i + 22..];
    if l > |b.rest| {
      // zip: invalid comment length
      assert false;
    }
    d := DirectoryEnd(records, size, offset, b.rest[..l]);
  }

  method ReadDirectoryEndOf(file: bytes) returns (r: Result<DirectoryEnd, Error>)
    ensures r == ReadDirectoryEnd(file)
  {
    var found := SearchEnd(file);
    if found.None? {
      return Err(ErrFormat);
    }
    var d := ReadEndRecord(file, found.value);
    if d.directoryRecords == 0xffff || d.directorySize == 0xffff || d.directoryOffset == 0xffffffff {
      var p := FindDirectory64End(file, found.value);
      if p >= 0 {
        r := ReadDirectory64End(file, p, d);
        if r.Err? {
          return;
        }
        d := r.value;
      }
    }
    var o := Int64(d.directoryOffset);
    if o < 0 || o >= |file| {
      return Err(ErrFormat);
    }
    return Ok(d);
  }

  /** Reader: the files and the comment of an archive. */
  class Reader {
    var files: seq<File>
    var comment: bytes

    constructor ()
      ensures files == [] && comment == []
    {
      files, comment := [], [];
    }

    // NewReader and init. The loop goes on until a header does not parse, and only then is
    // the number of files compared, modulo 65536.
    method Init(file: bytes) returns (err: Option<Error>)
      modifies this
      ensures match ReaderModel.Init(file)
              case Ok(a) => err.None? && files == a.files && comment == a.comment
              case Err(e) => err == Some(e)
    {
      hide ParseHeader, ReadDirectoryEnd;
      var ended := ReadDirectoryEndOf(file);
      if ended.Err? {
        return Some(ended.error);
      }
      var end := ended.value;
      if end.directoryRecords > |file| / FILE_HEADER_LEN {
        return Some(ErrImpossibleCount(end.directoryRecords, |file|));
      }
      files, comment := [], end.comment;
      assert 0 <= Int64(end.directoryOffset) < |file| by { EndInFile(file); }
      var buf := new ReadBuf(file[Int64(end.directoryOffset)..]);
      ghost var start := buf.rest;
      assert files + ReadHeaders(start).0 == ReadHeaders(start).0;
      while true
        invariant fresh(buf) && comment == end.comment
        invariant ReadHeaders(start) == (files + ReadHeaders(buf.rest).0, ReadHeaders(buf.rest).1)
        decreases |buf.rest|
      {
        ghost var here := buf.rest;
        var f, e := ReadDirectoryHeader(buf);
        if e == Some(ErrFormat) || e == Some(UnexpectedEOF) {
          err := e;
          break;
        }
        if e.Some? {
          return e;
        }
        ghost var tail := ReadHeaders(buf.rest).0;
        assert files + ([f] + tail) == files + [f] + tail;
        files := files + [f];
      }
      if Uint16(|files|) != Uint16(end.directoryRecords) {
        return err;
      }
      return None;
    }
  }

  lemma EndInFile(file: bytes)
    ensures ReadDirectoryEnd(file).Ok? ==> 0 <= Int64(ReadDirectoryEnd(file).value.directoryOffset) < |file|
  {
  }

  // ---- contents ----

  method FindBodyOffset(file: bytes, headerOffset: int) returns (r: Result<nat, Error>)
    ensures r == BodyOffset(file, headerOffset)
  {
    if headerOffset < 0 {
      return Err(ErrBadOffset);
    }
    if headerOffset + FILE_HEADER_LEN > |file| {
      return Err(EOF);
    }
    ghost var buf := file[headerOffset..headerOffset + FILE_HEADER_LEN];
    var b := new ReadBuf(file[headerOffset..headerOffset + FILE_HEADER_LEN]);
    var sig := b.Uint32();
    assert sig == Get32(file, headerOffset);
    if sig != FILE_HEADER_SIGNATURE {
      return Err(ErrFormat);
    }
    b.Skip(22);
    assert b.rest == buf[26..];
    var filenameLen := b.Uint16();
    var extraLen := b.Uint16();
    return Ok(FILE_HEADER_LEN + filenameLen + extraLen);
  }

  // DataOffset: where the data of a file starts.
  method DataOffset(file: bytes, f: File) returns (r: Result<int, Error>)
    ensures r == match BodyOffset(file, f.headerOffset)
                 case Err(e) => Err(e)
                 case Ok(n) => Ok(f.headerOffset + n)
  {
    var body := FindBodyOffset(file, f.headerOffset);
    if body.Err? {
      return Err(body.error);
    }
    return Ok(f.headerOffset + body.value);
  }

  method ReadDataDescriptor(r: ReadBuf, crc: uint32) returns (err: Option<Error>)
    modifies r
    ensures err == DescriptorError(old(r.rest), crc)
  {
    ghost var all := r.rest;
    var buf, readErr := ReadFull(r, 4);
    if readErr.Some? {
      return readErr;
    }
    var maybeSig := new ReadBuf(buf);
    var sig := maybeSig.Uint32();
    assert sig == Get32(all, 0);
    var off := 0;
    if sig != DATA_DESCRIPTOR_SIGNATURE {
      off := 4;
    }
    var more, moreErr := ReadFull(r, 12 - off);
    if moreErr.Some? {
      return moreErr;
    }
    var b := new ReadBuf(buf[..off] + more);
    assert off == 0 ==> b.rest == all[4..16];
    assert off == 4 ==> b.rest == all[..12];
    var got := b.Uint32();
    if got != crc {
      return Some(ErrChecksum);
    }
    return None;
  }

  /** checksumReader. What the underlying reader answers to a Read is a parameter. */
  class ChecksumReader {
    var hash: Crc.Hash
    var nread: uint64
    var err: Option<Error>    // sticky error
    const header: FileHeader
    const descriptor: Option<Result<bytes, Error>>

    function State(): Check
      reads this
    {
      Check(hash, nread, err)
    }

    constructor (header: FileHeader, descriptor: Option<Result<bytes, Error>>)
      ensures this.header == header && this.descriptor == descriptor && State() == NEW_CHECK
    {
      this.header, this.descriptor := header, descriptor;
      hash, nread, err := Crc.NEW_IEEE, 0, None;
    }

    method Read(got: Delivery) returns (r: Delivery)
      modifies this
      ensures (State(), r) == CheckStep(header, descriptor, old(State()), got)
    {
      hide Crc.Feed, Crc.Sum32, DescriptorError;
      if err.Some? {
        return Delivery([], err);
      }
      hash := Crc.Feed(hash, got.data);
      nread := Uint64(nread + |got.data|);
      if got.err.None? {
        return got;
      }
      var e := got.err.value;
      if e == EOF {
        if nread != header.uncompressedSize64 {
          return Delivery([], Some(UnexpectedEOF));
        }
        if descriptor.Some? {
          var err1 := DescriptorProblem();
          if err1.Some? {
            if err1.value == EOF {
              e := UnexpectedEOF;
            } else {
              e := err1.value;
            }
          } else if Crc.Sum32(hash) != header.crc32 {
            e := ErrChecksum;
          }
        } else {
          if header.crc32 != 0 && Crc.Sum32(hash) != header.crc32 {
            e := ErrChecksum;
          }
        }
      }
      err := Some(e);
      return Delivery(got.data, Some(e));
    }

    // readDataDescriptor on the section the descriptor is read from.
    method DescriptorProblem() returns (e: Option<Error>)
      requires descriptor.Some?
      ensures e == match descriptor.value
                   case Err(x) => Some(x)
                   case Ok(b) => DescriptorError(b, header.crc32)
    {
      if descriptor.value.Err? {
        return Some(descriptor.value.error);
      }
      var r := new ReadBuf(descriptor.value.value);
      e := ReadDataDescriptor(r, header.crc32);
    }
  }

  // Open: the plain contents and a checksum reader to read them through.
  method OpenFile(file: bytes, f: File, decompressors: map<uint16, Decompressor>)
    returns (r: Result<Opened, Error>, reader: ChecksumReader?)
    ensures r == OpenAt(file, f, decompressors)
    ensures r.Ok? ==> reader != null && fresh(reader) && reader.State() == NEW_CHECK
                      && reader.header == f.header && reader.descriptor == r.value.descriptor
  {
    reader := null;
    var body := FindBodyOffset(file, f.headerOffset);
    if body.Err? {
      return Err(body.error), null;
    }
    var start, size := f.headerOffset + body.value, Int64(f.header.compressedSize64);
    var packed := Section(file, start, size);
    if f.header.compression !in decompressors {
      return Err(ErrAlgorithm), null;
    }
    var descriptor: Option<Result<bytes, Error>> := None;
    if f.header.HasDataDescriptor() {
      descriptor := Some(DescriptorSection(file, start + size));
    }
    reader := new ChecksumReader(f.header, descriptor);
    return Ok(Opened(decompressors[f.header.compression](packed), descriptor)), reader;
  }
}
