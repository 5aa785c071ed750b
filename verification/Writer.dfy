/**
 pkg/util/zip/writer.go in its own imperative form. Every operation is proved to do to the
 abstract state what the function of the same name in WriterModel.dfy does.
 */
module Writer {
  import opened Bytes
  import opened Wrappers
  import opened Clock
  import opened ZipFormat
  import opened ZipRecords
  import opened Codecs
  import opened WriterModel
  import Crc
  import Utf8

  /** The object behind a *FileHeader: the caller's header, which the writer fills in. */
  class HeaderCell {
    var value: FileHeader
    ghost var slot: nat    // its place in the directory, once it is there

    constructor (value: FileHeader)
      ensures this.value == value
    {
      this.value := value;
    }
  }

  /** countWriter over a sink that accepts everything. */
  class CountWriter {
    var out: bytes
    var count: int

    constructor ()
      ensures out == [] && count == 0
    {
      out, count := [], 0;
    }

    method Write(p: bytes)
      modifies this
      ensures out == old(out) + p && count == old(count) + |p|
    {
      out := out + p;
      count := count + |p|;
    }
  }

  method LocalFixedOf(h: FileHeader) returns (r: bytes)
    ensures r == LocalFixed(h)
  {
    hide Put16, Put32, Put64, Zeros;
    var b := new WriteBuf(FILE_HEADER_LEN);
    b.PutUint32(FILE_HEADER_SIGNATURE);
    b.PutUint16(h.readerVersion);
    b.PutUint16(h.flags);
    b.PutUint16(h.compression);
    assert b.written == LocalKind(h);
    b.PutUint16(h.modifiedTime);
    b.PutUint16(h.modifiedDate);
    b.PutUint32(0);
    b.PutUint32(0);
    b.PutUint32(0);
    assert b.written == LocalDates(h);
    b.PutUint16(Uint16(|h.name|));
    b.PutUint16(Uint16(|h.extra|));
    r := b.Contents();
  }

  // writeHeader: the local header, unless name or extra do not fit their length fields.
  method WriteHeader(w: CountWriter, h: FileHeader) returns (err: Option<Error>)
    modifies w
    ensures err == HeaderError(h)
    ensures var b := if err.None? then LocalHeader(h) else [];
            w.out == old(w.out) + b && w.count == old(w.count) + |b|
  {
    if |h.name| > UINT16_MAX {
      return Some(ErrLongName);
    }
    if |h.extra| > UINT16_MAX {
      return Some(ErrLongExtra);
    }
    var fixed := LocalFixedOf(h);
    w.Write(fixed);
    w.Write(h.name);
    w.Write(h.extra);
    assert w.out == old(w.out) + LocalHeader(h);
    return None;
  }

  // The part of fileWriter.close that updates the file header.
  method FillIn(cell: HeaderCell, crc: uint32, packed: int, raw: int)
    modifies cell`value
    ensures cell.value == SealedHeader(old(cell.value), crc, packed, raw)
  {
    cell.value := cell.value.(crc32 := crc);
    cell.value := cell.value.(compressedSize64 := Uint64(packed), uncompressedSize64 := Uint64(raw));
    if cell.value.IsZip64() {
      cell.value := cell.value.(compressedSize := UINT32_MAX, uncompressedSize := UINT32_MAX);
      cell.value := cell.value.(readerVersion := ZIP_VERSION_45);
    } else {
      cell.value := cell.value.(compressedSize := Uint32(cell.value.compressedSize64),
                                uncompressedSize := Uint32(cell.value.uncompressedSize64));
    }
  }

  method TimestampExtraOf(t: Time) returns (r: bytes)
    ensures r == TimestampExtra(t)
  {
    var b := new WriteBuf(9);
    b.PutUint16(EXT_TIME_EXTRA_ID);
    b.PutUint16(5);
    b.PutUint8(1);
    b.PutUint32(Uint32(t.sec));
    r := b.Contents();
  }

  method DescriptorOf(h: FileHeader) returns (r: bytes)
    ensures r == Descriptor(h)
  {
    hide Put16, Put32, Put64, Zeros;
    var b := new WriteBuf(if h.IsZip64() then DATA_DESCRIPTOR64_LEN else DATA_DESCRIPTOR_LEN);
    b.PutUint32(DATA_DESCRIPTOR_SIGNATURE);
    b.PutUint32(h.crc32);
    if h.IsZip64() {
      b.PutUint64(h.compressedSize64);
      b.PutUint64(h.uncompressedSize64);
    } else {
      b.PutUint32(h.compressedSize);
      b.PutUint32(h.uncompressedSize);
    }
    assert b.written == Descriptor(h);
    r := b.Contents();
  }

  method Zip64ExtraOf(h: FileHeader, offset: uint64) returns (r: bytes)
    ensures r == Zip64Extra(h, offset)
  {
    hide Put16, Put32, Put64, Zeros;
    var b := new WriteBuf(28);
    b.PutUint16(ZIP64_EXTRA_ID);
    b.PutUint16(24);
    b.PutUint64(h.uncompressedSize64);
    b.PutUint64(h.compressedSize64);
    b.PutUint64(offset);
    r := b.Contents();
  }

  // The central header up to its checksum.
  method CentralStart(b: WriteBuf, h: FileHeader)
    requires b.Valid() && b.written == [] && b.buf.Length == DIRECTORY_HEADER_LEN
    modifies b, b.buf
    ensures b.Valid() && b.written == CentralDates(h)
  {
    hide Put16, Put32;
    b.PutUint32(DIRECTORY_HEADER_SIGNATURE);
    b.PutUint16(h.creatorVersion);
    b.PutUint16(h.readerVersion);
    b.PutUint16(h.flags);
    b.PutUint16(h.compression);
    assert b.written == CentralKind(h);
    b.PutUint16(h.modifiedTime);
    b.PutUint16(h.modifiedDate);
    b.PutUint32(h.crc32);
  }

  // One round of the directory loop of Close up to the strings: the fixed part of the
  // central header, and the extra field with the zip64 record where one is needed.
  method CentralFixedOf(h: FileHeader, offset: uint64) returns (r: bytes, extra: bytes)
    ensures r == CentralFixed(h, offset) && extra == Listed(h, offset).extra
  {
    hide Put16, Put32, Put64, Zeros, CentralKind;
    var b := new WriteBuf(DIRECTORY_HEADER_LEN);
    CentralStart(b, h);
    assert |b.written| == 20 by { CentralDatesLength(h); }
    hide CentralDates;
    if h.IsZip64() || offset >= UINT32_MAX {
      b.PutUint32(UINT32_MAX);
      b.PutUint32(UINT32_MAX);
      var record := Zip64ExtraOf(h, offset);
      extra := h.extra + record;
    } else {
      b.PutUint32(h.compressedSize);
      b.PutUint32(h.uncompressedSize);
      extra := h.extra;
    }
    assert b.written == CentralSizes(h, offset);
    b.PutUint16(Uint16(|h.name|));
    b.PutUint16(Uint16(|extra|));
    b.PutUint16(Uint16(|h.comment|));
    assert b.written == CentralLengths(h, offset);
    b.Skip(4);
    b.PutUint32(h.externalAttrs);
    if offset > UINT32_MAX {
      b.PutUint32(UINT32_MAX);
    } else {
      b.PutUint32(offset);
    }
    assert b.written == CentralFixed(h, offset);
    r := b.Contents();
  }

  lemma CentralDatesLength(h: FileHeader)
    ensures |CentralDates(h)| == 20
  {
  }

  method Zip64EndOf(records: uint64, size: uint64, offset: uint64, end: uint64) returns (r: bytes)
    ensures r == Zip64End(records, size, offset) + Zip64Locator(end)
  {
    hide Put16, Put32, Put64, Zeros;
    var b := new WriteBuf(DIRECTORY64_END_LEN + DIRECTORY64_LOC_LEN);
    b.PutUint32(DIRECTORY64_END_SIGNATURE);
    b.PutUint64(DIRECTORY64_END_LEN - 12);
    b.PutUint16(ZIP_VERSION_45);
    b.PutUint16(ZIP_VERSION_45);
    b.PutUint32(0);
    b.PutUint32(0);
    assert b.written == Zip64EndStart();
    b.PutUint64(records);
    b.PutUint64(records);
    b.PutUint64(size);
    b.PutUint64(offset);
    assert b.written == Zip64End(records, size, offset);
    b.PutUint32(DIRECTORY64_LOC_SIGNATURE);
    b.PutUint32(0);
    b.PutUint64(end);
    b.PutUint32(1);
    r := b.Contents();
    AppendLocator(Zip64End(records, size, offset), end);
  }

  lemma AppendLocator(b: bytes, end: uint64)
    ensures b + Put32(DIRECTORY64_LOC_SIGNATURE) + Put32(0) + Put64(end) + Put32(1) == b + Zip64Locator(end)
  {
  }

  method EndOf(records: uint16, size: uint32, offset: uint32, comment: bytes) returns (r: bytes)
    ensures r == EndFixed(records, size, offset, comment)
  {
    hide Put16, Put32, Put64, Zeros;
    var b := new WriteBuf(DIRECTORY_END_LEN);
    b.PutUint32(DIRECTORY_END_SIGNATURE);
    b.Skip(4);
    b.PutUint16(records);
    b.PutUint16(records);
    assert b.written == EndStart(records);
    b.PutUint32(size);
    b.PutUint32(offset);
    b.PutUint16(Uint16(|comment|));
    assert b.written == EndFixed(records, size, offset, comment);
    r := b.Contents();
  }

  /** fileWriter: the io.Writer handed out for one file of the archive `owner`. */
  class FileWriter {
    const cell: HeaderCell
    const zipw: CountWriter
    const compressor: Compressor
    var history: seq<bytes>    // the writes the compressor was given
    var rawCount: int
    var compCount: int
    var hash: Crc.Hash
    var closed: bool
    ghost const owner: Writer

    constructor (cell: HeaderCell, zipw: CountWriter, compressor: Compressor, ghost owner: Writer)
      ensures this.cell == cell && this.zipw == zipw && this.compressor == compressor && this.owner == owner
      ensures !closed && history == [] && rawCount == compCount == 0 && hash == Crc.NEW_IEEE
    {
      this.cell, this.zipw, this.compressor, this.owner := cell, zipw, compressor, owner;
      history, rawCount, compCount, hash, closed := [], 0, 0, Crc.NEW_IEEE, false;
    }

    // This writer is the open entry e.
    ghost predicate Tracks(e: Entry)
      reads this`history, this`rawCount, this`compCount, this`hash
    {
      && e.phase.Open?
      && compressor == e.compressor
      && history == e.chunks && rawCount == |e.Raw()| && compCount == |e.Body()|
      && hash == Crc.Feed(Crc.NEW_IEEE, e.Raw())
    }

    // A new writer is at the start of its entry.
    lemma TracksNew(e: Entry)
      requires history == [] && rawCount == compCount == 0 && hash == Crc.NEW_IEEE
      requires e.phase.Open? && e.compressor == compressor && e.chunks == []
      ensures Tracks(e)
    {
    }

    // The work of Write: checksum, compressor and counters.
    method Push(p: bytes, ghost e: Entry)
      requires Tracks(e)
      modifies this`hash, this`history, this`rawCount, this`compCount, zipw
      ensures Tracks(e.(chunks := e.chunks + [p]))
      ensures var packed := compressor.step(e.chunks, p);
              zipw.out == old(zipw.out) + packed && zipw.count == old(zipw.count) + |packed|
    {
      hide Crc.Feed, Flatten, Emitted, Packed;
      OneMoreChunk(compressor, e.chunks, p);
      Crc.FeedConcat(Crc.NEW_IEEE, e.Raw(), p);
      hash := Crc.Feed(hash, p);
      var packed := compressor.step(history, p);
      history := history + [p];
      zipw.Write(packed);
      compCount := compCount + |packed|;
      rawCount := rawCount + |p|;
    }

    method Write(p: bytes) returns (n: nat, err: Option<Error>)
      requires !closed ==> owner.Valid() && owner.last == this
      modifies this, zipw, owner`log
      ensures old(closed) ==>
                && n == 0 && err == Some(ErrFileClosed)
                && unchanged(this) && unchanged(zipw) && unchanged(owner`log)
      ensures !old(closed) ==>
                && n == |p| && err.None? && !closed
                && owner.Valid() && owner.State() == WriteStep(old(owner.State()), p)
    {
      hide Tracks;
      if closed {
        return 0, Some(ErrFileClosed);
      }
      ghost var k := |owner.log| - 1;
      ghost var e := owner.log[k];
      assert e.phase.Open? && compressor == e.compressor by { TrackedIsOpen(e); }
      Push(p, e);
      owner.log := owner.log[..k] + [e.(chunks := e.chunks + [p])];
      return |p|, None;
    }

    lemma TrackedIsOpen(e: Entry)
      requires Tracks(e)
      ensures e.phase.Open? && compressor == e.compressor
    {
    }

    // The work of Close: the rest of the packed data, the header, the descriptor.
    method Finish(ghost e: Entry)
      requires Tracks(e) && cell.value == e.header
      modifies this`compCount, zipw, cell`value
      ensures cell.value == SealedEntry(e).header
      ensures var rest, descriptor := compressor.finish(e.chunks), Descriptor(cell.value);
              && zipw.out == old(zipw.out) + rest + descriptor
              && zipw.count == old(zipw.count) + |rest| + |descriptor|
    {
      hide Crc.Feed, Crc.Sum32, Flatten, Emitted, Descriptor, SealedHeader;
      var packed := compressor.finish(history);
      zipw.Write(packed);
      compCount := compCount + |packed|;
      FillIn(cell, Crc.Sum32(hash), compCount, rawCount);
      var buf := DescriptorOf(cell.value);
      zipw.Write(buf);
    }

    method Close() returns (err: Option<Error>)
      requires !closed ==> owner.Valid() && owner.last == this
      modifies this, zipw, cell`value, owner`log
      ensures closed
      ensures old(closed) ==>
                && err == Some(ErrFileClosedTwice)
                && unchanged(zipw) && unchanged(cell) && unchanged(owner`log)
      ensures !old(closed) ==>
                && err.None?
                && owner.Valid() && owner.State() == SealLast(old(owner.State()))
    {
      hide Crc.Checksum, Flatten, Packed, Descriptor, SealedHeader, Tracks;
      if closed {
        return Some(ErrFileClosedTwice);
      }
      ghost var k := |owner.log| - 1;
      ghost var e := owner.log[k];
      assert owner.dir[k].cell == cell && cell.value == e.header;
      assert e.phase.Open? && compressor == e.compressor by { TrackedIsOpen(e); }
      closed := true;
      Finish(e);
      owner.log := owner.log[..k] + [SealedEntry(e)];
      forall i | 0 <= i < |owner.dir|
        ensures owner.dir[i].cell.value == owner.log[i].header
      {
        if i < k {
          assert owner.dir[i].cell.slot != cell.slot;
        }
      }
      return None;
    }
  }

  // header: a file header with the position of its local copy.
  datatype DirEntry = DirEntry(cell: HeaderCell, offset: uint64)

  /** Writer. The ghost `log` records the history that `State` makes the abstract state of. */
  class Writer {
    const cw: CountWriter
    var dir: seq<DirEntry>
    var last: FileWriter?
    var closed: bool
    var compressors: map<uint16, Compressor>
    const registry: map<uint16, Compressor>
    var comment: bytes
    ghost var log: seq<Entry>

    ghost predicate Active()
      reads this`last, last
    {
      last != null && !last.closed
    }

    // The directory holds what the log says.
    ghost predicate Matches()
      reads this`dir, this`log, set e | e in dir :: e.cell
    {
      && |log| == |dir|
      && forall i :: 0 <= i < |dir| ==>
           dir[i].cell.slot == i && dir[i].cell.value == log[i].header && dir[i].offset == log[i].offset
    }

    // Only the last entry can be open, and then `last` writes it.
    ghost predicate LastTracked()
      reads this`dir, this`log, this`last, last
    {
      && |log| == |dir|
      && (forall i :: 0 <= i < |log| && log[i].phase.Open? ==> i == |log| - 1 && Active())
      && (Active() ==>
            && last.owner == this && last.zipw == cw
            && log != [] && last.cell == dir[|dir| - 1].cell
            && log[|log| - 1].phase.Open? && last.Tracks(log[|log| - 1]))
    }

    ghost predicate Valid()
      reads this`dir, this`log, this`last, last, set e | e in dir :: e.cell
    {
      Matches() && LastTracked()
    }

    ghost function State(): State
      reads this, cw
    {
      WriterModel.State(cw.count, cw.out, log, comment, closed, compressors, registry)
    }

    constructor (registry: map<uint16, Compressor>)
      ensures Valid() && fresh(cw) && State() == NewState(registry)
    {
      cw := new CountWriter();
      dir, last, closed, compressors, comment := [], null, false, map[], [];
      this.registry := registry;
      log := [];
    }

    method SetOffset(n: int)
      requires Valid() && Uint64(cw.count) == 0
      modifies cw
      ensures Valid() && State() == SetOffsetStep(old(State()), n)
    {
      cw.count := n;
    }

    method SetComment(comment: bytes) returns (err: Option<Error>)
      requires Valid()
      modifies this`comment
      ensures Valid() && (State(), err) == SetCommentStep(old(State()), comment)
    {
      hide FileWriter.Tracks;
      if |comment| > UINT16_MAX {
        return Some(ErrLongComment);
      }
      this.comment := comment;
      return None;
    }

    method RegisterCompressor(compression: uint16, compressor: Compressor)
      requires Valid()
      modifies this`compressors
      ensures Valid() && State() == old(State()).(compressors := old(compressors)[compression := compressor])
    {
      hide FileWriter.Tracks;
      compressors := compressors[compression := compressor];
    }
  
    // Closes the entry that is still open, if any.
    method CloseLast()
      requires Valid()
      modifies last, cw, `log, (set e | e in dir :: e.cell)`value
      ensures Valid() && !Active() && State() == SealLast(old(State()))
      ensures !old(Active()) ==> State() == old(State())
    {
      if last != null && !last.closed {
        var err := last.Close();
        assert err.None?;
      }
    }

    // The changes CreateHeader makes to the caller's header.
    method Prepare(fh: HeaderCell)
      modifies fh`value
      ensures fh.value == Prepared(old(fh.value))
    {
      hide Utf8.Detect, TimeToMsDosTime, Put16, Put32, WithUtf8Flag, WithDescriptorFlag;
      var valid1, require1 := Utf8.DetectUTF8Loop(fh.value.name);
      var valid2, require2 := Utf8.DetectUTF8Loop(fh.value.comment);
      if fh.value.nonUTF8 {
        fh.value := fh.value.(flags := WithUtf8Flag(fh.value.flags, false));
      } else if (require1 || require2) && valid1 && valid2 {
        fh.value := fh.value.(flags := WithUtf8Flag(fh.value.flags, true));
      }
      fh.value := fh.value.(creatorVersion := fh.value.creatorVersion / 0x100 * 0x100 + ZIP_VERSION_20,
                            readerVersion := ZIP_VERSION_20);
      assert fh.value == WithVersions(old(fh.value));
      if !IsZero(fh.value.modified) {
        var (d, t) := TimeToMsDosTime(fh.value.modified);
        var record := TimestampExtraOf(fh.value.modified);
        fh.value := fh.value.(modifiedDate := d, modifiedTime := t, extra := fh.value.extra + record);
      }
      assert fh.value == WithTimestamp(WithVersions(old(fh.value)));
      if fh.value.IsDirectory() {
        fh.value := fh.value.(compression := STORE, flags := WithDescriptorFlag(fh.value.flags, false));
        fh.value := fh.value.(compressedSize := 0, compressedSize64 := 0,
                              uncompressedSize := 0, uncompressedSize64 := 0);
      } else {
        fh.value := fh.value.(flags := WithDescriptorFlag(fh.value.flags, true));
      }
    }

    static lemma NewEntryParts(s: State, g: FileHeader, c: Compressor)
      ensures
        var e := NewEntry(s, g, c);
        && e.header == g && e.offset == Uint64(s.count) && e.compressor == c && e.chunks == []
        && (e.phase.Open? <==> HeaderError(g).None? && !g.IsDirectory())
        && e.Segment() == if HeaderError(g).None? then LocalHeader(g) else []
    {
    }

    // The directory grows by a header.
    method List(fh: HeaderCell, ghost e: Entry)
      requires Matches() && e.header == fh.value && e.offset == Uint64(cw.count)
      requires forall i :: 0 <= i < |dir| ==> dir[i].cell != fh
      modifies `dir, `log, fh`slot
      ensures Matches() && log == old(log) + [e] && dir == old(dir) + [DirEntry(fh, e.offset)]
    {
      fh.slot := |dir|;
      dir := dir + [DirEntry(fh, Uint64(cw.count))];
      log := log + [e];
    }

    // The end of CreateHeader: enters the header in the directory and writes its local copy.
    method Enter(fh: HeaderCell, fw: FileWriter?, compressor: Compressor) returns (err: Option<Error>)
      requires Valid() && !Active()
      requires forall i :: 0 <= i < |dir| ==> dir[i].cell != fh
      requires fw == null <==> fh.value.IsDirectory()
      requires fw != null ==>
                 && fw.cell == fh && fw.zipw == cw && fw.compressor == compressor && fw.owner == this
                 && fw.history == [] && fw.rawCount == fw.compCount == 0 && fw.hash == Crc.NEW_IEEE && !fw.closed
      modifies `dir, `last, `log, cw, fh`slot
      ensures Valid() && err == HeaderError(fh.value)
      ensures State() == Append(old(State()), NewEntry(old(State()), fh.value, compressor))
      ensures last == if err.None? then fw else old(last)
    {
      hide LocalHeader, FileWriter.Tracks, Entry.Segment, NewEntry, HeaderError, FileHeader.IsDirectory, Matches;
      NewEntryParts(State(), fh.value, compressor);
      ghost var e := NewEntry(State(), fh.value, compressor);
      List(fh, e);
      err := WriteHeader(cw, fh.value);
      if err.None? {
        last := fw;
        if fw != null {
          fw.TracksNew(e);
        }
      }
    }

    // CreateHeader once the header is prepared.
    method Add(fh: HeaderCell) returns (fw: FileWriter?, err: Option<Error>)
      requires Valid() && !Active()
      requires forall i :: 0 <= i < |dir| ==> dir[i].cell != fh
      modifies `dir, `last, `log, cw, fh`slot
      ensures Valid() && (State(), err) == EnterStep(old(State()), fh.value)
      ensures fw != null ==> fresh(fw) && fw == last && Active()
      ensures fw != null <==> err.None? && !fh.value.IsDirectory()
    {
      hide Append, NewEntry, FindCompressor, FileWriter.Tracks;
      var compressor := STORE_COMPRESSOR;
      fw := null;
      if !fh.value.IsDirectory() {
        var found := Compressor(fh.value.compression);
        if found.None? {
          return null, Some(ErrAlgorithm);
        }
        compressor := found.value;
        fw := new FileWriter(fh, cw, compressor, this);
      }
      err := Enter(fh, fw, compressor);
      if err.Some? {
        fw := null;
      }
    }

    // CreateHeader. The file writer is null for a directory and on an error. The caller may
    // pass the header object it added last (and gets an error), but no earlier one: those
    // are owned by this writer.
    method CreateHeader(fh: HeaderCell) returns (fw: FileWriter?, err: Option<Error>)
      requires Valid()
      requires forall i :: 0 <= i < |dir| - 1 ==> dir[i].cell != fh
      modifies this, last, cw, fh, (set e | e in dir :: e.cell)`value
      ensures Valid()
      ensures (State(), fh.value, err) ==
              CreateStep(old(State()), old(fh.value), old(dir) != [] && old(dir)[|old(dir)| - 1].cell == fh)
      ensures fw != null ==> fresh(fw) && fw == last && Active()
      ensures fw != null <==> err.None? && !Prepared(old(fh.value)).IsDirectory()
    {
      hide Prepared, SealLast, EnterStep, FileWriter.Tracks;
      CloseLast();
      if |dir| > 0 && dir[|dir| - 1].cell == fh {
        return null, Some(ErrDuplicateHeader);
      }
      assert forall i :: 0 <= i < |dir| ==> dir[i].cell != fh;
      Prepare(fh);
      fw, err := Add(fh);
    }

    method Compressor(compression: uint16) returns (c: Option<Compressor>)
      ensures c == FindCompressor(State(), compression)
    {
      if compression in compressors {
        return Some(compressors[compression]);
      } else if compression in registry {
        return Some(registry[compression]);
      }
      return None;
    }

    // The loop of Close over the directory.
    method WriteDirectory()
      requires Valid() && !Active()
      modifies cw, `log, (set e | e in dir :: e.cell)`value
      ensures Valid()
      ensures cw.out == old(cw.out) + DirectoryBytes(old(log))
      ensures cw.count == old(cw.count) + |DirectoryBytes(old(log))|
      ensures log == ListAll(old(log))
    {
      hide Central, Listed, DirectoryBytes;
      ghost var out0, log0, start := cw.out, log, cw.count;
      assert DirectoryBytes(log0[..0]) == [] by { EmptyDirectory(); }
      for i := 0 to |dir|
        invariant cw.out == out0 + DirectoryBytes(log0[..i])
        invariant cw.count == start + |DirectoryBytes(log0[..i])|
        invariant forall j :: 0 <= j < i ==> dir[j].cell.value == ListEntry(log0[j]).header
        invariant forall j :: i <= j < |dir| ==> dir[j].cell.value == log0[j].header
      {
        var h := dir[i].cell;
        var record := WriteCentral(h, dir[i].offset);
        DirectoryStep(log0, i);
      }
      assert log0[..|dir|] == log0;
      log := ListAll(log0);
    }

    static lemma EmptyDirectory()
      ensures DirectoryBytes([]) == []
    {
    }

    // One round of that loop.
    method WriteCentral(h: HeaderCell, offset: uint64) returns (ghost record: bytes)
      modifies cw, h`value
      ensures record == Central(old(h.value), offset)
      ensures cw.out == old(cw.out) + record && cw.count == old(cw.count) + |record|
      ensures h.value == Listed(old(h.value), offset)
    {
      hide CentralFixed;
      var fixed, extra := CentralFixedOf(h.value, offset);
      h.value := h.value.(extra := extra);
      cw.Write(fixed);
      cw.Write(h.value.name);
      cw.Write(h.value.extra);
      cw.Write(h.value.comment);
      record := Central(old(h.value), offset);
    }

    // The end of Close: everything behind the directory that ran from `start` to here.
    method WriteTrailer(start: int)
      requires start <= cw.count
      modifies cw
      ensures var end := old(cw.count);
              var trailer := Trailer(Uint64(|dir|), Uint64(end - start), Uint64(start), Uint64(end), comment);
              cw.out == old(cw.out) + trailer && cw.count == end + |trailer|
    {
      hide Zip64End, Zip64Locator, EndFixed, Uint64;
      var end := cw.count;
      var records, size, offset := Uint64(|dir|), Uint64(end - start), Uint64(start);
      ghost var out0 := cw.out;
      if records >= UINT16_MAX || size >= UINT32_MAX || offset >= UINT32_MAX {
        var buf := Zip64EndOf(records, size, offset, Uint64(end));
        cw.Write(buf);
        records, size, offset := UINT16_MAX, UINT32_MAX, UINT32_MAX;
      }
      var buf := EndOf(records, size, offset, comment);
      cw.Write(buf);
      cw.Write(comment);
      assert cw.out == out0 + Trailer(Uint64(|dir|), Uint64(end - start), Uint64(start), Uint64(end), comment);
    }

    // Close once the last file is complete.
    method Conclude()
      requires Valid() && !Active()
      modifies `closed, `log, cw, (set e | e in dir :: e.cell)`value
      ensures Valid() && State() == Concluded(old(State()))
    {
      hide Trailer, DirectoryBytes, ListAll;
      closed := true;
      var start := cw.count;
      ghost var out0, dirBytes := cw.out, DirectoryBytes(log);
      WriteDirectory();
      WriteTrailer(start);
      Associative(out0, dirBytes,
                  Trailer(Uint64(|dir|), Uint64(|dirBytes|), Uint64(start), Uint64(start + |dirBytes|), comment));
    }

    method Close() returns (err: Option<Error>)
      requires Valid()
      modifies this, last, cw, (set e | e in dir :: e.cell)`value
      ensures Valid() && (State(), err) == CloseStep(old(State()))
    {
      hide Concluded, SealLast;
      var open := last != null && !last.closed;
      CloseLast();
      if open {
        last := null;
      }
      if closed {
        return Some(ErrWriterClosedTwice);
      }
      Conclude();
      return None;
    }
  }
}
