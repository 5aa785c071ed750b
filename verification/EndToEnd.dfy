/**
 From the calls of a client to what a reader of the finished archive sees.
 */
module EndToEnd {
  import opened Bytes
  import opened Wrappers
  import opened Clock
  import opened ZipFormat
  import opened ZipRecords
  import opened Codecs
  import opened WriterModel
  import opened ReaderModel
  import opened HeaderCodec
  import opened Layout
  import opened ClientJournal
  import opened ArchiveRoundTrip
  import opened Contents
  import Crc
  import Utf8

  // What becomes of the flag word: only two bits are touched. Bit 3 announces the descriptor;
  // bit 11 is cleared if the client says its strings are not UTF-8, and set if they are and
  // could not be anything else.
  predicate FlagsOf(flags: uint16, h: FileHeader) {
    var (valid1, require1) := Utf8.DetectUTF8(h.name);
    var (valid2, require2) := Utf8.DetectUTF8(h.comment);
    && flags % 8 == h.flags % 8 && flags / 16 % 128 == h.flags / 16 % 128 && flags / 0x1000 == h.flags / 0x1000
    && flags / 8 % 2 == (if NamesDirectory(h) then 0 else 1)
    && flags / 0x800 % 2 ==
       if h.nonUTF8 then 0
       else if valid1 && valid2 && (require1 || require2) then 1
       else h.flags / 0x800 % 2
  }

  lemma MiddleFlags(v: int, w: int)
    requires v % 0x800 == w % 0x800
    ensures v % 8 == w % 8 && v / 16 % 128 == w / 16 % 128
  {
    var q, r, s := v / 0x800, w / 0x800, v % 0x800;
    LowFlags(v, q, s);
    LowFlags(w, r, s);
  }

  lemma LowFlags(v: int, q: int, s: int)
    requires v == q * 0x800 + s && 0 <= s < 0x800
    ensures v % 8 == s % 8 && v / 16 % 128 == s / 16
  {
    assert v / 16 == q * 128 + s / 16;
  }

  lemma PreparedFlags(h: FileHeader)
    ensures FlagsOf(Prepared(h).flags, h)
  {
    hide Utf8.Detect, TimeToMsDosTime, TimestampExtra;
    PreparedFits(h);
    var flags := EncodingFlags(h);
    assert flags % 0x800 == h.flags % 0x800 && flags / 0x1000 == h.flags / 0x1000;
    MiddleFlags(flags, h.flags);
    assert Prepared(h).flags == WithDescriptorFlag(flags, !NamesDirectory(h));
    assert Prepared(h).flags / 0x1000 == flags / 0x1000 by { HighFlags16(Prepared(h).flags); HighFlags16(flags); }
  }

  lemma HighFlags16(v: int)
    requires v >= 0
    ensures v / 0x1000 == v / 16 / 256
  {
    var q, r := v / 0x1000, v % 0x1000;
    assert v / 16 == q * 256 + r / 16;
  }

  // The extra field the client's own becomes: a timestamp behind it if a time was set, and a
  // zip64 record behind that if a size or the position is too big for 32 bits.
  function ExtraOf(w: Wanted, g: FileHeader, offset: int): bytes {
    w.header.extra
    + (if IsZero(w.header.modified) then [] else TimestampExtra(w.header.modified))
    + if g.compressedSize64 >= 0xffff_ffff || g.uncompressedSize64 >= 0xffff_ffff || Uint64(offset) >= 0xffff_ffff
      then Zip64Extra(g, Uint64(offset)) else []
  }

  // The file f lists what was asked for by w: the caller's strings, method and attributes,
  // and the sizes and checksum of what was written. A directory is stored and empty.
  ghost predicate Lists(f: File, w: Wanted) {
    var h, g := w.header, f.header;
    && g.name == h.name && g.comment == h.comment && g.externalAttrs == h.externalAttrs
    && g.extra == ExtraOf(w, g, f.headerOffset)
    && FlagsOf(g.flags, h)
    && g.creatorVersion == h.creatorVersion / 0x100 * 0x100 + 20
    && g.readerVersion == (if g.compressedSize64 >= 0xffff_ffff || g.uncompressedSize64 >= 0xffff_ffff then 45 else 20)
    && (g.modifiedDate, g.modifiedTime) ==
       (if IsZero(h.modified) then (h.modifiedDate, h.modifiedTime) else TimeToMsDosTime(h.modified))
    && if NamesDirectory(h) then
         g.compression == 0 && g.crc32 == h.crc32 && g.compressedSize64 == g.uncompressedSize64 == 0 && w.writes == []
       else
         && g.compression == h.compression && g.crc32 == Crc.Checksum(Flatten(w.writes))
         && g.uncompressedSize64 == Uint64(|Flatten(w.writes)|)
         && g.compressedSize64 == Uint64(|Packed(w.compressor, w.writes)|)
  }

  lemma PreparedLists(h: FileHeader)
    ensures
      var g := Prepared(h);
      && g.name == h.name && g.comment == h.comment && g.externalAttrs == h.externalAttrs && g.crc32 == h.crc32
      && g.extra == h.extra + (if IsZero(h.modified) then [] else TimestampExtra(h.modified))
      && g.creatorVersion == h.creatorVersion / 0x100 * 0x100 + 20 && g.readerVersion == 20
      && (g.modifiedDate, g.modifiedTime) ==
         (if IsZero(h.modified) then (h.modifiedDate, h.modifiedTime) else TimeToMsDosTime(h.modified))
      && (NamesDirectory(h) ==> g.compression == 0 && g.compressedSize64 == g.uncompressedSize64 == 0)
  {
    hide TimeToMsDosTime, EncodingFlags, TimestampExtra;
    PreparedFits(h);
  }

  lemma EntryLists(e: Entry, w: Wanted)
    requires Coherent(e) && !e.phase.Rejected? && !e.phase.Open? && Answers(e, w)
    ensures Lists(ReadBack(e.header, e.offset), w)
  {
    hide Crc.Checksum, NonUTF8, ReadModified, FoundTime, Zip64Extra, TimeToMsDosTime, TimestampExtra, Prepared, FlagsOf,
      HeaderError, Flatten, Packed, FileHeader.IsDirectory, NamesDirectory;
    var h := w.header;
    PreparedLists(h);
    PreparedFlags(h);
    PreparedFits(h);
    SealedFields(e);
    assert Uint64(Int64(e.offset)) == e.offset;
    assert Zip64Extra(ReadBack(e.header, e.offset).header, e.offset) == Zip64Extra(e.header, e.offset) by {
      SameZip64Extra(ReadBack(e.header, e.offset).header, e.header, e.offset);
    }
  }

  lemma SameZip64Extra(g: FileHeader, h: FileHeader, offset: uint64)
    requires g.compressedSize64 == h.compressedSize64 && g.uncompressedSize64 == h.uncompressedSize64
    ensures Zip64Extra(g, offset) == Zip64Extra(h, offset)
  {
  }

  // For every run of calls that is readable once closed: the reader finds one file for each
  // entry asked for, in the order of the calls, each lists it faithfully, and the comment is
  // the last one accepted.
  lemma ArchiveAsAsked(registry: map<uint16, Compressor>, calls: seq<Call>, prefix: bytes)
    requires ProperRun(registry, calls) && Readable(prefix, SealLast(Run(registry, calls)))
    ensures var log, r := Log(registry, calls), Init(prefix + CloseStep(Run(registry, calls)).0.out);
            && r.Ok? && |r.value.files| == |log| && r.value.comment == Notes(registry, calls).comment
            && forall i :: 0 <= i < |log| ==> Lists(r.value.files[i], log[i])
  {
    hide SealLast, Run, Log, Notes, Concluded, Init, InRange, CommentClear, DirectoryClear, Lists, CloseStep, Listable,
      Coherent, Answers;
    var s, log := SealLast(Run(registry, calls)), Log(registry, calls);
    ArchiveRoundTrip.ArchiveRoundTrip(registry, calls, prefix);
    RunLaidOut(registry, calls);
    SealKeepsLayout(Run(registry, calls));
    RunFollows(registry, calls);
    forall i | 0 <= i < |log|
      ensures Lists(FilesOf(s.entries)[i], log[i])
    {
      assert s.entries[i] in s.entries;
      assert !s.entries[i].phase.Rejected? by { ListableAccepted(s.entries[i]); }
      EntryLists(s.entries[i], log[i]);
    }
  }

  // After Close the client's own header objects hold what the reader will list: only the extra
  // field has changed once more, by the zip64 record of an entry that needs one.
  lemma HeadersAfterClose(s: State, i: nat)
    requires !s.closed && i < |SealLast(s).entries|
    ensures
      var (t, err) := CloseStep(s);
      var e := SealLast(s).entries[i];
      && err == None && t.closed && |t.entries| == |SealLast(s).entries|
      && t.entries[i] == e.(header := e.header.(extra := ReadBack(e.header, e.offset).header.extra))
      && t.entries[i].header.extra == e.header.extra +
         if e.header.compressedSize64 >= 0xffff_ffff || e.header.uncompressedSize64 >= 0xffff_ffff ||
            e.offset >= 0xffff_ffff
         then Zip64Extra(e.header, e.offset) else []
  {
    hide SealedHeader, Packed, Descriptor, ClosingBytes, Crc.Checksum, ReadModified, NonUTF8, FoundTime, Zip64Extra;
  }

  // One header that does not fit, or whose comment does not, is enough to spoil the archive.
  lemma UnfitHeaderSpoils(registry: map<uint16, Compressor>, calls: seq<Call>, prefix: bytes, i: nat)
    requires ProperRun(registry, calls)
    requires var s := SealLast(Run(registry, calls));
             |prefix| == Base(s) && InRange(Concluded(s)) && DirectoryClear(prefix, s)
    requires var log := Log(registry, calls);
             i < |log| && (!HeaderFits(log[i].header) || |log[i].header.comment| > UINT16_MAX)
    ensures var s := SealLast(Run(registry, calls));
            Init(prefix + CloseStep(Run(registry, calls)).0.out) != Ok(Archive(FilesOf(s.entries), s.comment))
  {
    hide SealLast, Run, Log, Concluded, Init, InRange, CommentClear, DirectoryClear, CloseStep, FilesOf, HeaderFits,
      Prepared, Coherent, Listable;
    var s, h := SealLast(Run(registry, calls)), Log(registry, calls)[i].header;
    ArchiveRoundTrip.ArchiveRoundTrip(registry, calls, prefix);
    RunLaidOut(registry, calls);
    SealKeepsLayout(Run(registry, calls));
    RunFollows(registry, calls);
    PreparedFits(h);
    assert s.entries[i] in s.entries;
    UnfitNotListable(s.entries[i], h);
  }

  lemma UnfitNotListable(e: Entry, h: FileHeader)
    requires Coherent(e) && e.local == Prepared(h)
    requires HeaderError(Prepared(h)).Some? || |h.comment| > UINT16_MAX
    ensures !Listable(e)
  {
    hide Crc.Checksum, Zip64Told, EncodingFlags, TimeToMsDosTime, TimestampExtra;
  }

  // And each file's contents come back: whatever compressor wrote it, a decompressor that
  // undoes it gives the bytes written, and reading them in any pieces ends with a plain end
  // of file. (A directory ends so exactly if the client left its CRC at zero.)
  lemma ContentAsAsked(registry: map<uint16, Compressor>, calls: seq<Call>, prefix: bytes, i: nat,
                       decompressors: map<uint16, Decompressor>, script: seq<Delivery>)
    requires ProperRun(registry, calls) && i < |Log(registry, calls)|
    requires var s := SealLast(Run(registry, calls)); |prefix| == Base(s) && InRange(Concluded(s))
    requires
      var w := Log(registry, calls)[i];
      var m := if NamesDirectory(w.header) then STORE else w.header.compression;
      && HeaderFits(w.header) && m in decompressors && Delivers(script, Flatten(w.writes))
      && if NamesDirectory(w.header) then decompressors[m]([]) == Some([])
         else Inverse(w.compressor, decompressors[m])
    ensures |SealLast(Run(registry, calls)).entries| == |Log(registry, calls)|
    ensures
      var e, w := SealLast(Run(registry, calls)).entries[i], Log(registry, calls)[i];
      var f, last := ReadBack(e.header, e.offset), |script| - 1;
      var content := OpenAt(prefix + CloseStep(Run(registry, calls)).0.out, f, decompressors);
      && content.Ok? && content.value.plain == Some(Flatten(w.writes))
      && (forall k :: 0 <= k < last ==> Answer(f.header, content.value.descriptor, script, k) == script[k])
      && (Answer(f.header, content.value.descriptor, script, last) == script[last] <==>
            !NamesDirectory(w.header) || w.header.crc32 == 0)
  {
    hide SealLast, Run, Log, Notes, InRange, Concluded, Delivers, OpenAt, ReadBack, Answer, Descriptor, Prepared,
      Coherent, HeaderFits, NamesDirectory, Inverse, Flatten;
    var s, w := SealLast(Run(registry, calls)), Log(registry, calls)[i];
    RunLaidOut(registry, calls);
    SealKeepsLayout(Run(registry, calls));
    RunFollows(registry, calls);
    var e := s.entries[i];
    assert e in s.entries && Answers(e, w);
    AcceptedPhase(e, w);
    OpenRoundTrip(s, prefix, i, decompressors);
    ContentRoundTrip(e, script);
  }

  lemma AcceptedPhase(e: Entry, w: Wanted)
    requires Coherent(e) && !e.phase.Open? && Answers(e, w) && HeaderFits(w.header)
    ensures if NamesDirectory(w.header) then e.phase.Directory? else e.phase.Sealed?
    ensures e.header.compression == if NamesDirectory(w.header) then STORE else w.header.compression
    ensures e.Raw() == Flatten(w.writes) && (NamesDirectory(w.header) ==> e.header.crc32 == w.header.crc32)
  {
    hide Prepared, HeaderFits, NamesDirectory, HeaderError, FileHeader.IsDirectory, Crc.Checksum, Packed, Flatten;
    PreparedLists(w.header);
    PreparedFits(w.header);
    SealedFields(e);
  }

  // ---- an ordinary archive meets every condition ----

  lemma PreparedFile(h: FileHeader)
    requires !NamesDirectory(h)
    ensures var g := Prepared(h);
            && !g.IsDirectory() && g.name == h.name && g.comment == h.comment && g.compression == h.compression
            && |g.extra| <= |h.extra| + 9
  {
    hide TimeToMsDosTime, EncodingFlags;
  }

  const STORE_ONLY := map[STORE := STORE_COMPRESSOR]

  function FirstEntry(h: FileHeader): Entry { NewEntry(NewState(STORE_ONLY), Prepared(h), STORE_COMPRESSOR) }

  function AfterCreate(h: FileHeader): State { Append(NewState(STORE_ONLY), FirstEntry(h)) }

  lemma CreateRun(h: FileHeader)
    requires !NamesDirectory(h) && h.compression == STORE
    ensures Run(STORE_ONLY, [CreateHeader(h, false)]) == AfterCreate(h)
    ensures Notes(STORE_ONLY, [CreateHeader(h, false)]) ==
            Journal([Wanted(h, [], STORE_COMPRESSOR)], STORE_ONLY, HeaderFits(h), [])
  {
    hide Prepared, Entry.Segment, NewEntry, HeaderFits;
    PreparedFile(h);
    var j := Notes(STORE_ONLY, []);
    assert [CreateHeader(h, false)][..0] == [];
    assert Notes(STORE_ONLY, [CreateHeader(h, false)]) == Noted(j, CreateHeader(h, false));
    PreparedFits(h);
  }

  lemma WriteRun(h: FileHeader, p: bytes)
    requires !NamesDirectory(h) && h.compression == STORE && IsOpen(AfterCreate(h)) && HeaderFits(h)
    ensures var calls := [CreateHeader(h, false), Write(p)];
            && Run(STORE_ONLY, calls) == WriteStep(AfterCreate(h), p)
            && Log(STORE_ONLY, calls) == [Wanted(h, [p], STORE_COMPRESSOR)]
            && Run(STORE_ONLY, calls[..0]) == NewState(STORE_ONLY) && Run(STORE_ONLY, calls[..1]) == AfterCreate(h)
  {
    hide AfterCreate, WriteStep, CreateStep, HeaderFits;
    var calls := [CreateHeader(h, false), Write(p)];
    CreateRun(h);
    assert calls[..1] == [CreateHeader(h, false)] && calls[..0] == [];
    assert Notes(STORE_ONLY, calls) == Noted(Notes(STORE_ONLY, calls[..1]), Write(p));
    assert [] + [p] == [p];
  }

  // The completed entry of the one file p written under the header h.
  lemma OneFileEntry(h: FileHeader, p: bytes)
    requires !NamesDirectory(h) && |h.name| <= UINT16_MAX && |h.extra| + 9 <= UINT16_MAX
    ensures IsOpen(AfterCreate(h))
    ensures
      var s := SealLast(WriteStep(AfterCreate(h), p));
      && |s.entries| == 1 && s.comment == [] && !s.entries[0].phase.Rejected? && s.entries[0].offset == 0
      && var g := s.entries[0].header;
      && g.name == h.name && g.comment == h.comment && g.extra == Prepared(h).extra
      && g.uncompressedSize64 == g.compressedSize64 == Uint64(|p|)
  {
    hide Prepared, LocalFixed, Descriptor, Crc.Checksum;
    PreparedFile(h);
    OneMoreChunk(STORE_COMPRESSOR, [], p);
    assert [] + p == p;
    StorePacksAsIs([p]);
  }

  lemma OneFileLength(h: FileHeader, p: bytes)
    requires !NamesDirectory(h) && |h.name| <= UINT16_MAX && |h.extra| + 9 <= UINT16_MAX && IsOpen(AfterCreate(h))
    ensures var a, s := AfterCreate(h), SealLast(WriteStep(AfterCreate(h), p));
            && 0 <= a.count == |a.out| <= WriteStep(a, p).count == |WriteStep(a, p).out|
            && WriteStep(a, p).count <= s.count == |s.out| <= 2 * UINT16_MAX + |p| + 54
  {
    hide Prepared, Descriptor, SealedHeader, Crc.Checksum, Flatten, FileHeader.IsDirectory, LocalFixed;
    PreparedFile(h);
  }

  // A file of ordinary size with an ordinary header, stored: nothing else is asked of the
  // client, and the archive is read back as asked.
  lemma OneFileArchive(h: FileHeader, p: bytes)
    requires !NamesDirectory(h) && h.compression == STORE
    requires |h.name| <= 10000 && |h.extra| <= 10000 && |h.comment| <= 10000 && |p| < UINT32_MAX
    ensures
      var r := Init(CloseStep(Run(STORE_ONLY, [CreateHeader(h, false), Write(p)])).0.out);
      r.Ok? && |r.value.files| == 1 && Lists(r.value.files[0], Wanted(h, [p], STORE_COMPRESSOR))
  {
    hide Prepared, AfterCreate, WriteStep, SealLast, Run, Log, Init, Lists, CloseStep, CommentClear, DirectoryClear,
      Trailer;
    var calls := [CreateHeader(h, false), Write(p)];
    PreparedFile(h);
    OneFileEntry(h, p);
    OneFileLength(h, p);
    WriteRun(h, p);
    assert calls[..2] == calls;
    OneFileCloses(SealLast(Run(STORE_ONLY, calls)));
    var out := CloseStep(Run(STORE_ONLY, calls)).0.out;
    assert [] + out == out;
    ArchiveAsAsked(STORE_ONLY, calls, []);
  }

  lemma OneFileCloses(s: State)
    requires |s.entries| == 1 && s.comment == [] && s.count == |s.out| <= UINT32_MAX + 200000
    requires s.entries[0].offset == 0
    requires var e := s.entries[0];
             && !e.phase.Rejected? && !e.header.IsZip64()
             && |e.header.name| <= 10000 && |e.header.extra| <= 10009 && |e.header.comment| <= 10000
    ensures InRange(Concluded(s)) && Listable(s.entries[0]) && CommentClear(s) && DirectoryClear([], s)
  {
    hide CentralFixed, Zip64End, Zip64Locator, EndFixed, CommentClear, DirectoryClear;
    assert s.entries[..0] == [];
    assert |DirectoryBytes(s.entries)| < 0xffff;
    ClearForFree([], s);
  }
}
