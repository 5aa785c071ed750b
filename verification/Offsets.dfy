/**
 SetOffset: an archive written as if behind n other bytes is the same archive, n bytes later.
 */
module Offsets {
  import opened Bytes
  import opened Wrappers
  import opened ZipFormat
  import opened ZipRecords
  import opened Codecs
  import opened WriterModel
  import opened ReaderModel
  import opened HeaderCodec
  import opened ExtraFields
  import opened Layout
  import opened ArchiveRoundTrip
  import Crc

  function ShiftedEntry(e: Entry, n: int): Entry { e.(offset := Uint64(e.offset + n)) }

  function ShiftedEntries(entries: seq<Entry>, n: int): seq<Entry> {
    seq(|entries|, i requires 0 <= i < |entries| => ShiftedEntry(entries[i], n))
  }

  // s with every position n further on, and the output the same.
  function Shifted(s: State, n: int): State {
    s.(count := s.count + n, entries := ShiftedEntries(s.entries, n))
  }

  lemma WrapTwice(a: int, n: int)
    ensures Uint64(Uint64(a) + n) == Uint64(a + n)
  {
  }

  lemma ShiftedSnoc(entries: seq<Entry>, e: Entry, n: int)
    ensures ShiftedEntries(entries + [e], n) == ShiftedEntries(entries, n) + [ShiftedEntry(e, n)]
  {
  }

  lemma ShiftedFront(entries: seq<Entry>, n: int)
    requires entries != []
    ensures ShiftedEntries(entries, n) ==
            ShiftedEntries(entries[..|entries| - 1], n) + [ShiftedEntry(entries[|entries| - 1], n)]
    ensures ShiftedEntries(entries, n)[..|entries| - 1] == ShiftedEntries(entries[..|entries| - 1], n)
  {
  }

  lemma SealShifted(s: State, n: int)
    ensures SealLast(Shifted(s, n)) == Shifted(SealLast(s), n)
  {
    hide Packed, Emitted, SealedHeader, Descriptor, LocalHeader, Flatten, Crc.Checksum;
    ShiftedLength(s.entries, n);
    if IsOpen(s) {
      hide ShiftedEntries;
      var k := |s.entries| - 1;
      ShiftedFront(s.entries, n);
      ShiftedSnoc(s.entries[..k], SealedEntry(s.entries[k]), n);
      assert SealedEntry(ShiftedEntry(s.entries[k], n)) == ShiftedEntry(SealedEntry(s.entries[k]), n);
    }
  }

  lemma AppendShifted(s: State, g: FileHeader, c: Compressor, n: int)
    ensures Append(Shifted(s, n), NewEntry(Shifted(s, n), g, c)) == Shifted(Append(s, NewEntry(s, g, c)), n)
  {
    hide LocalHeader, HeaderError;
    WrapTwice(s.count, n);
    ShiftedSnoc(s.entries, NewEntry(s, g, c), n);
  }

  lemma CreateShifted(s: State, h: FileHeader, again: bool, n: int)
    ensures CreateStep(Shifted(s, n), h, again).0 == Shifted(CreateStep(s, h, again).0, n)
  {
    hide SealLast, Append, NewEntry, Prepared;
    SealShifted(s, n);
    if !again {
      var g, s1 := Prepared(h), SealLast(s);
      var c := if g.IsDirectory() then Some(STORE_COMPRESSOR) else FindCompressor(s1, g.compression);
      if c.Some? {
        AppendShifted(s1, g, c.value, n);
      }
    }
  }

  lemma WriteShifted(s: State, p: bytes, n: int)
    requires IsOpen(s)
    ensures IsOpen(Shifted(s, n)) && WriteStep(Shifted(s, n), p) == Shifted(WriteStep(s, p), n)
  {
    hide ShiftedEntries, Flatten;
    var k := |s.entries| - 1;
    var e := s.entries[k];
    var e' := e.(chunks := e.chunks + [p]);
    ShiftedFront(s.entries, n);
    ShiftedSnoc(s.entries[..k], e', n);
    ShiftedLength(s.entries, n);
    var t := ShiftedEntries(s.entries, n);
    assert t[k] == ShiftedEntry(e, n);
    assert ShiftedEntry(e, n).(chunks := e.chunks + [p]) == ShiftedEntry(e', n);
  }

  lemma ShiftedLength(entries: seq<Entry>, n: int)
    ensures |ShiftedEntries(entries, n)| == |entries|
    ensures forall i :: 0 <= i < |entries| ==> ShiftedEntries(entries, n)[i] == ShiftedEntry(entries[i], n)
  {
  }

  lemma NextShifted(s: State, c: Call, n: int)
    requires !c.SetOffset?
    ensures Next(Shifted(s, n), c) == Shifted(Next(s, c), n)
  {
    hide CreateStep, WriteStep, ShiftedEntries;
    ShiftedLength(s.entries, n);
    match c
    case CreateHeader(h, again) => CreateShifted(s, h, again, n);
    case Write(p) => if IsOpen(s) { WriteShifted(s, p, n); }
    case SetComment(comment) =>
    case RegisterCompressor(m, k) =>
  }

  // A run after SetOffset(n) is the run without it, shifted: same output, same headers.
  lemma {:induction false} RunShifted(registry: map<uint16, Compressor>, calls: seq<Call>, n: int)
    requires forall c :: c in calls ==> !c.SetOffset?
    ensures Run(registry, [SetOffset(n)] + calls) == Shifted(Run(registry, calls), n)
    decreases |calls|
  {
    hide Next;
    var all := [SetOffset(n)] + calls;
    if calls == [] {
      assert all == [SetOffset(n)] && all[..0] == [];
      FirstOffset(registry, n);
    } else {
      var k := |calls| - 1;
      assert all[..|all| - 1] == [SetOffset(n)] + calls[..k];
      RunShifted(registry, calls[..k], n);
      NextShifted(Run(registry, calls[..k]), calls[k], n);
    }
  }

  lemma FirstOffset(registry: map<uint16, Compressor>, n: int)
    ensures Next(NewState(registry), SetOffset(n)) == Shifted(NewState(registry), n)
  {
  }

  // What is listed of an entry stays the same when it moves, even when only the move makes
  // it a zip64 entry; the header offset moves along.
  lemma MovedFile(e: Entry, n: nat)
    requires e.offset + n < INT64_LIMIT
    ensures
      var f, g := ReadBack(e.header, e.offset), ReadBack(ShiftedEntry(e, n).header, ShiftedEntry(e, n).offset);
      var promoted := NeedsZip64(e.header, e.offset + n) && !NeedsZip64(e.header, e.offset);
      && g.headerOffset == f.headerOffset + n
      && g.header == f.header.(
           extra := if NeedsZip64(e.header, e.offset + n) then e.header.extra + Zip64Extra(e.header, e.offset + n)
                    else f.header.extra,
           modified := g.header.modified,
           compressedSize := if promoted then UINT32_MAX else f.header.compressedSize,
           uncompressedSize := if promoted then UINT32_MAX else f.header.uncompressedSize)
      && |g.header.extra| == |f.header.extra| + (if promoted then 28 else 0)
      && (WellFormed(e.header.extra) ==> g.header.modified == f.header.modified)
  {
    hide NonUTF8, ReadModified, FoundTime, Zip64Extra, WellFormed;
    if WellFormed(e.header.extra) {
      FoundTimeListed(e.header, e.offset);
      FoundTimeListed(e.header, e.offset + n);
    }
  }

  // g is the file f with its header n bytes further on. Only a zip64 file, or one that the
  // move made one, shows it: in the zip64 record and the deprecated sizes, and in the time if
  // the caller's extra field made the record read as one.
  ghost predicate MovedBy(f: File, g: File, n: nat) {
    && g.headerOffset == f.headerOffset + n
    && g.header == f.header.(extra := g.header.extra, compressedSize := g.header.compressedSize,
                             uncompressedSize := g.header.uncompressedSize, modified := g.header.modified)
    && (g.headerOffset < UINT32_MAX && !f.header.IsZip64() ==> g.header == f.header)
  }

  lemma MovedListed(e: Entry, n: nat)
    requires e.offset + n < INT64_LIMIT
    ensures
      var f, g := ReadBack(e.header, e.offset), ReadBack(ShiftedEntry(e, n).header, ShiftedEntry(e, n).offset);
      MovedBy(f, g, n) && (WellFormed(e.header.extra) ==> g.header.modified == f.header.modified)
  {
    hide NonUTF8, ReadModified, FoundTime, Zip64Extra, WellFormed;
    MovedFile(e, n);
  }

  lemma EntryInRange(s: State, n: nat, i: nat)
    requires LaidOut(s) && i < |s.entries| && !s.entries[i].phase.Rejected? && Base(s) == 0
    requires InRange(Concluded(Shifted(s, n)))
    ensures s.entries[i].offset + n < INT64_LIMIT
  {
    hide Segments, Coherent, Entry.Segment, ClosingBytes, ShiftedEntries;
    SegmentAt(s, i);
  }

  // SetOffset is transparent: an archive written after SetOffset(n) and put behind n bytes
  // reads as the same files, n bytes further on.
  lemma SetOffsetTransparent(registry: map<uint16, Compressor>, calls: seq<Call>, prefix: bytes)
    requires forall c :: c in calls ==> !c.SetOffset?
    requires ProperRun(registry, calls) && Readable([], SealLast(Run(registry, calls)))
    requires var moved := [SetOffset(|prefix|)] + calls;
             ProperRun(registry, moved) && Readable(prefix, SealLast(Run(registry, moved)))
    ensures
      var entries := SealLast(Run(registry, calls)).entries;
      var a := Init(CloseStep(Run(registry, calls)).0.out);
      var b := Init(prefix + CloseStep(Run(registry, [SetOffset(|prefix|)] + calls)).0.out);
      && a.Ok? && b.Ok? && b.value.comment == a.value.comment
      && |b.value.files| == |a.value.files| == |entries|
      && forall i :: 0 <= i < |entries| ==>
           && MovedBy(a.value.files[i], b.value.files[i], |prefix|)
           && (WellFormed(entries[i].header.extra) ==>
                 b.value.files[i].header.modified == a.value.files[i].header.modified)
  {
    hide SealLast, Run, Concluded, Init, InRange, CommentClear, DirectoryClear, CloseStep, MovedBy, Listable,
      ShiftedEntry, Coherent, Segments, ReadBack, WellFormed;
    var n, moved := |prefix|, [SetOffset(|prefix|)] + calls;
    var s, t := SealLast(Run(registry, calls)), SealLast(Run(registry, moved));
    RunShifted(registry, calls, n);
    SealShifted(Run(registry, calls), n);
    assert t == Shifted(s, n);
    ArchiveRoundTrip.ArchiveRoundTrip(registry, calls, []);
    ArchiveRoundTrip.ArchiveRoundTrip(registry, moved, prefix);
    var out := CloseStep(Run(registry, calls)).0.out;
    assert [] + out == out;
    RunLaidOut(registry, calls);
    SealKeepsLayout(Run(registry, calls));
    ShiftedLength(s.entries, n);
    forall i | 0 <= i < |s.entries|
      ensures MovedBy(FilesOf(s.entries)[i], FilesOf(t.entries)[i], n)
      ensures WellFormed(s.entries[i].header.extra) ==>
                FilesOf(t.entries)[i].header.modified == FilesOf(s.entries)[i].header.modified
    {
      assert s.entries[i] in s.entries && t.entries[i] in t.entries;
      ListableAccepted(s.entries[i]);
      EntryInRange(s, n, i);
      MovedListed(s.entries[i], n);
    }
  }
}
