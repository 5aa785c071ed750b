/**
 Where the writer puts things: over every run of calls, the output in front of the central
 directory is tiled by the entries' segments in the order of creation, and the recorded
 offsets are where those segments start.
 */
module Layout {
  import opened Bytes
  import opened Wrappers
  import opened ZipFormat
  import opened ZipRecords
  import opened Codecs
  import opened WriterModel
  import Crc

  function Segments(entries: seq<Entry>): bytes {
    if entries == [] then []
    else Segments(entries[..|entries| - 1]) + entries[|entries| - 1].Segment()
  }

  // The position of the first output byte: 0, or what SetOffset was given.
  function Base(s: State): int { s.count - |s.out| }

  // Positions are below 2^63 and not negative.
  predicate InRange(s: State) { 0 <= Base(s) && s.count < INT64_LIMIT }

  // An entry's header agrees with its data and with the kind of its name.
  predicate Coherent(e: Entry) {
    && (e.phase.Rejected? <==> HeaderError(e.local).Some?)
    && (match e.phase
        case Rejected => true
        case Directory =>
          && e.chunks == []
          && e.local.IsDirectory() && !e.local.HasDataDescriptor() && e.local.compression == STORE
          && e.local.compressedSize == e.local.uncompressedSize == 0
          && e.local.compressedSize64 == e.local.uncompressedSize64 == 0
        case Open => !e.local.IsDirectory() && e.local.HasDataDescriptor()
        case Sealed => !e.local.IsDirectory() && e.local.HasDataDescriptor())
    && e.header ==
       if e.phase.Sealed? then SealedHeader(e.local, Crc.Checksum(e.Raw()), |e.Body()|, |e.Raw()|) else e.local
  }

  // The layout of a state before Close.
  ghost predicate LaidOut(s: State) {
    && s.out == Segments(s.entries)
    && (forall i :: 0 <= i < |s.entries| ==> Coherent(s.entries[i]))
    && (forall i :: 0 <= i < |s.entries| - 1 ==> !s.entries[i].phase.Open?)
    && (forall i :: 0 <= i < |s.entries| && !s.entries[i].phase.Rejected? ==>
          s.entries[i].offset == Uint64(Base(s) + |Segments(s.entries[..i])|))
    && |s.comment| <= UINT16_MAX && !s.closed
  }

  // One call of a client. A write goes to the file writer handed out last.
  datatype Call =
    | SetOffset(n: int)
    | SetComment(comment: bytes)
    | RegisterCompressor(compression: uint16, compressor: Compressor)
    | CreateHeader(header: FileHeader, again: bool)
    | Write(p: bytes)

  function Next(s: State, c: Call): State {
    match c
    case SetOffset(n) => if Uint64(s.count) == 0 then SetOffsetStep(s, n) else s
    case SetComment(comment) => SetCommentStep(s, comment).0
    case RegisterCompressor(m, k) => s.(compressors := s.compressors[m := k])
    case CreateHeader(h, again) => CreateStep(s, h, again).0
    case Write(p) => if IsOpen(s) then WriteStep(s, p) else s
  }

  function Run(registry: map<uint16, Compressor>, calls: seq<Call>): State {
    if calls == [] then NewState(registry)
    else Next(Run(registry, calls[..|calls| - 1]), calls[|calls| - 1])
  }

  ghost predicate ProperRun(registry: map<uint16, Compressor>, calls: seq<Call>) {
    forall i :: 0 <= i <= |calls| ==> InRange(Run(registry, calls[..i]))
  }

  // ---- what each operation does to the layout ----

  lemma SegmentsSnoc(entries: seq<Entry>, e: Entry)
    ensures Segments(entries + [e]) == Segments(entries) + e.Segment()
  {
    assert (entries + [e])[..|entries|] == entries;
  }

  // Replacing the last entry by one with a longer segment moves no other one.
  lemma LastGrows(s: State, t: State, e: Entry, more: bytes)
    requires LaidOut(s) && s.entries != []
    requires var n := |s.entries| - 1;
             && t.entries == s.entries[..n] + [e]
             && e.Segment() == s.entries[n].Segment() + more
             && e.offset == s.entries[n].offset && (e.phase.Rejected? <==> s.entries[n].phase.Rejected?)
    requires t.out == s.out + more && Base(t) == Base(s) && t.comment == s.comment && t.closed == s.closed
    requires Coherent(e)
    ensures LaidOut(t)
  {
    hide Coherent, Entry.Segment, Segments, Uint64;
    var n := |s.entries| - 1;
    var front := s.entries[..n];
    SegmentsSnoc(front, e);
    SegmentsSnoc(front, s.entries[n]);
    assert s.entries == front + [s.entries[n]];
    Associative(Segments(front), s.entries[n].Segment(), more);
    forall i | 0 <= i <= n
      ensures t.entries[..i] == s.entries[..i] && (i < n ==> t.entries[i] == s.entries[i])
    {
    }
  }

  lemma WriteKeepsLayout(s: State, p: bytes)
    requires LaidOut(s) && IsOpen(s)
    ensures LaidOut(WriteStep(s, p)) && Base(WriteStep(s, p)) == Base(s)
  {
    hide LocalHeader, HeaderError, SealedHeader, LaidOut;
    assert Coherent(s.entries[|s.entries| - 1]) by { LastCoherent(s); }
    var n := |s.entries| - 1;
    var e := s.entries[n];
    var e' := e.(chunks := e.chunks + [p]);
    OneMoreChunk(e.compressor, e.chunks, p);
    var more := e.compressor.step(e.chunks, p);
    Associative(LocalHeader(e.local), e.Body(), more);
    LastGrows(s, WriteStep(s, p), e', more);
  }

  lemma LastCoherent(s: State)
    requires LaidOut(s) && s.entries != []
    ensures Coherent(s.entries[|s.entries| - 1])
  {
  }

  lemma SealKeepsLayout(s: State)
    requires LaidOut(s)
    ensures LaidOut(SealLast(s)) && Base(SealLast(s)) == Base(s)
    ensures !IsOpen(SealLast(s)) && !SealLast(s).closed
    ensures forall e :: e in SealLast(s).entries ==> !e.phase.Open?
  {
    hide Coherent, Entry.Segment, SealedEntry, Descriptor;
    if IsOpen(s) {
      var n := |s.entries| - 1;
      var e := s.entries[n];
      LastCoherent(s);
      SealedSegment(e);
      var e' := SealedEntry(e);
      var c, d := e.compressor.finish(e.chunks), Descriptor(e'.header);
      Associative(s.out, c, d);
      LastGrows(s, SealLast(s), e', c + d);
      assert SealLast(s).entries == s.entries[..n] + [e'];
    }
  }

  lemma SealedSegment(e: Entry)
    requires Coherent(e) && e.phase.Open?
    ensures var e' := SealedEntry(e);
            && Coherent(e') && e'.phase.Sealed?
            && e'.offset == e.offset && e'.compressor == e.compressor && e'.chunks == e.chunks
            && e'.Segment() == e.Segment() + (e.compressor.finish(e.chunks) + Descriptor(e'.header))
  {
    hide LocalHeader, HeaderError, SealedHeader, Descriptor, Emitted, Crc.Sum32, Crc.Feed;
    var e' := SealedEntry(e);
    var a, b, c, d := LocalHeader(e.local), e.Body(), e.compressor.finish(e.chunks), Descriptor(e'.header);
    assert e'.Segment() == a + (b + c) + d;
    FourPieces(a, b, c, d);
  }

  lemma FourPieces(a: bytes, b: bytes, c: bytes, d: bytes)
    ensures a + (b + c) + d == a + b + (c + d)
  {
  }

  lemma AppendKeepsLayout(s: State, e: Entry)
    requires LaidOut(s) && !IsOpen(s) && Coherent(e) && e.offset == Uint64(s.count)
    ensures LaidOut(Append(s, e)) && Base(Append(s, e)) == Base(s)
  {
    hide Coherent, Entry.Segment, Segments, Uint64;
    SegmentsSnoc(s.entries, e);
    var t, n := Append(s, e), |s.entries|;
    assert Base(t) == Base(s) && s.count == Base(s) + |s.out|;
    forall i | 0 <= i <= n
      ensures t.entries[..i] == s.entries[..i] && (i < n ==> t.entries[i] == s.entries[i])
    {
    }
    assert s.entries[..n] == s.entries && t.entries[n] == e;
  }

  lemma NewEntryCoherent(s: State, h: FileHeader, compressor: Compressor)
    ensures Coherent(NewEntry(s, Prepared(h), compressor))
  {
    hide WithTimestamp;
    var g := WithTimestamp(WithVersions(h));
    assert Prepared(h).IsDirectory() <==> g.IsDirectory();
  }

  lemma CreateKeepsLayout(s: State, h: FileHeader, again: bool)
    requires LaidOut(s)
    ensures LaidOut(CreateStep(s, h, again).0) && Base(CreateStep(s, h, again).0) == Base(s)
  {
    hide SealLast, Prepared, NewEntry, Append, LaidOut, Coherent;
    var s1 := SealLast(s);
    SealKeepsLayout(s);
    if !again {
      var g := Prepared(h);
      var c := if g.IsDirectory() then Some(STORE_COMPRESSOR) else FindCompressor(s1, g.compression);
      if c.Some? {
        NewEntryCoherent(s1, h, c.value);
        NewEntryOffset(s1, g, c.value);
        AppendKeepsLayout(s1, NewEntry(s1, g, c.value));
      }
    }
  }

  lemma NewEntryOffset(s: State, g: FileHeader, c: Compressor)
    ensures NewEntry(s, g, c).offset == Uint64(s.count)
  {
  }

  // Every call keeps the layout, and the position counter in step with the bytes written;
  // SetOffset, which could move the base, only acts before any byte.
  lemma NextKeepsLayout(s: State, c: Call)
    requires LaidOut(s) && InRange(s)
    ensures LaidOut(Next(s, c))
    ensures s.out != [] || !c.SetOffset? ==> Base(Next(s, c)) == Base(s)
  {
    hide LaidOut, CreateStep, WriteStep;
    match c
    case CreateHeader(h, again) => CreateKeepsLayout(s, h, again);
    case Write(p) => if IsOpen(s) { WriteKeepsLayout(s, p); }
    case SetOffset(n) => if Uint64(s.count) == 0 { SetOffsetKeepsLayout(s, n); }
    case _ => SettingKeepsLayout(s, c);
  }

  lemma SettingKeepsLayout(s: State, c: Call)
    requires LaidOut(s) && (c.SetComment? || c.RegisterCompressor?)
    ensures LaidOut(Next(s, c)) && Base(Next(s, c)) == Base(s)
  {
    hide Coherent, Segments;
  }

  lemma SetOffsetKeepsLayout(s: State, n: int)
    requires LaidOut(s) && InRange(s) && Uint64(s.count) == 0
    ensures s.out == [] && LaidOut(SetOffsetStep(s, n))
  {
    hide Coherent, Entry.Segment;
    assert s.count == 0 && s.out == [];
    NothingWritten(s.entries);
  }

  lemma SegmentOfRefused(e: Entry)
    ensures e.Segment() == [] ==> e.phase.Rejected?
  {
    hide LocalFixed, Entry.Body, Descriptor;
    assert |LocalHeader(e.local)| >= FILE_HEADER_LEN;
  }

  // Without output every entry was refused.
  lemma {:induction false} NothingWritten(entries: seq<Entry>)
    requires Segments(entries) == []
    ensures forall e :: e in entries ==> e.phase.Rejected?
  {
    hide Entry.Segment;
    if entries != [] {
      var n := |entries| - 1;
      NothingWritten(entries[..n]);
      SegmentOfRefused(entries[n]);
      assert entries == entries[..n] + [entries[n]];
    }
  }

  // The layout invariant over whole runs.
  lemma {:induction false} RunLaidOut(registry: map<uint16, Compressor>, calls: seq<Call>)
    requires ProperRun(registry, calls)
    ensures LaidOut(Run(registry, calls)) && InRange(Run(registry, calls))
    decreases |calls|
  {
    hide Next, LaidOut;
    assert calls[..|calls|] == calls;
    if calls == [] {
      NewLaidOut(registry);
    } else {
      var n := |calls| - 1;
      var front := calls[..n];
      forall i | 0 <= i <= |front|
        ensures InRange(Run(registry, front[..i]))
      {
        assert front[..i] == calls[..i];
      }
      RunLaidOut(registry, front);
      NextKeepsLayout(Run(registry, front), calls[n]);
    }
  }

  lemma NewLaidOut(registry: map<uint16, Compressor>)
    ensures LaidOut(NewState(registry))
  {
  }

  // The recorded offset of an entry is where its local header starts in a file that holds
  // the output behind Base(s) other bytes; the next segment starts where this one ends.
  lemma SegmentAt(s: State, i: nat)
    requires LaidOut(s) && i < |s.entries|
    ensures var at := |Segments(s.entries[..i])|;
            && at + |s.entries[i].Segment()| == |Segments(s.entries[..i + 1])| <= |s.out|
            && s.out[at..at + |s.entries[i].Segment()|] == s.entries[i].Segment()
  {
    hide Coherent, Entry.Segment;
    SegmentsPrefix(s.entries, i + 1);
    assert s.entries[..i + 1] == s.entries[..i] + [s.entries[i]];
    SegmentsSnoc(s.entries[..i], s.entries[i]);
  }

  lemma {:induction false} SegmentsPrefix(entries: seq<Entry>, i: nat)
    requires i <= |entries|
    ensures Segments(entries[..i]) <= Segments(entries)
    decreases |entries|
  {
    hide Segments, Entry.Segment;
    if i == |entries| {
      assert entries[..i] == entries;
    } else {
      var n := |entries| - 1;
      SegmentsPrefix(entries[..n], i);
      assert entries[..n][..i] == entries[..i] && entries == entries[..n] + [entries[n]];
      SegmentsSnoc(entries[..n], entries[n]);
    }
  }
}
