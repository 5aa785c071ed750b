/**
 The whole archive: what the writer emits, behind any prefix, is read back by the reader as
 the same list of entries.
 */
module ArchiveRoundTrip {
  import opened Bytes
  import opened Wrappers
  import opened ZipFormat
  import opened ZipRecords
  import opened WriterModel
  import opened ReaderModel
  import opened HeaderCodec
  import opened EndCodec
  import opened Layout
  import opened Codecs

  // What a caller has to see to for one entry: its name, comment and listed extra field fit
  // their length fields, and if it needs a zip64 record the first one there tells the truth.
  predicate Listable(e: Entry) { Recoverable(e.header, e.offset) }

  function FilesOf(entries: seq<Entry>): seq<File> {
    seq(|entries|, i requires 0 <= i < |entries| => ReadBack(entries[i].header, entries[i].offset))
  }

  // ---- the central directory ----

  // A refused header does not fit. That is why CreateHeader refuses it; it has entered it in
  // the directory all the same.
  lemma RefusedNeverFits(e: Entry)
    requires Coherent(e) && e.phase.Rejected?
    ensures !LengthsFit(e.header, e.offset)
  {
  }

  lemma ListableAccepted(e: Entry)
    requires Coherent(e) && Listable(e)
    ensures !e.phase.Rejected?
  {
    hide Coherent, LengthsFit, Zip64Told;
    if e.phase.Rejected? {
      RefusedNeverFits(e);
    }
  }

  lemma FittingSizesAgree(e: Entry)
    requires Coherent(e) && !e.phase.Open? && LengthsFit(e.header, e.offset)
    ensures SizesAgree(e.header)
  {
    hide Crc.Checksum, LengthsFit, HeaderError;
    if e.phase.Rejected? {
      RefusedNeverFits(e);
    }
  }

  // Reading a directory followed by anything is reading its entries and then the rest.
  lemma {:induction false} DirectoryRoundTrip(entries: seq<Entry>, tail: bytes)
    requires forall e :: e in entries ==> Coherent(e) && Listable(e) && !e.phase.Open?
    ensures ReadHeaders(DirectoryBytes(entries) + tail) ==
            (FilesOf(entries) + ReadHeaders(tail).0, ReadHeaders(tail).1)
    decreases |entries|
  {
    hide ParseHeader, Central, ReadBack, Coherent, LengthsFit, Zip64Told;
    if entries == [] {
      assert DirectoryBytes(entries) + tail == tail;
      assert FilesOf(entries) + ReadHeaders(tail).0 == ReadHeaders(tail).0;
    } else {
      var n := |entries| - 1;
      var front, e := entries[..n], entries[n];
      var record := Central(e.header, e.offset);
      Associative(DirectoryBytes(front), record, tail);
      DirectoryRoundTrip(front, record + tail);
      FittingSizesAgree(e);
      HeaderRoundTrip(e.header, e.offset, tail);
      assert (record + tail)[|record|..] == tail;
      assert FilesOf(entries) == FilesOf(front) + [ReadBack(e.header, e.offset)];
      Regroup(FilesOf(front), [ReadBack(e.header, e.offset)], ReadHeaders(tail).0);
      assert ReadHeaders(record + tail).0 == [ReadBack(e.header, e.offset)] + ReadHeaders(tail).0;
    }
  }

  lemma Regroup(a: seq<File>, b: seq<File>, c: seq<File>)
    ensures a + (b + c) == a + b + c
  {
  }

  lemma {:induction false} ReadFilesFit(b: bytes)
    ensures forall f :: f in ReadHeaders(b).0 ==>
              |f.header.name| <= UINT16_MAX && |f.header.extra| <= UINT16_MAX && |f.header.comment| <= UINT16_MAX
    decreases |b|
  {
    hide ParseHeader;
    ParsedLengths(b);
    if ParseHeader(b).Ok? {
      ReadFilesFit(b[ParseHeader(b).value.1..]);
    }
  }

  // Conversely, a directory whose entries are all read back has only listable ones.
  lemma AllListable(entries: seq<Entry>, tail: bytes)
    requires forall e :: e in entries ==> Coherent(e) && !e.phase.Open?
    requires FilesOf(entries) <= ReadHeaders(DirectoryBytes(entries) + tail).0
    ensures forall e :: e in entries ==> Listable(e)
  {
    hide ReadHeaders, DirectoryBytes, Coherent, Zip64Told, ReadModified, NonUTF8, FoundTime, Zip64Extra;
    ReadFilesFit(DirectoryBytes(entries) + tail);
    forall i | 0 <= i < |entries|
      ensures LengthsFit(entries[i].header, entries[i].offset)
    {
      assert FilesOf(entries)[i] in ReadHeaders(DirectoryBytes(entries) + tail).0;
    }
    AllTold(entries, tail);
  }

  lemma {:induction false} AllTold(entries: seq<Entry>, tail: bytes)
    requires forall e :: e in entries ==> Coherent(e) && !e.phase.Open? && LengthsFit(e.header, e.offset)
    requires FilesOf(entries) <= ReadHeaders(DirectoryBytes(entries) + tail).0
    ensures forall e :: e in entries ==> Listable(e)
    decreases |entries|
  {
    hide ParseHeader, Central, ReadBack, Coherent, LengthsFit, Zip64Told;
    if entries != [] {
      var n := |entries| - 1;
      var front, e := entries[..n], entries[n];
      var record, f := Central(e.header, e.offset), ReadBack(e.header, e.offset);
      Associative(DirectoryBytes(front), record, tail);
      assert FilesOf(entries) == FilesOf(front) + [f];
      AllTold(front, record + tail);
      DirectoryRoundTrip(front, record + tail);
      FittingSizesAgree(e);
      var read := ReadHeaders(record + tail).0;
      assert (FilesOf(front) + read)[n] == FilesOf(entries)[n] == f;
      assert read != [] && read[0] == f;
      FirstIsTold(e, tail);
    }
  }

  // The first file read is the true one: so its header was told.
  lemma FirstIsTold(e: Entry, tail: bytes)
    requires LengthsFit(e.header, e.offset) && SizesAgree(e.header)
    requires var read := ReadHeaders(Central(e.header, e.offset) + tail).0;
             read != [] && read[0] == ReadBack(e.header, e.offset)
    ensures Listable(e)
  {
    hide ParseHeader, Central, ReadBack, Zip64Told, WalkExtras;
    ParseByWalk(e.header, e.offset, tail);
    HeaderRoundTripIff(e.header, e.offset, tail);
  }

  // The header loop stops in front of the trailer, whatever follows it, with one of the two
  // errors it tolerates.
  lemma TrailerStops(records: uint64, size: uint64, offset: uint64, end: uint64, comment: bytes, after: bytes)
    ensures var t := Trailer(records, size, offset, end, comment) + after;
            && |t| >= DIRECTORY_END_LEN
            && ReadHeaders(t).0 == []
            && (ReadHeaders(t).1 == ErrFormat || ReadHeaders(t).1 == UnexpectedEOF)
  {
    hide Zip64End, Zip64Locator, EndFixed;
    var t := Trailer(records, size, offset, end, comment) + after;
    if EndNeedsZip64(records, size, offset) {
      var a, clamped := Zip64End(records, size, offset), EndFixed(UINT16_MAX, UINT32_MAX, UINT32_MAX, comment);
      var rest := Zip64Locator(end) + clamped + comment + after;
      Zip64EndFields(records, size, offset);
      assert t == a + rest;
      GetPrefix(a, rest, 0);
    } else {
      EndFields(records, size, offset, comment);
      assert t == EndFixed(records, size, offset, comment) + (comment + after);
      GetPrefix(EndFixed(records, size, offset, comment), comment + after, 0);
    }
  }

  lemma {:induction false} DirectoryLength(entries: seq<Entry>)
    ensures |DirectoryBytes(entries)| >= DIRECTORY_HEADER_LEN * |entries|
  {
    hide CentralFixed;
    if entries != [] {
      DirectoryLength(entries[..|entries| - 1]);
    }
  }

  // ---- the archive ----

  // The archive comment hides no later end record.
  ghost predicate CommentClear(s: State) {
    Unambiguous(EndPart(Uint64(|s.entries|), Uint64(|DirectoryBytes(s.entries)|), Uint64(s.count), s.comment))
  }

  // A directory of exactly 65535 bytes does not end like a misleading zip64 locator.
  ghost predicate DirectoryClear(prefix: bytes, s: State) {
    var size := |DirectoryBytes(s.entries)|;
    PlainEndClear(prefix + s.out + DirectoryBytes(s.entries), Uint64(|s.entries|), Uint64(size), Uint64(s.count),
                  s.comment)
  }

  // Everything a caller has to see to, in the state s that Close starts the directory in.
  ghost predicate Readable(prefix: bytes, s: State) {
    && |prefix| == Base(s) && InRange(Concluded(s))
    && (forall e :: e in s.entries ==> Listable(e)) && CommentClear(s) && DirectoryClear(prefix, s)
  }

  // Where the parts of the closed archive lie, with any bytes behind it.
  lemma ClosedParts(s: State, prefix: bytes, after: bytes)
    requires |prefix| == Base(s) && InRange(Concluded(s))
    ensures
      var dir, n := DirectoryBytes(s.entries), |s.entries|;
      var front := prefix + s.out + dir;
      var trailer := Trailer(Uint64(n), Uint64(|dir|), Uint64(s.count), Uint64(|front|), s.comment);
      var file := prefix + Concluded(s).out + after;
      && |front| == s.count + |dir| < INT64_LIMIT && n <= |dir|
      && file == front + (trailer + after)
      && file[s.count..] == dir + (trailer + after)
      && n <= |file| / FILE_HEADER_LEN
  {
    hide Trailer, DirectoryBytes;
    var dir, n := DirectoryBytes(s.entries), |s.entries|;
    DirectoryLength(s.entries);
    var front := prefix + s.out + dir;
    var trailer := Trailer(Uint64(n), Uint64(|dir|), Uint64(s.count), Uint64(|front|), s.comment);
    FivePieces(prefix, s.out, dir, trailer, after);
  }

  lemma FivePieces(a: bytes, b: bytes, c: bytes, d: bytes, e: bytes)
    ensures a + (b + (c + d)) + e == a + b + c + (d + e)
    ensures (a + b + c + (d + e))[|a + b|..] == c + (d + e)
  {
  }

  // The header loop on the closed archive, with any bytes behind it.
  lemma ClosedDirectoryRead(s: State, prefix: bytes, after: bytes)
    requires forall e :: e in s.entries ==> Coherent(e) && Listable(e) && !e.phase.Open?
    requires |prefix| == Base(s) && InRange(Concluded(s))
    ensures var file := prefix + Concluded(s).out + after;
            && s.count <= |file|
            && var (files, e) := ReadHeaders(file[s.count..]);
            files == FilesOf(s.entries) && (e == ErrFormat || e == UnexpectedEOF)
  {
    hide Trailer, DirectoryBytes, ReadHeaders, FilesOf, Coherent, Listable, Concluded;
    var dir, n := DirectoryBytes(s.entries), |s.entries|;
    var front := prefix + s.out + dir;
    ClosedParts(s, prefix, after);
    var trailer := Trailer(Uint64(n), Uint64(|dir|), Uint64(s.count), Uint64(|front|), s.comment);
    DirectoryRoundTrip(s.entries, trailer + after);
    TrailerStops(Uint64(n), Uint64(|dir|), Uint64(s.count), Uint64(|front|), s.comment, after);
    assert FilesOf(s.entries) + [] == FilesOf(s.entries);
  }

  // The end of the directory on the closed archive.
  lemma ClosedEndRead(s: State, prefix: bytes)
    requires |prefix| == Base(s) && InRange(Concluded(s)) && DirectoryClear(prefix, s) && |s.comment| <= UINT16_MAX
    ensures
      var file, end := prefix + Concluded(s).out, ReadDirectoryEnd(prefix + Concluded(s).out);
      && |s.entries| <= |file| / FILE_HEADER_LEN && 0 <= s.count < |file| && s.count < INT64_LIMIT
      && (CommentClear(s) ==> end == Ok(DirectoryEnd(|s.entries|, |DirectoryBytes(s.entries)|, s.count, s.comment)))
      && (!CommentClear(s) && end.Ok? ==> end.value.comment != s.comment)
  {
    hide Trailer, DirectoryBytes, ReadDirectoryEnd, Unambiguous, EndPart, PlainEndClear, Concluded;
    var dir, n := DirectoryBytes(s.entries), |s.entries|;
    var front := prefix + s.out + dir;
    ClosedParts(s, prefix, []);
    var trailer := Trailer(n, |dir|, s.count, |front|, s.comment);
    var file := prefix + Concluded(s).out;
    assert file + [] == file && trailer + [] == trailer && file == front + trailer;
    if CommentClear(s) {
      EndRoundTrip(front, n, |dir|, s.count, s.comment);
    } else {
      AmbiguousEndRead(front, n, |dir|, s.count, s.comment);
    }
    TrailerNotEmpty(n, |dir|, s.count, |front|, s.comment);
  }

  lemma AmbiguousEndRead(front: bytes, records: uint64, size: uint64, offset: uint64, comment: bytes)
    requires |comment| <= UINT16_MAX && |front| < INT64_LIMIT && !Unambiguous(EndPart(records, size, offset, comment))
    ensures var end := ReadDirectoryEnd(front + Trailer(records, size, offset, |front|, comment));
            end.Ok? ==> end.value.comment != comment
  {
    hide Trailer, ReadDirectoryEnd, Unambiguous, EndPart, Zip64Part;
    var zip64, part := Zip64Part(records, size, offset, |front|), EndPart(records, size, offset, comment);
    TrailerParts(records, size, offset, |front|, comment);
    Associative(front, zip64, part);
    LaterEndIsShorter(front + zip64, records, size, offset, comment);
  }

  lemma TrailerNotEmpty(records: uint64, size: uint64, offset: uint64, end: uint64, comment: bytes)
    ensures |Trailer(records, size, offset, end, comment)| >= DIRECTORY_END_LEN
  {
    hide Zip64End, Zip64Locator, EndFixed;
  }

  // Close on a state with no open entry, read back.
  lemma ConcludedRoundTrip(s: State, prefix: bytes)
    requires LaidOut(s) && forall e :: e in s.entries ==> !e.phase.Open?
    requires |prefix| == Base(s) && InRange(Concluded(s)) && DirectoryClear(prefix, s)
    ensures Init(prefix + Concluded(s).out) == Ok(Archive(FilesOf(s.entries), s.comment)) <==>
            CommentClear(s) && forall e :: e in s.entries ==> Listable(e)
  {
    hide DirectoryBytes, ReadHeaders, ReadDirectoryEnd, CommentClear, DirectoryClear, FilesOf, Coherent, Listable,
      Segments, Concluded;
    var file := prefix + Concluded(s).out;
    assert file + [] == file;
    ClosedEndRead(s, prefix);
    if CommentClear(s) {
      if forall e :: e in s.entries ==> Listable(e) {
        ClosedDirectoryRead(s, prefix, []);
        FilesOfLength(s.entries);
      } else if FilesOf(s.entries) == ReadHeaders(file[s.count..]).0 {
        ClosedAllListable(s, prefix);
      }
    }
  }

  lemma ClosedAllListable(s: State, prefix: bytes)
    requires forall e :: e in s.entries ==> Coherent(e) && !e.phase.Open?
    requires |prefix| == Base(s) && InRange(Concluded(s))
    requires var file := prefix + Concluded(s).out;
             s.count <= |file| && FilesOf(s.entries) == ReadHeaders(file[s.count..]).0
    ensures forall e :: e in s.entries ==> Listable(e)
  {
    hide Trailer, DirectoryBytes, ReadHeaders, FilesOf, Coherent, Listable, Concluded;
    var dir, n := DirectoryBytes(s.entries), |s.entries|;
    var front := prefix + s.out + dir;
    ClosedParts(s, prefix, []);
    assert prefix + Concluded(s).out + [] == prefix + Concluded(s).out;
    AllListable(s.entries, Trailer(Uint64(n), Uint64(|dir|), Uint64(s.count), Uint64(|front|), s.comment) + []);
  }

  lemma FilesOfLength(entries: seq<Entry>)
    ensures |FilesOf(entries)| == |entries|
  {
  }

  // For every run of calls and the Close after it: if no position leaves its range and the
  // output stands behind as many other bytes as SetOffset was told, the reader lists the
  // entries in order of creation, with their final headers and positions (FilesOf and ReadBack
  // say which fields), exactly if the comment is clear and every entry is listable.
  lemma ArchiveRoundTrip(registry: map<uint16, Compressor>, calls: seq<Call>, prefix: bytes)
    requires ProperRun(registry, calls)
    requires var s := SealLast(Run(registry, calls));
             |prefix| == Base(s) && InRange(Concluded(s)) && DirectoryClear(prefix, s)
    ensures var s := SealLast(Run(registry, calls));
            var (t, err) := CloseStep(Run(registry, calls));
            && err.None?
            && (Init(prefix + t.out) == Ok(Archive(FilesOf(s.entries), s.comment)) <==>
                CommentClear(s) && forall e :: e in s.entries ==> Listable(e))
  {
    hide SealLast, Run, LaidOut, Listable, DirectoryClear, CommentClear, Concluded, Init, FilesOf, InRange;
    RunLaidOut(registry, calls);
    SealKeepsLayout(Run(registry, calls));
    ConcludedRoundTrip(SealLast(Run(registry, calls)), prefix);
  }

  // A comment shorter than ten bytes is clear, and so is a directory that is not exactly
  // 65535 bytes long.
  lemma ClearForFree(prefix: bytes, s: State)
    ensures |s.comment| < 10 ==> CommentClear(s)
    ensures Uint64(|DirectoryBytes(s.entries)|) != 0xffff ==> DirectoryClear(prefix, s)
  {
    hide EndPart, Unambiguous;
    if |s.comment| < 10 {
      ShortCommentUnambiguous(Uint64(|s.entries|), Uint64(|DirectoryBytes(s.entries)|), Uint64(s.count), s.comment);
    }
  }
}
