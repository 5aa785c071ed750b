/**
 What a client of the writer can note of its own calls, and that the writer does just that.
 */
module ClientJournal {
  import opened Bytes
  import opened Wrappers
  import opened Clock
  import opened ZipFormat
  import opened ZipRecords
  import opened Codecs
  import opened WriterModel
  import opened Layout
  import Crc

  // One entry as the client asked for it: the header it passed, what it wrote, and the
  // compressor in force for the header's method.
  datatype Wanted = Wanted(header: FileHeader, writes: seq<bytes>, compressor: Compressor)

  // The entries asked for, the compressors in force, whether a file is being written, and the
  // archive comment.
  datatype Journal = Journal(
    wanted: seq<Wanted>, methods: map<uint16, Compressor>, writing: bool, comment: bytes)

  // A trailing slash makes a directory.
  predicate NamesDirectory(h: FileHeader) { h.name != [] && h.name[|h.name| - 1] == '/' as int }

  // The name and the extra field, with the timestamp CreateHeader adds to it, fit.
  predicate HeaderFits(h: FileHeader) {
    |h.name| <= 65535 && |h.extra| + (if IsZero(h.modified) then 0 else 9) <= 65535
  }

  // A header asks for an entry unless it is passed twice in a row or its method is unknown; in
  // any case the file before it is complete. Writes go to the file whose header came last and
  // fitted. A compressor registered with the writer replaces the one there was; a comment
  // replaces the one there was if it is not too long.
  function Noted(j: Journal, c: Call): Journal {
    match c
    case CreateHeader(h, again) =>
      if again || (!NamesDirectory(h) && h.compression !in j.methods) then j.(writing := false)
      else
        var compressor := if NamesDirectory(h) then STORE_COMPRESSOR else j.methods[h.compression];
        j.(wanted := j.wanted + [Wanted(h, [], compressor)], writing := !NamesDirectory(h) && HeaderFits(h))
    case Write(p) =>
      if j.writing && j.wanted != [] then
        var k := |j.wanted| - 1;
        j.(wanted := j.wanted[k := j.wanted[k].(writes := j.wanted[k].writes + [p])])
      else j
    case RegisterCompressor(m, k) => j.(methods := j.methods[m := k])
    case SetComment(comment) => if |comment| <= 65535 then j.(comment := comment) else j
    case SetOffset(n) => j
  }

  // The journal of a run; nothing of the writer enters into it.
  function Notes(registry: map<uint16, Compressor>, calls: seq<Call>): Journal {
    if calls == [] then Journal([], registry, false, [])
    else Noted(Notes(registry, calls[..|calls| - 1]), calls[|calls| - 1])
  }

  function Log(registry: map<uint16, Compressor>, calls: seq<Call>): seq<Wanted> { Notes(registry, calls).wanted }

  // The writer's entry is the one asked for.
  ghost predicate Answers(e: Entry, w: Wanted) {
    e.local == Prepared(w.header) && e.chunks == w.writes && e.compressor == w.compressor
  }

  // Entry by entry, the writer did what was asked.
  ghost predicate Follows(entries: seq<Entry>, log: seq<Wanted>) {
    |entries| == |log| && forall i :: 0 <= i < |log| ==> Answers(entries[i], log[i])
  }

  ghost predicate Agrees(s: State, j: Journal) {
    && Follows(s.entries, j.wanted)
    && (IsOpen(s) <==> j.writing)
    && j.methods == s.registry + s.compressors
    && j.comment == s.comment
  }

  lemma SealFollows(s: State, log: seq<Wanted>)
    requires Follows(s.entries, log)
    ensures Follows(SealLast(s).entries, log)
  {
    hide Prepared, SealedHeader, Flatten, Packed, Descriptor, Crc.Checksum;
  }

  lemma SealedIsClosed(s: State)
    ensures !IsOpen(SealLast(s))
    ensures SealLast(s).compressors == s.compressors && SealLast(s).registry == s.registry
    ensures SealLast(s).comment == s.comment
  {
    hide Packed, Descriptor, SealedHeader, Flatten, Crc.Checksum;
  }

  lemma PreparedFits(h: FileHeader)
    ensures HeaderError(Prepared(h)).None? <==> HeaderFits(h)
    ensures HeaderError(Prepared(h)) ==
            if |h.name| > 65535 then Some(ErrLongName) else if HeaderFits(h) then None else Some(ErrLongExtra)
    ensures Prepared(h).IsDirectory() <==> NamesDirectory(h)
    ensures h.IsDirectory() <==> NamesDirectory(h)
    ensures !NamesDirectory(h) ==> Prepared(h).compression == h.compression
  {
    hide Put16, Put32, TimeToMsDosTime, EncodingFlags;
  }

  lemma EntryAgrees(s: State, h: FileHeader, c: Compressor, j: Journal)
    requires Agrees(s, j) && !IsOpen(s)
    ensures Agrees(Append(s, NewEntry(s, Prepared(h), c)),
                   j.(wanted := j.wanted + [Wanted(h, [], c)], writing := !NamesDirectory(h) && HeaderFits(h)))
  {
    hide Prepared, HeaderFits, NamesDirectory, Entry.Segment;
    PreparedFits(h);
  }

  lemma CompressorInForce(s: State, m: uint16)
    ensures FindCompressor(s, m).Some? <==> m in s.registry + s.compressors
    ensures m in s.registry + s.compressors ==> FindCompressor(s, m).value == (s.registry + s.compressors)[m]
  {
  }

  lemma CreateAgrees(s: State, h: FileHeader, again: bool, j: Journal)
    requires Agrees(s, j)
    ensures Agrees(CreateStep(s, h, again).0, Noted(j, CreateHeader(h, again)))
  {
    hide Prepared, SealLast, HeaderFits, NamesDirectory, Append, NewEntry, Follows, FindCompressor;
    SealFollows(s, j.wanted);
    SealedIsClosed(s);
    PreparedFits(h);
    var s1, g := SealLast(s), Prepared(h);
    CompressorInForce(s1, h.compression);
    if !again {
      if NamesDirectory(h) {
        EntryAgrees(s1, h, STORE_COMPRESSOR, j.(writing := false));
      } else if FindCompressor(s1, g.compression).Some? {
        EntryAgrees(s1, h, FindCompressor(s1, g.compression).value, j.(writing := false));
      }
    }
  }

  lemma WriteAgrees(s: State, p: bytes, j: Journal)
    requires Agrees(s, j) && IsOpen(s)
    ensures Agrees(WriteStep(s, p), Noted(j, Write(p)))
  {
    hide Prepared;
  }

  lemma {:induction false} RunAgrees(registry: map<uint16, Compressor>, calls: seq<Call>)
    ensures Agrees(Run(registry, calls), Notes(registry, calls))
    decreases |calls|
  {
    hide Prepared, CreateStep, WriteStep, Follows, HeaderFits, NamesDirectory;
    if calls == [] {
      NothingFollows();
      assert registry + map[] == registry;
    } else {
      var n := |calls| - 1;
      RunAgrees(registry, calls[..n]);
      var s, j := Run(registry, calls[..n]), Notes(registry, calls[..n]);
      match calls[n]
      case CreateHeader(h, again) => CreateAgrees(s, h, again, j);
      case Write(p) => if IsOpen(s) { WriteAgrees(s, p, j); }
      case RegisterCompressor(m, k) =>
        assert s.registry + s.compressors[m := k] == (s.registry + s.compressors)[m := k];
      case _ =>
    }
  }

  lemma NothingFollows()
    ensures Follows([], [])
  {
  }

  // Every run does what the client noted: entry by entry, with all the data and the right
  // compressor, and with the last comment that was accepted.
  lemma RunFollows(registry: map<uint16, Compressor>, calls: seq<Call>)
    ensures var s := SealLast(Run(registry, calls));
            Follows(s.entries, Log(registry, calls)) && s.comment == Notes(registry, calls).comment
  {
    hide SealLast, Run, Notes, Follows;
    RunAgrees(registry, calls);
    SealFollows(Run(registry, calls), Log(registry, calls));
    SealedIsClosed(Run(registry, calls));
  }

  // How SetComment answers.
  lemma CommentOutcome(s: State, comment: bytes)
    ensures var (t, err) := SetCommentStep(s, comment);
            && (err == None <==> |comment| <= 65535) && (err.Some? ==> err == Some(ErrLongComment) && t == s)
            && (err == None ==> t == s.(comment := comment))
  {
  }

  // How CreateHeader answers: a header passed twice in a row and an unknown method add nothing;
  // a name or extra field that is too long adds an entry without a byte; any other header adds
  // its local copy. In each case the file before is complete, and if that is the one with the same
  // header, so is its header.
  lemma CreateOutcome(s: State, h: FileHeader, again: bool)
    ensures
      var (t, g, err) := CreateStep(s, h, again);
      var before := SealLast(s);
      if again then
        && t == before && err == Some(ErrDuplicateHeader)
        && g == if IsOpen(s) then before.entries[|before.entries| - 1].header else h
      else if !NamesDirectory(h) && h.compression !in s.registry + s.compressors then
        t == before && g == Prepared(h) && err == Some(ErrAlgorithm)
      else
        && g == Prepared(h) && |t.entries| == |before.entries| + 1 && t.entries[..|before.entries|] == before.entries
        && err == (if |h.name| > 65535 then Some(ErrLongName) else if !HeaderFits(h) then Some(ErrLongExtra) else None)
        && t.out == before.out + if err.None? then LocalHeader(g) else []
  {
    hide Prepared, SealLast, HeaderFits, NamesDirectory, FindCompressor, LocalHeader, HeaderError;
    SealedIsClosed(s);
    PreparedFits(h);
    CompressorInForce(SealLast(s), h.compression);
  }
}
