/**
 What becomes of calls after Close, which the writer does not refuse: their bytes end up
 behind the archive, the second Close writes no directory, and the reader does not see them.
 */
module LateCalls {
  import opened Bytes
  import opened Wrappers
  import opened ZipFormat
  import opened ZipRecords
  import opened WriterModel
  import opened ReaderModel
  import opened Layout
  import opened ArchiveRoundTrip

  // The state after further calls.
  function Continue(s: State, calls: seq<Call>): State {
    if calls == [] then s else Next(Continue(s, calls[..|calls| - 1]), calls[|calls| - 1])
  }

  lemma SealAppends(s: State)
    ensures s.out <= SealLast(s).out && SealLast(s).closed == s.closed
  {
    hide Descriptor, SealedEntry;
  }

  lemma NextAppends(s: State, c: Call)
    ensures s.out <= Next(s, c).out && Next(s, c).closed == s.closed
  {
    hide SealLast, Prepared, NewEntry, Entry.Segment, FindCompressor;
    SealAppends(s);
  }

  lemma {:induction false} ContinueAppends(s: State, calls: seq<Call>)
    ensures s.out <= Continue(s, calls).out && Continue(s, calls).closed == s.closed
    decreases |calls|
  {
    hide Next;
    if calls != [] {
      var front := calls[..|calls| - 1];
      ContinueAppends(s, front);
      NextAppends(Continue(s, front), calls[|calls| - 1]);
    }
  }

  // A record found in a file is found in a longer one as well, if nothing later passes for an
  // end record and the search still gets there.
  lemma SameEnd(file: bytes, after: bytes, p: nat)
    requires LastEnd(file) == Some(p)
    ensures LastEnd(file + after) == Some(p) <==>
            SearchFloor(|file + after|) <= p && forall k :: p < k ==> !EndAt(file + after, k)
  {
    var g := file + after;
    EndStays(file, after, p);
    hide EndAt;
    if SearchFloor(|g|) <= p && forall k :: p < k ==> !EndAt(g, k) {
      LastEndIs(g, |g| - DIRECTORY_END_LEN, SearchFloor(|g|), p);
    } else if exists k :: p < k && EndAt(g, k) {
      var k :| p < k && EndAt(g, k);
      EndAtBound(g, k);
    }
  }

  lemma EndStays(file: bytes, after: bytes, p: nat)
    requires EndAt(file, p)
    ensures p <= |file| - DIRECTORY_END_LEN
    ensures EndAt(file + after, p) && EndRecord(file + after, p) == EndRecord(file, p)
  {
    hide Get16, Get32;
    GetPrefix(file, after, p + 10);
    GetPrefix(file, after, p + 12);
    GetPrefix(file, after, p + 16);
    GetPrefix(file, after, p + 20);
  }

  lemma LocatorStays(file: bytes, after: bytes, p: nat)
    requires p <= |file|
    ensures FindEnd64(file + after, p) == FindEnd64(file, p)
  {
    hide Get32, Get64;
    if p >= DIRECTORY64_LOC_LEN {
      GetPrefix(file, after, p - 20);
      GetPrefix(file, after, p - 16);
      GetPrefix(file, after, p - 12);
      GetPrefix(file, after, p - 4);
    }
  }

  lemma Zip64EndStays(file: bytes, after: bytes, p: nat, d: DirectoryEnd)
    requires ReadEnd64(file, p, d).Ok?
    ensures ReadEnd64(file + after, p, d) == ReadEnd64(file, p, d)
  {
    hide Get32, Get64;
    GetPrefix(file, after, p);
    GetPrefix(file, after, p + 32);
    GetPrefix(file, after, p + 40);
    GetPrefix(file, after, p + 48);
  }

  lemma DirectoryEndStays(file: bytes, after: bytes)
    requires ReadDirectoryEnd(file).Ok? && LastEnd(file + after) == LastEnd(file)
    ensures ReadDirectoryEnd(file + after) == ReadDirectoryEnd(file)
  {
    hide LastEnd, FindEnd64, ReadEnd64, EndRecord, EndAt;
    var p := LastEnd(file).value;
    assert EndAt(file, p) by { LastEndAccepted(file); }
    EndStays(file, after, p);
    LocatorStays(file, after, p);
    var d, q := EndRecord(file, p), FindEnd64(file, p);
    if MaybeZip64(d) && q >= 0 {
      Zip64EndStays(file, after, q, d);
    }
  }

  lemma LastEndAccepted(file: bytes)
    ensures LastEnd(file).Some? ==> EndAt(file, LastEnd(file).value)
  {
  }

  // Bytes behind a closed archive change nothing as long as the search finds the same end.
  lemma BytesBehindIgnored(s: State, prefix: bytes, after: bytes)
    requires LaidOut(s) && (forall e :: e in s.entries ==> !e.phase.Open?) && Readable(prefix, s)
    requires LastEnd(prefix + Concluded(s).out + after) == LastEnd(prefix + Concluded(s).out)
    ensures Init(prefix + Concluded(s).out + after) == Ok(Archive(FilesOf(s.entries), s.comment))
  {
    hide DirectoryBytes, ReadHeaders, ReadDirectoryEnd, LastEnd, CommentClear, DirectoryClear, FilesOf, Coherent,
      Listable, Segments, Concluded;
    var file := prefix + Concluded(s).out;
    ClosedEndRead(s, prefix);
    DirectoryEndStays(file, after);
    ClosedDirectoryRead(s, prefix, after);
    FilesOfLength(s.entries);
  }

  // Calls after Close are accepted, but the entries they make are in no directory: the second
  // Close fails and only completes the last of them. What was written comes to stand behind
  // the archive, where the reader ignores it while its search still ends at the old record;
  // if the search comes up empty, the archive is lost.
  lemma LateCallsLost(s: State, prefix: bytes, calls: seq<Call>)
    requires LaidOut(s) && (forall e :: e in s.entries ==> !e.phase.Open?) && Readable(prefix, s)
    ensures
      var t := Concluded(s);
      var (u, err) := CloseStep(Continue(t, calls));
      && err == Some(ErrWriterClosedTwice) && u == SealLast(Continue(t, calls)) && t.out <= u.out
      && (LastEnd(prefix + u.out) == LastEnd(prefix + t.out) ==>
            Init(prefix + u.out) == Ok(Archive(FilesOf(s.entries), s.comment)))
      && (LastEnd(prefix + u.out).None? ==> Init(prefix + u.out) == Err(ErrFormat))
  {
    hide LastEnd, SealLast, Next, FilesOf, Readable, LaidOut, ClosingBytes, ListAll;
    var t := Concluded(s);
    ContinueAppends(t, calls);
    SealAppends(Continue(t, calls));
    var u := SealLast(Continue(t, calls));
    var after := u.out[|t.out|..];
    assert u.out == t.out + after;
    Associative(prefix, t.out, after);
    if LastEnd(prefix + u.out) == LastEnd(prefix + t.out) {
      hide Init, Concluded;
      BytesBehindIgnored(s, prefix, after);
    }
  }

  // One stored header is enough to see it happen: it is accepted and its local header written.
  lemma LateHeaderAccepted(s: State, h: FileHeader)
    requires !IsOpen(s) && HeaderError(Prepared(h)).None?
    requires h.IsDirectory() || FindCompressor(s, Prepared(h).compression).Some?
    ensures var (t, g, err) := CreateStep(Concluded(s), h, false);
            && err.None? && t.closed
            && t.out == Concluded(s).out + LocalHeader(g)
            && |t.entries| == |s.entries| + 1
  {
    hide LocalHeader, ClosingBytes, TimeToMsDosTime, EncodingFlags, TimestampExtra;
    ListedStaysShut(s);
  }

  lemma ListedStaysShut(s: State)
    requires !IsOpen(s)
    ensures !IsOpen(Concluded(s))
  {
  }
}
