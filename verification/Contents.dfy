/**
 Reading contents: what an end of file from the checksum reader is worth, and that every
 entry's bytes come back.
 */
module Contents {
  import opened Bytes
  import opened Wrappers
  import opened ZipFormat
  import opened ZipRecords
  import opened Codecs
  import opened WriterModel
  import opened ReaderModel
  import opened HeaderCodec
  import opened EndCodec
  import opened Layout
  import Crc

  // What reading the descriptor section gives, if the file has one.
  type MaybeDescriptor = Option<Result<bytes, Error>>

  // ---- the checksum reader over whole runs ----

  // The state after the underlying reader has answered `script`.
  function After(h: FileHeader, d: MaybeDescriptor, script: seq<Delivery>): Check {
    if script == [] then NEW_CHECK
    else CheckStep(h, d, After(h, d, script[..|script| - 1]), script[|script| - 1]).0
  }

  // The answer to the k-th Read.
  function Answer(h: FileHeader, d: MaybeDescriptor, script: seq<Delivery>, k: nat): Delivery
    requires k < |script|
  {
    CheckStep(h, d, After(h, d, script[..k]), script[k]).1
  }

  function Data(script: seq<Delivery>): bytes {
    if script == [] then [] else Data(script[..|script| - 1]) + script[|script| - 1].data
  }

  // The bytes are the file's: as many as the header says, a descriptor that agrees with the
  // header, and the right checksum; without descriptor a zero CRC counts as none given.
  predicate Verified(h: FileHeader, d: MaybeDescriptor, b: bytes) {
    && Uint64(|b|) == h.uncompressedSize64
    && match d
       case None => h.crc32 == 0 || Crc.Checksum(b) == h.crc32
       case Some(Err(_)) => false
       case Some(Ok(s)) => DescriptorError(s, h.crc32).None? && Crc.Checksum(b) == h.crc32
  }

  predicate VerifiedAt(h: FileHeader, d: MaybeDescriptor, script: seq<Delivery>, n: nat) {
    n <= |script| && Verified(h, d, Data(script[..n]))
  }

  // Until an error sticks, the state counts and hashes all that was delivered; a stuck EOF
  // was earned by a verified prefix.
  ghost predicate Faithful(h: FileHeader, d: MaybeDescriptor, c: Check, script: seq<Delivery>) {
    && (c.err.None? ==> c.hash == Crc.Feed(Crc.NEW_IEEE, Data(script)) && c.nread == Uint64(|Data(script)|))
    && (c.err == Some(EOF) ==> exists n: nat :: VerifiedAt(h, d, script, n))
  }

  lemma VerdictVerifies(h: FileHeader, d: MaybeDescriptor, b: bytes)
    requires Uint64(|b|) == h.uncompressedSize64
    ensures Verdict(h, d, Crc.Feed(Crc.NEW_IEEE, b)) == EOF <==> Verified(h, d, b)
  {
    hide Crc.Feed, Crc.Sum32, DescriptorError;
  }

  lemma {:induction false} RunFaithful(h: FileHeader, d: MaybeDescriptor, script: seq<Delivery>)
    ensures Faithful(h, d, After(h, d, script), script)
    decreases |script|
  {
    hide CheckStep, Verified;
    if script == [] {
      FeedNothing();
    } else {
      var n := |script| - 1;
      RunFaithful(h, d, script[..n]);
      StepFaithful(h, d, After(h, d, script[..n]), script);
    }
  }

  // One Read while no error has stuck and `fed` was delivered before.
  lemma OneRead(h: FileHeader, d: MaybeDescriptor, c: Check, got: Delivery, fed: bytes)
    requires c.err.None? && c.hash == Crc.Feed(Crc.NEW_IEEE, fed) && c.nread == Uint64(|fed|)
    ensures
      var (c1, r) := CheckStep(h, d, c, got);
      var all := fed + got.data;
      && c1.hash == Crc.Feed(Crc.NEW_IEEE, all) && c1.nread == Uint64(|all|)
      && (got.err != Some(EOF) ==> r == got && c1.err == got.err)
      && (got.err == Some(EOF) ==>
            && r.err.Some?
            && (r == got <==> Verified(h, d, all))
            && (c1.err == Some(EOF) ==> Verified(h, d, all)))
  {
    hide Crc.Feed, Crc.Sum32, Verified, Verdict;
    var all := fed + got.data;
    Crc.FeedConcat(Crc.NEW_IEEE, fed, got.data);
    if Uint64(|all|) == h.uncompressedSize64 {
      VerdictVerifies(h, d, all);
    } else {
      WrongLength(h, d, all);
    }
  }

  lemma WrongLength(h: FileHeader, d: MaybeDescriptor, b: bytes)
    requires Uint64(|b|) != h.uncompressedSize64
    ensures !Verified(h, d, b)
  {
  }

  lemma StuckRead(h: FileHeader, d: MaybeDescriptor, c: Check, got: Delivery)
    requires c.err.Some?
    ensures CheckStep(h, d, c, got) == (c, Delivery([], c.err))
  {
  }

  lemma StepFaithful(h: FileHeader, d: MaybeDescriptor, c: Check, script: seq<Delivery>)
    requires script != [] && Faithful(h, d, c, script[..|script| - 1])
    ensures Faithful(h, d, CheckStep(h, d, c, script[|script| - 1]).0, script)
  {
    hide CheckStep, Crc.Feed, Verified;
    var n := |script| - 1;
    var front, got := script[..n], script[n];
    if c.err.None? {
      OneRead(h, d, c, got, Data(front));
      assert script[..n + 1] == script;
      assert Verified(h, d, Data(script)) ==> VerifiedAt(h, d, script, n + 1);
    } else {
      StuckRead(h, d, c, got);
      if c.err == Some(EOF) {
        var i: nat :| VerifiedAt(h, d, front, i);
        assert front[..i] == script[..i];
        assert VerifiedAt(h, d, script, i);
      }
    }
  }

  lemma FeedNothing()
    ensures Crc.Feed(Crc.NEW_IEEE, []) == Crc.NEW_IEEE
  {
  }

  // Whatever the underlying reader does: an end of file is only ever reported when the bytes
  // it delivered up to some point are the file's.
  lemma EofMeansVerified(h: FileHeader, d: MaybeDescriptor, script: seq<Delivery>, k: nat)
    requires k < |script| && Answer(h, d, script, k).err == Some(EOF)
    ensures exists n: nat :: n <= k + 1 && VerifiedAt(h, d, script, n)
  {
    hide CheckStep, Verified;
    var upTo := script[..k + 1];
    assert upTo[..k] == script[..k];
    RunFaithful(h, d, upTo);
    EofSticks(h, d, After(h, d, script[..k]), script[k]);
    var n: nat :| VerifiedAt(h, d, upTo, n);
    assert upTo[..n] == script[..n];
    assert VerifiedAt(h, d, script, n);
  }

  lemma EofSticks(h: FileHeader, d: MaybeDescriptor, c: Check, got: Delivery)
    ensures var (c1, r) := CheckStep(h, d, c, got); r.err == Some(EOF) ==> c1.err == Some(EOF)
  {
  }

  // The k-th Read met the end of the stream with the wrong number of bytes.
  predicate Premature(h: FileHeader, d: MaybeDescriptor, script: seq<Delivery>, k: nat)
    requires k < |script|
  {
    && After(h, d, script[..k]).err.None?
    && script[k].err == Some(EOF)
    && After(h, d, script[..k + 1]).nread != h.uncompressedSize64
  }

  // That end itself is not final: the next Read asks the underlying reader again.
  lemma PrematureEndPasses(h: FileHeader, d: MaybeDescriptor, script: seq<Delivery>, k: nat)
    requires k + 1 < |script| && Premature(h, d, script, k)
    ensures Answer(h, d, script, k) == Delivery([], Some(UnexpectedEOF))
    ensures script[k + 1].err != Some(EOF) ==> Answer(h, d, script, k + 1) == script[k + 1]
  {
    hide Crc.Feed, Verdict;
    assert script[..k + 1][..k] == script[..k];
  }

  // Every error but the premature end is final: all later Reads give it and no bytes.
  lemma ErrorsStick(h: FileHeader, d: MaybeDescriptor, script: seq<Delivery>, k: nat, m: nat)
    requires k < m < |script|
    requires Answer(h, d, script, k).err.Some? && !Premature(h, d, script, k)
    ensures Answer(h, d, script, m) == Delivery([], Answer(h, d, script, k).err)
  {
    hide Crc.Feed, Verdict;
    StuckAfter(h, d, script, k, m);
  }

  lemma {:induction false} StuckAfter(h: FileHeader, d: MaybeDescriptor, script: seq<Delivery>, k: nat, m: nat)
    requires k < m <= |script|
    requires Answer(h, d, script, k).err.Some? && !Premature(h, d, script, k)
    ensures After(h, d, script[..m]).err == Answer(h, d, script, k).err
    decreases m
  {
    hide Crc.Feed, Verdict;
    assert script[..m][..m - 1] == script[..m - 1];
    if m > k + 1 {
      StuckAfter(h, d, script, k, m - 1);
    }
  }

  // ---- data descriptors ----

  // The descriptor the writer emits, read through a section of 16 bytes, is accepted, signed
  // CRC or not, short form or long.
  lemma WrittenDescriptorAccepted(h: FileHeader)
    ensures DescriptorError(ZipRecords.Descriptor(h)[..DATA_DESCRIPTOR_LEN], h.crc32) == None
  {
    DescriptorFields(h);
  }

  // A descriptor without signature is accepted exactly unless its CRC looks like the
  // signature (and what follows does not happen to repeat it).
  lemma UnsignedDescriptor(b: bytes, crc: uint32)
    requires |b| >= 12 && Get32(b, 0) == crc
    ensures DescriptorError(b, crc) == None <==>
            crc != DATA_DESCRIPTOR_SIGNATURE || (|b| >= DATA_DESCRIPTOR_LEN && Get32(b, 4) == crc)
  {
  }

  // ---- content round trip ----

  // The underlying reader delivers `plain` in some pieces, each possibly empty, and then the
  // end of the stream, alone or with the last piece.
  ghost predicate Delivers(script: seq<Delivery>, plain: bytes) {
    && script != [] && Data(script) == plain
    && script[|script| - 1].err == Some(EOF)
    && forall i :: 0 <= i < |script| - 1 ==> script[i].err == None
  }

  lemma {:induction false} NoErrorSoFar(h: FileHeader, d: MaybeDescriptor, script: seq<Delivery>)
    requires forall i :: 0 <= i < |script| ==> script[i].err == None
    ensures After(h, d, script).err == None
    decreases |script|
  {
    hide CheckStep;
    if script != [] {
      var front := script[..|script| - 1];
      NoErrorSoFar(h, d, front);
      RunFaithful(h, d, front);
      OneRead(h, d, After(h, d, front), script[|script| - 1], Data(front));
    }
  }

  // However the contents arrive, if they verify every Read hands on what was delivered, and
  // the last one reports the end of the file; if they do not, the last one reports an error.
  lemma ReadsHandOn(h: FileHeader, d: MaybeDescriptor, script: seq<Delivery>, plain: bytes)
    requires Delivers(script, plain)
    ensures forall k :: 0 <= k < |script| - 1 ==> Answer(h, d, script, k) == script[k]
    ensures Answer(h, d, script, |script| - 1) == script[|script| - 1] <==> Verified(h, d, plain)
    ensures Answer(h, d, script, |script| - 1).err.Some?
  {
    hide CheckStep, Verified, Crc.Feed;
    forall k | 0 <= k < |script|
      ensures k < |script| - 1 ==> Answer(h, d, script, k) == script[k]
      ensures k == |script| - 1 ==>
                && (Answer(h, d, script, k) == script[k] <==> Verified(h, d, plain))
                && Answer(h, d, script, k).err.Some?
    {
      NoErrorSoFar(h, d, script[..k]);
      RunFaithful(h, d, script[..k]);
      OneRead(h, d, After(h, d, script[..k]), script[k], Data(script[..k]));
    }
  }

  // ---- an entry of an archive ----

  lemma SectionOfMiddle(a: bytes, b: bytes, c: bytes, n: nat)
    requires n <= |b|
    ensures Section(a + (b + c), |a|, n) == b[..n]
  {
  }

  // At the header offset stands a local header whose length the reader finds.
  lemma OpenedHeader(a: bytes, h: FileHeader, rest: bytes)
    requires HeaderError(h).None?
    ensures BodyOffset(a + (LocalHeader(h) + rest), |a|) == Ok(|LocalHeader(h)|)
  {
    hide LocalFixed, Get16, Get32;
    var fixed, more := LocalFixed(h), h.name + h.extra + rest;
    LocalFields(h);
    assert LocalHeader(h) + rest == fixed + more;
    Middle(a, fixed, more);
    assert Get32(a + (fixed + more), |a| + 0) == Get32(fixed, 0);
    assert Get16(a + (fixed + more), |a| + 26) == Get16(fixed, 26);
    assert Get16(a + (fixed + more), |a| + 28) == Get16(fixed, 28);
  }

  // Opening at a local header finds the data behind it and the descriptor behind the data.
  lemma OpenedSegment(a: bytes, h: FileHeader, body: bytes, descriptor: bytes, z: bytes)
    requires HeaderError(h).None?
    ensures
      var file := a + (LocalHeader(h) + body + descriptor + z);
      var start := |a| + |LocalHeader(h)|;
      && BodyOffset(file, |a|) == Ok(|LocalHeader(h)|)
      && Section(file, start, |body|) == body
      && (|descriptor| >= DATA_DESCRIPTOR_LEN ==>
            Section(file, start + |body|, DATA_DESCRIPTOR_LEN) == descriptor[..DATA_DESCRIPTOR_LEN])
  {
    hide LocalHeader, Section, BodyOffset;
    var local := LocalHeader(h);
    var file := a + (local + body + descriptor + z);
    OpenedHeader(a, h, body + (descriptor + z));
    Regrouped(a, local, body, descriptor, z);
    SectionOfMiddle(a + local, body, descriptor + z, |body|);
    assert body[..|body|] == body;
    if |descriptor| >= DATA_DESCRIPTOR_LEN {
      SectionOfMiddle(a + local + body, descriptor, z, DATA_DESCRIPTOR_LEN);
    }
  }

  lemma Regrouped(a: bytes, b: bytes, c: bytes, d: bytes, e: bytes)
    ensures a + (b + c + d + e) == a + (b + (c + (d + e)))
    ensures a + (b + c + d + e) == (a + b) + (c + (d + e))
    ensures a + (b + c + d + e) == (a + b + c) + (d + e)
  {
  }

  // A piece of b stands |a| bytes further on in a + (b + c).
  lemma PieceOf(a: bytes, b: bytes, c: bytes, at: nat, n: nat)
    requires at + n <= |b|
    ensures var f := a + (b + c);
            f == f[..|a| + at] + (b[at..at + n] + f[|a| + at + n..])
  {
    var f := a + (b + c);
    assert f[|a| + at..|a| + at + n] == b[at..at + n];
  }

  // Where the segment of entry i lies in the file.
  lemma SegmentInFile(s: State, prefix: bytes, i: nat)
    requires LaidOut(s) && i < |s.entries| && !s.entries[i].phase.Rejected?
    requires |prefix| == Base(s) && InRange(Concluded(s))
    ensures
      var file, at := prefix + Concluded(s).out, |prefix| + |Segments(s.entries[..i])|;
      && s.entries[i].offset == at < INT64_LIMIT
      && at + |s.entries[i].Segment()| <= |file| < INT64_LIMIT
      && file == file[..at] + (s.entries[i].Segment() + file[at + |s.entries[i].Segment()|..])
  {
    hide ClosingBytes, Segments, Coherent, Entry.Segment;
    SegmentAt(s, i);
    PieceOf(prefix, s.out, ClosingBytes(s), |Segments(s.entries[..i])|, |s.entries[i].Segment()|);
  }

  // Opening the i-th file of a closed archive gives the bytes written to it, for any
  // compressor and a decompressor that undoes it; a directory is empty. Its data starts
  // behind the local header as it was written, which is 28 bytes shorter than the listed one
  // if that got a zip64 record.
  lemma OpenRoundTrip(s: State, prefix: bytes, i: nat, decompressors: map<uint16, Decompressor>)
    requires LaidOut(s) && i < |s.entries| && |prefix| == Base(s) && InRange(Concluded(s))
    requires s.entries[i].phase.Sealed? || s.entries[i].phase.Directory?
    requires var e := s.entries[i];
             && e.header.compression in decompressors
             && (e.phase.Sealed? ==> Inverse(e.compressor, decompressors[e.header.compression]))
             && (e.phase.Directory? ==> decompressors[e.header.compression]([]) == Some([]))
    ensures
      var e, file := s.entries[i], prefix + Concluded(s).out;
      var f := ReadBack(e.header, e.offset);
      && BodyOffset(file, f.headerOffset) == Ok(|LocalHeader(e.local)|)
      && OpenAt(file, f, decompressors) ==
         Ok(Opened(Some(e.Raw()),
                   if e.phase.Sealed? then Some(Ok(Descriptor(e.header)[..DATA_DESCRIPTOR_LEN])) else None))
  {
    hide LocalHeader, Segments, ClosingBytes, Concluded, Descriptor, Section, SealedHeader, Crc.Checksum,
      ReadModified, NonUTF8, FoundTime, BodyOffset, Zip64Extra, Packed;
    var e, file := s.entries[i], prefix + Concluded(s).out;
    SegmentInFile(s, prefix, i);
    var at := e.offset;
    var a, z := file[..at], file[at + |e.Segment()|..];
    var descriptor := if e.phase.Sealed? then Descriptor(e.header) else [];
    assert e.Segment() == LocalHeader(e.local) + e.Body() + descriptor;
    OpenedSegment(a, e.local, e.Body(), descriptor, z);
    SealedFields(e);
    BodyFits(e);
    assert ReadBack(e.header, e.offset).headerOffset == at;
  }

  lemma SealedFields(e: Entry)
    requires Coherent(e)
    ensures e.header.compression == e.local.compression && e.header.flags == e.local.flags
    ensures e.phase.Sealed? ==>
              && e.header.compressedSize64 == Uint64(|e.Body()|)
              && e.header.uncompressedSize64 == Uint64(|e.Raw()|)
              && e.header.crc32 == Crc.Checksum(e.Raw())
    ensures e.phase.Directory? ==>
              && e.header.compressedSize64 == e.header.uncompressedSize64 == 0
              && e.Raw() == e.Body() == []
  {
    hide Crc.Checksum, Packed;
  }

  // The deprecated 32-bit sizes are the true ones, or both saturated if one does not fit.
  lemma DeprecatedSizes(e: Entry)
    requires Coherent(e) && (e.phase.Sealed? || e.phase.Directory?)
    ensures var h := e.header;
            if h.compressedSize64 < 0xffff_ffff && h.uncompressedSize64 < 0xffff_ffff then
              h.compressedSize == h.compressedSize64 && h.uncompressedSize == h.uncompressedSize64
            else h.compressedSize == h.uncompressedSize == 0xffff_ffff
  {
    hide Crc.Checksum, Packed;
  }

  lemma BodyFits(e: Entry)
    ensures |e.Body()| <= |e.Segment()|
  {
  }

  // Reading an entry of a closed archive, however its plain bytes arrive, hands on exactly
  // the bytes written to it and then the end of the file. A directory ends well exactly if
  // the caller left its CRC at zero.
  lemma ContentRoundTrip(e: Entry, script: seq<Delivery>)
    requires Coherent(e) && (e.phase.Sealed? || e.phase.Directory?) && Delivers(script, e.Raw())
    ensures
      var h := ReadBack(e.header, e.offset).header;
      var d := if e.phase.Sealed? then Some(Ok(Descriptor(e.header)[..DATA_DESCRIPTOR_LEN])) else None;
      var last := |script| - 1;
      && (forall k :: 0 <= k < last ==> Answer(h, d, script, k) == script[k])
      && (Answer(h, d, script, last) == script[last] <==> e.phase.Sealed? || e.header.crc32 == 0)
      && Answer(h, d, script, last).err.Some?
  {
    hide Crc.Checksum, ReadModified, NonUTF8, FoundTime, Zip64Extra, Descriptor, DescriptorError, Answer;
    var h := ReadBack(e.header, e.offset).header;
    var d := if e.phase.Sealed? then Some(Ok(Descriptor(e.header)[..DATA_DESCRIPTOR_LEN])) else None;
    SealedFields(e);
    WrittenDescriptorAccepted(e.header);
    Crc.ChecksumOfNothing();
    ReadsHandOn(h, d, script, e.Raw());
  }
}
