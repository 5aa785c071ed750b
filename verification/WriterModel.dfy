/**
 What each operation of the archive writer (pkg/util/zip/writer.go) does, as functions on an
 abstract state. The class in Writer.dfy is proved to follow these functions; the layout and
 round-trip results are proved about them.
 */
module WriterModel {
  import opened Bytes
  import opened Wrappers
  import opened Clock
  import opened ZipFormat
  import opened ZipRecords
  import opened Codecs
  import Crc
  import Utf8

  // How far the bytes of an entry got: header refused, directory (no data), data still
  // being written, or complete with its descriptor.
  datatype Phase = Rejected | Directory | Open | Sealed

  // One element of the writer's directory with the history of its data: the header object's
  // contents now, and those of which the local copy was written.
  datatype Entry = Entry(
    header: FileHeader, local: FileHeader, offset: uint64, phase: Phase,
    compressor: Compressor, chunks: seq<bytes>)
  {
    function Raw(): bytes { Flatten(chunks) }

    // The compressed bytes written for this entry so far.
    function Body(): bytes {
      if phase.Sealed? then Packed(compressor, chunks)
      else if phase.Open? then Emitted(compressor, chunks)
      else []
    }

    // Everything written for this entry in front of the central directory.
    function Segment(): bytes {
      match phase
      case Rejected => []
      case Directory => LocalHeader(local)
      case Open => LocalHeader(local) + Body()
      case Sealed => LocalHeader(local) + Body() + Descriptor(header)
    }
  }

  datatype State = State(
    count: int, out: bytes, entries: seq<Entry>, comment: bytes, closed: bool,
    compressors: map<uint16, Compressor>, registry: map<uint16, Compressor>)

  function NewState(registry: map<uint16, Compressor>): State {
    State(0, [], [], [], false, map[], registry)
  }

  function Emit(s: State, b: bytes): State {
    s.(out := s.out + b, count := s.count + |b|)
  }

  predicate IsOpen(s: State) {
    s.entries != [] && s.entries[|s.entries| - 1].phase.Open?
  }

  // The header fields that fileWriter.close fills in.
  function SealedHeader(h: FileHeader, crc: uint32, packed: int, raw: int): FileHeader {
    var g := h.(crc32 := crc, compressedSize64 := Uint64(packed), uncompressedSize64 := Uint64(raw));
    if g.IsZip64() then
      g.(compressedSize := UINT32_MAX, uncompressedSize := UINT32_MAX, readerVersion := ZIP_VERSION_45)
    else
      g.(compressedSize := Uint32(Uint64(packed)), uncompressedSize := Uint32(Uint64(raw)))
  }

  function SealedEntry(e: Entry): Entry {
    e.(phase := Sealed,
       header := SealedHeader(e.header, Crc.Checksum(e.Raw()), |Packed(e.compressor, e.chunks)|, |e.Raw()|))
  }

  // Closes the entry that is still open, if any.
  function SealLast(s: State): State {
    if !IsOpen(s) then s
    else
      var n := |s.entries| - 1;
      var e := SealedEntry(s.entries[n]);
      Emit(Emit(s, e.compressor.finish(e.chunks)), Descriptor(e.header)).(entries := s.entries[..n] + [e])
  }

  function SetOffsetStep(s: State, n: int): State
    requires Uint64(s.count) == 0
  {
    s.(count := n)
  }

  function SetCommentStep(s: State, comment: bytes): (State, Option<Error>) {
    if |comment| > UINT16_MAX then (s, Some(ErrLongComment))
    else (s.(comment := comment), None)
  }

  // The flag word that CreateHeader gives a header: the UTF-8 bit follows the strings.
  function EncodingFlags(h: FileHeader): uint16 {
    var (valid1, require1) := Utf8.DetectUTF8(h.name);
    var (valid2, require2) := Utf8.DetectUTF8(h.comment);
    if h.nonUTF8 then WithUtf8Flag(h.flags, false)
    else if (require1 || require2) && valid1 && valid2 then WithUtf8Flag(h.flags, true)
    else h.flags
  }

  function WithVersions(h: FileHeader): FileHeader {
    h.(flags := EncodingFlags(h),
       creatorVersion := h.creatorVersion / 0x100 * 0x100 + ZIP_VERSION_20,
       readerVersion := ZIP_VERSION_20)
  }

  // The extended timestamp record: tag, size 5, flags 1, modification time.
  function TimestampExtra(t: Time): bytes {
    Put16(EXT_TIME_EXTRA_ID) + Put16(5) + [1] + Put32(Uint32(t.sec))
  }

  function WithTimestamp(h: FileHeader): FileHeader {
    if IsZero(h.modified) then h
    else
      var (d, t) := TimeToMsDosTime(h.modified);
      h.(modifiedDate := d, modifiedTime := t, extra := h.extra + TimestampExtra(h.modified))
  }

  // The header that CreateHeader makes of the caller's.
  function Prepared(h: FileHeader): FileHeader {
    var g := WithTimestamp(WithVersions(h));
    if g.IsDirectory() then
      g.(compression := STORE, flags := WithDescriptorFlag(g.flags, false),
         compressedSize := 0, compressedSize64 := 0, uncompressedSize := 0, uncompressedSize64 := 0)
    else g.(flags := WithDescriptorFlag(g.flags, true))
  }

  function FindCompressor(s: State, compression: uint16): Option<Compressor> {
    if compression in s.compressors then Some(s.compressors[compression])
    else if compression in s.registry then Some(s.registry[compression])
    else None
  }

  function HeaderError(h: FileHeader): Option<Error> {
    if |h.name| > UINT16_MAX then Some(ErrLongName)
    else if |h.extra| > UINT16_MAX then Some(ErrLongExtra)
    else None
  }

  // The new entry for the prepared header g; a refused header is in the directory all the same.
  function NewEntry(s: State, g: FileHeader, compressor: Compressor): Entry {
    Entry(g, g, Uint64(s.count),
          if HeaderError(g).Some? then Rejected else if g.IsDirectory() then Directory else Open,
          compressor, [])
  }

  function Append(s: State, e: Entry): State {
    Emit(s, e.Segment()).(entries := s.entries + [e])
  }

  // The entry for the prepared header g, if there is a compressor for it.
  function EnterStep(s: State, g: FileHeader): (State, Option<Error>) {
    if g.IsDirectory() then (Append(s, NewEntry(s, g, STORE_COMPRESSOR)), HeaderError(g))
    else
      match FindCompressor(s, g.compression)
      case None => (s, Some(ErrAlgorithm))
      case Some(c) => (Append(s, NewEntry(s, g, c)), HeaderError(g))
  }

  // CreateHeader on the header h; `again` says that h is the header object added last.
  // Returns the new state, the new contents of the header object, and the error.
  function CreateStep(s: State, h: FileHeader, again: bool): (State, FileHeader, Option<Error>) {
    var s1 := SealLast(s);
    if again then
      (s1, if IsOpen(s) then s1.entries[|s1.entries| - 1].header else h, Some(ErrDuplicateHeader))
    else
      var (s2, err) := EnterStep(s1, Prepared(h));
      (s2, Prepared(h), err)
  }

  // A write to the entry that is open.
  function WriteStep(s: State, p: bytes): State
    requires IsOpen(s)
  {
    var n := |s.entries| - 1;
    var e := s.entries[n];
    Emit(s, e.compressor.step(e.chunks, p)).(entries := s.entries[..n] + [e.(chunks := e.chunks + [p])])
  }

  function DirectoryBytes(entries: seq<Entry>): bytes {
    if entries == [] then []
    else
      var n := |entries| - 1;
      DirectoryBytes(entries[..n]) + Central(entries[n].header, entries[n].offset)
  }

  lemma DirectoryStep(entries: seq<Entry>, i: nat)
    requires i < |entries|
    ensures DirectoryBytes(entries[..i + 1]) ==
            DirectoryBytes(entries[..i]) + Central(entries[i].header, entries[i].offset)
  {
    assert entries[..i + 1][..i] == entries[..i];
  }

  function ListEntry(e: Entry): Entry { e.(header := Listed(e.header, e.offset)) }

  function ListAll(entries: seq<Entry>): seq<Entry> {
    seq(|entries|, i requires 0 <= i < |entries| => ListEntry(entries[i]))
  }

  // What Close writes behind the entries: central directory and trailer.
  function ClosingBytes(s: State): bytes {
    var dir := DirectoryBytes(s.entries);
    dir + Trailer(Uint64(|s.entries|), Uint64(|dir|), Uint64(s.count), Uint64(s.count + |dir|), s.comment)
  }

  function Concluded(s: State): State {
    Emit(s, ClosingBytes(s)).(closed := true, entries := ListAll(s.entries))
  }

  function CloseStep(s: State): (State, Option<Error>) {
    var s1 := SealLast(s);
    if s1.closed then (s1, Some(ErrWriterClosedTwice)) else (Concluded(s1), None)
  }
}
