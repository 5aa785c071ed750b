/**
 What holds of the reader on every byte string, archive or not. (That it terminates and stays
 inside its buffers is part of the verification of Reader.dfy.)
 */
module ParserTotality {
  import opened Bytes
  import opened ZipFormat
  import opened ReaderModel

  // Every header takes at least 46 bytes of the directory.
  lemma {:induction false} HeadersBounded(b: bytes)
    ensures DIRECTORY_HEADER_LEN * |ReadHeaders(b).0| <= |b|
    decreases |b|
  {
    hide ParseHeader;
    var r := ParseHeader(b);
    if r.Ok? {
      HeadersBounded(b[r.value.1..]);
    }
  }

  // A file is accepted exactly if its end is found, does not declare more entries than there
  // could be, and what stops the headers is no header or a broken one, after as many files as
  // declared modulo 65536. Then all of them were parsed from the directory it points to.
  lemma AcceptedArchive(file: bytes)
    ensures
      var r, end := Init(file), ReadDirectoryEnd(file);
      && (r.Ok? <==>
            && end.Ok? && end.value.directoryRecords <= |file| / 30
            && var (files, e) := ReadHeaders(file[end.value.directoryOffset..]);
               && e in {ErrFormat, UnexpectedEOF}
               && |files| % 0x1_0000 == end.value.directoryRecords % 0x1_0000)
      && (r.Ok? ==>
            && var o := end.value.directoryOffset;
               && r.value == Archive(ReadHeaders(file[o..]).0, end.value.comment)
               && 46 * |r.value.files| <= |file| - o)
  {
    hide ReadHeaders;
    if ReadDirectoryEnd(file).Ok? {
      EndInside(file);
      HeadersBounded(file[ReadDirectoryEnd(file).value.directoryOffset..]);
    }
  }

  // The directory begins inside the file.
  lemma EndInside(file: bytes)
    requires ReadDirectoryEnd(file).Ok?
    ensures ReadDirectoryEnd(file).value.directoryOffset < |file|
    ensures Int64(ReadDirectoryEnd(file).value.directoryOffset) == ReadDirectoryEnd(file).value.directoryOffset
  {
  }

  // With what a file is refused whose end is found.
  lemma RefusedArchive(file: bytes)
    requires ReadDirectoryEnd(file).Ok? && Init(file).Err?
    ensures
      var end := ReadDirectoryEnd(file).value;
      var (files, e) := ReadHeaders(file[end.directoryOffset..]);
      Init(file).error ==
      if end.directoryRecords > |file| / 30 then ErrImpossibleCount(end.directoryRecords, |file|) else e
  {
    hide ReadHeaders;
    EndInside(file);
  }

  // The search window covers every end record that closes the file, whatever the length of
  // its comment; so such a file is never turned away for want of an end record.
  lemma ClosingEndFound(file: bytes, p: nat)
    requires EndAt(file, p) && p + DIRECTORY_END_LEN + Get16(file, p + 20) == |file|
    ensures LastEnd(file).Some? && LastEnd(file).value >= p
  {
    assert SearchFloor(|file|) <= p;
  }

  // The search gives the last acceptable end record in the window, and fails exactly if
  // there is none.
  lemma SearchComplete(file: bytes)
    ensures LastEnd(file).None? <==> forall p :: |file| - 66560 <= p ==> !EndAt(file, p)
    ensures forall p :: |file| - 66560 <= p && EndAt(file, p) ==>
              LastEnd(file).Some? && p <= LastEnd(file).value && EndAt(file, LastEnd(file).value)
  {
    forall p | |file| - 66560 <= p && EndAt(file, p)
      ensures LastEnd(file).Some? && p <= LastEnd(file).value
    {
      assert p <= |file| - DIRECTORY_END_LEN;
    }
  }
}
