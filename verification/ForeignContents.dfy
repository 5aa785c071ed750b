/**
 Opening and reading entries of archives of any origin: where the data is looked for, and what
 each way of being damaged is answered with.
 */
module ForeignContents {
  import opened Bytes
  import opened Wrappers
  import opened ZipFormat
  import opened Codecs
  import opened ReaderModel
  import opened Contents
  import opened ForeignEnds
  import Crc

  // Local file header (section 4.3.7) up to the strings; the reader uses nothing of it but the
  // signature and the two lengths.
  predicate LocalStart(b: bytes, name: uint16, extra: uint16) {
    |b| == 30 && b[..4] == ['P' as int, 'K' as int, 3, 4] && b[26..] == Put16(name) + Put16(extra)
  }

  // Where the local header is looked for, and how long it is.
  lemma LocalHeaderIs(file: bytes, at: int)
    ensures
      BodyOffset(file, at) ==
      if at < 0 then Err(ErrBadOffset)
      else if at + 30 > |file| then Err(EOF)
      else if file[at..at + 4] != ['P' as int, 'K' as int, 3, 4] then Err(ErrFormat)
      else Ok(30 + Get16(file, at + 26) + Get16(file, at + 28))
  {
    hide Get16;
    if 0 <= at && at + 30 <= |file| {
      FourBytes(file, at, 0x04034b50);
    }
  }

  // The compressed data stands behind the local header, which may be longer or shorter than
  // the central one; a descriptor is read from the 16 bytes behind the data, or from as many
  // as there are, exactly if bit 3 of the flags announces it.
  lemma OpenForeign(a: bytes, b: bytes, strings: bytes, name: uint16, extra: uint16, body: bytes, rest: bytes,
                    f: File, decompressors: map<uint16, Decompressor>)
    requires LocalStart(b, name, extra) && |strings| == name as int + extra as int
    requires f.headerOffset == |a| && f.header.compressedSize64 == |body| && |body| < INT64_LIMIT
    requires f.header.compression in decompressors
    ensures
      OpenAt(a + (b + strings + body + rest), f, decompressors) ==
      Ok(Opened(decompressors[f.header.compression](body),
                if f.header.flags / 8 % 2 == 1 then Some(Ok(if |rest| <= 16 then rest else rest[..16])) else None))
  {
    hide BodyOffset, Section;
    var file := a + (b + strings + body + rest);
    var start := |a| + 30 + |strings|;
    LocalLengths(a, b, strings + body + rest, name, extra);
    Associative(b, strings, body);
    Associative(b, strings + body, rest);
    assert file == a + (b + (strings + body + rest));
    LocalHeaderIs(file, |a|);
    assert file == (a + b + strings) + (body + rest);
    SectionIs(a + b + strings, body, rest, |body|);
    assert file == (a + b + strings + body) + (rest + []);
    SectionIs(a + b + strings + body, rest, [], 16);
    assert body[..|body|] == body && rest + [] == rest;
  }

  lemma LocalLengths(a: bytes, b: bytes, rest: bytes, name: uint16, extra: uint16)
    requires LocalStart(b, name, extra)
    ensures var file := a + (b + rest);
            && file[|a|..|a| + 4] == ['P' as int, 'K' as int, 3, 4]
            && Get16(file, |a| + 26) == name && Get16(file, |a| + 28) == extra
  {
    hide Put16, Get16;
    var file := a + (b + rest);
    GetPut16(a + b[..26], name, Put16(extra) + rest);
    GetPut16(a + b[..26] + Put16(name), extra, rest);
    assert b == b[..26] + (Put16(name) + Put16(extra));
    assert file == (a + b[..26]) + Put16(name) + (Put16(extra) + rest);
    assert file == (a + b[..26] + Put16(name)) + Put16(extra) + rest;
  }

  // A section ends with the file.
  lemma SectionIs(a: bytes, b: bytes, c: bytes, n: nat)
    requires n <= |b| || c == []
    ensures Section(a + (b + c), |a|, n) == if n <= |b| then b[..n] else b
  {
    assert a + (b + []) == a + b;
  }

  // An unknown method is noticed only behind a sound local header.
  lemma OpenRefused(file: bytes, f: File, decompressors: map<uint16, Decompressor>)
    ensures OpenAt(file, f, decompressors).Err? <==>
            BodyOffset(file, f.headerOffset).Err? || f.header.compression !in decompressors
    ensures OpenAt(file, f, decompressors).Err? ==>
            OpenAt(file, f, decompressors).error ==
            if BodyOffset(file, f.headerOffset).Err? then BodyOffset(file, f.headerOffset).error else ErrAlgorithm
  {
    hide BodyOffset;
  }

  lemma StartsWith(b: bytes, i: nat, v: uint32)
    requires i + 4 <= |b|
    ensures Get32(b, i) == v <==> b[i..i + 4] == Put32(v)
  {
    hide Put32, Get32;
    PutGet32(b, i);
    GetPut32([], v, []);
    assert [] + Put32(v) + [] == Put32(v);
    GetSlice(b, i, i + 4, 0);
  }

  // When a descriptor is accepted: behind the signature with both sizes, or without it unless
  // the CRC reads like one. The sizes may be anything.
  lemma DescriptorAccepted(b: bytes, crc: uint32)
    ensures DescriptorError(b, crc) == None <==>
            || (|b| >= 16 && b[..8] == Put32(0x08074b50) + Put32(crc))
            || (|b| >= 12 && b[..4] == Put32(crc) && crc != 0x08074b50)
  {
    hide Put32, Get32;
    if |b| >= 8 {
      StartsWith(b, 0, crc);
      StartsWith(b, 4, crc);
      StartsWith(b, 0, 0x08074b50);
      assert b[..8] == b[..4] + b[4..8];
      assert (Put32(0x08074b50) + Put32(crc))[..4] == Put32(0x08074b50);
      assert (Put32(0x08074b50) + Put32(crc))[4..] == Put32(crc);
    }
  }

  // And with what it is refused otherwise.
  lemma DescriptorRefused(b: bytes, crc: uint32)
    requires DescriptorError(b, crc) != None
    ensures DescriptorError(b, crc) ==
            Some(if |b| == 0 || |b| == 4 then EOF
                 else if |b| < 12 || (|b| < 16 && b[..4] == Put32(0x08074b50)) then UnexpectedEOF
                 else ErrChecksum)
  {
    hide Put32, Get32;
    if |b| >= 4 {
      StartsWith(b, 0, 0x08074b50);
    }
  }

  // How the reading of contents that do not verify ends. The wrong length withholds the last
  // piece; a descriptor that breaks off is an unexpected end whatever is left of it.
  lemma DamageIsTold(h: FileHeader, d: MaybeDescriptor, script: seq<Delivery>, plain: bytes)
    requires Delivers(script, plain) && !Verified(h, d, plain)
    ensures
      var last := |script| - 1;
      Answer(h, d, script, last) ==
      if |plain| % 0x1_0000_0000_0000_0000 != h.uncompressedSize64 then Delivery([], Some(UnexpectedEOF))
      else
        Delivery(script[last].data,
                 Some(if d.Some? && d.value.Err? then Unexpected(d.value.error)
                      else if d.Some? && DescriptorError(d.value.value, h.crc32).Some? then
                        Unexpected(DescriptorError(d.value.value, h.crc32).value)
                      else ErrChecksum))
  {
    hide Crc.Feed, Crc.Sum32, DescriptorError;
    var last := |script| - 1;
    NoErrorSoFar(h, d, script[..last]);
    RunFaithful(h, d, script[..last]);
    Crc.FeedConcat(Crc.NEW_IEEE, Data(script[..last]), script[last].data);
  }

  function Unexpected(e: Error): Error { if e == EOF then UnexpectedEOF else e }

  // An error of the underlying reader ends the reading at once, with the bytes it came with.
  lemma BrokenOff(h: FileHeader, d: MaybeDescriptor, script: seq<Delivery>)
    requires script != [] && forall i :: 0 <= i < |script| - 1 ==> script[i].err == None
    requires script[|script| - 1].err != Some(EOF)
    ensures Answer(h, d, script, |script| - 1) == script[|script| - 1]
  {
    hide CheckStep;
    var last := |script| - 1;
    NoErrorSoFar(h, d, script[..last]);
    RunFaithful(h, d, script[..last]);
    OneRead(h, d, After(h, d, script[..last]), script[last], Data(script[..last]));
  }
}
