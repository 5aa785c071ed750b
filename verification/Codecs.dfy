/**
 Streaming compressors and decompressors. A compressor is a writer that may emit bytes on
 every write and on closing, depending on all the writes so far; a decompressor turns the
 whole compressed stream into the plain one, or fails.
 */
module Codecs {
  import opened Bytes
  import opened Wrappers

  datatype Compressor = Compressor(step: (seq<bytes>, bytes) -> bytes, finish: seq<bytes> -> bytes)

  type Decompressor = bytes -> Option<bytes>

  const STORE_COMPRESSOR := Compressor((history, p) => p, history => [])
  const STORE_DECOMPRESSOR: Decompressor := packed => Some(packed)

  function Flatten(chunks: seq<bytes>): bytes {
    if chunks == [] then [] else Flatten(chunks[..|chunks| - 1]) + chunks[|chunks| - 1]
  }

  // What the compressor has emitted after the writes `chunks`.
  function Emitted(c: Compressor, chunks: seq<bytes>): bytes {
    if chunks == [] then []
    else
      var before := chunks[..|chunks| - 1];
      Emitted(c, before) + c.step(before, chunks[|chunks| - 1])
  }

  // The complete compressed stream of the writes `chunks`.
  function Packed(c: Compressor, chunks: seq<bytes>): bytes {
    Emitted(c, chunks) + c.finish(chunks)
  }

  lemma OneMoreChunk(c: Compressor, chunks: seq<bytes>, p: bytes)
    ensures Flatten(chunks + [p]) == Flatten(chunks) + p
    ensures Emitted(c, chunks + [p]) == Emitted(c, chunks) + c.step(chunks, p)
  {
    assert (chunks + [p])[..|chunks + [p]| - 1] == chunks;
  }

  // d undoes c, however the plain bytes were cut into writes.
  ghost predicate Inverse(c: Compressor, d: Decompressor) {
    forall chunks :: d(Packed(c, chunks)) == Some(Flatten(chunks))
  }

  lemma {:induction false} StoreEmitsAsIs(chunks: seq<bytes>)
    ensures Emitted(STORE_COMPRESSOR, chunks) == Flatten(chunks)
  {
    if chunks != [] {
      StoreEmitsAsIs(chunks[..|chunks| - 1]);
    }
  }

  lemma StorePacksAsIs(chunks: seq<bytes>)
    ensures Packed(STORE_COMPRESSOR, chunks) == Flatten(chunks)
  {
    StoreEmitsAsIs(chunks);
    assert STORE_COMPRESSOR.finish(chunks) == [];
  }

  lemma StoreIsInverse()
    ensures Inverse(STORE_COMPRESSOR, STORE_DECOMPRESSOR)
  {
    forall chunks
      ensures STORE_DECOMPRESSOR(Packed(STORE_COMPRESSOR, chunks)) == Some(Flatten(chunks))
    {
      StorePacksAsIs(chunks);
    }
  }
}
