/**
 Bytes, fixed-width integers and the two buffer cursors of the archive code: a `WriteBuf`
 fills a fixed array front to back, a `ReadBuf` consumes a byte sequence front to back.
 All integers are little endian.
 */
module Bytes {
  type byte = b: int | 0 <= b < 0x100
  type bytes = seq<byte>
  type uint16 = v: int | 0 <= v < 0x1_0000
  type uint32 = v: int | 0 <= v < 0x1_0000_0000
  type uint64 = v: int | 0 <= v < 0x1_0000_0000_0000_0000

  const UINT16_MAX: uint16 := 0xFFFF
  const UINT32_MAX: uint32 := 0xFFFF_FFFF
  const INT64_LIMIT: int := 0x8000_0000_0000_0000

  // Go's truncating conversions, on the unbounded value.
  function Uint16(n: int): uint16 { n % 0x1_0000 }
  function Uint32(n: int): uint32 { n % 0x1_0000_0000 }
  function Uint64(n: int): uint64 { n % 0x1_0000_0000_0000_0000 }

  // int64(v): the two's complement reading of a 64-bit word.
  function Int64(v: uint64): int {
    if v < INT64_LIMIT then v else v - 2 * INT64_LIMIT
  }

  function Put16(v: uint16): (b: bytes)
    ensures |b| == 2
  {
    [v % 0x100, v / 0x100]
  }

  function Put32(v: uint32): (b: bytes)
    ensures |b| == 4
  {
    Put16(v % 0x1_0000) + Put16(v / 0x1_0000)
  }

  function Put64(v: uint64): (b: bytes)
    ensures |b| == 8
  {
    Put32(v % 0x1_0000_0000) + Put32(v / 0x1_0000_0000)
  }

  function Get16(b: bytes, i: nat): uint16
    requires i + 2 <= |b|
  {
    b[i] + b[i + 1] as int * 0x100
  }

  function Get32(b: bytes, i: nat): uint32
    requires i + 4 <= |b|
  {
    Get16(b, i) + Get16(b, i + 2) as int * 0x1_0000
  }

  function Get64(b: bytes, i: nat): uint64
    requires i + 8 <= |b|
  {
    Get32(b, i) + Get32(b, i + 4) as int * 0x1_0000_0000
  }

  function Zeros(n: nat): (b: bytes)
    ensures |b| == n && forall i :: 0 <= i < n ==> b[i] == 0
  {
    seq(n, _ => 0)
  }

  lemma Associative(a: bytes, b: bytes, c: bytes)
    ensures a + b + c == a + (b + c)
  {
  }

  // What was put at the end of `a` is got back there, whatever follows.
  lemma GetPut16(a: bytes, v: uint16, c: bytes)
    ensures Get16(a + Put16(v) + c, |a|) == v
  {
  }

  lemma GetPut32(a: bytes, v: uint32, c: bytes)
    ensures Get32(a + Put32(v) + c, |a|) == v
  {
    var r := a + Put32(v) + c;
    assert r == a + Put16(v % 0x1_0000) + (Put16(v / 0x1_0000) + c);
    assert r == (a + Put16(v % 0x1_0000)) + Put16(v / 0x1_0000) + c;
    GetPut16(a, v % 0x1_0000, Put16(v / 0x1_0000) + c);
    GetPut16(a + Put16(v % 0x1_0000), v / 0x1_0000, c);
  }

  lemma GetPut64(a: bytes, v: uint64, c: bytes)
    ensures Get64(a + Put64(v) + c, |a|) == v
  {
    var lo, hi := v % 0x1_0000_0000, v / 0x1_0000_0000;
    var r := a + Put64(v) + c;
    assert r == a + Put32(lo) + (Put32(hi) + c);
    assert r == (a + Put32(lo)) + Put32(hi) + c;
    GetPut32(a, lo, Put32(hi) + c);
    GetPut32(a + Put32(lo), hi, c);
  }

  // The least significant byte comes first.
  lemma LittleEndian(v: uint64)
    ensures v < 0x1_0000 ==> Put16(v) == [v % 0x100, v / 0x100]
    ensures v < 0x1_0000_0000 ==>
              Put32(v) == [v % 0x100, v / 0x100 % 0x100, v / 0x1_0000 % 0x100, v / 0x100_0000]
    ensures var lo, hi := v % 0x1_0000_0000, v / 0x1_0000_0000;
            Put64(v) == [lo % 0x100, lo / 0x100 % 0x100, lo / 0x1_0000 % 0x100, lo / 0x100_0000,
                         hi % 0x100, hi / 0x100 % 0x100, hi / 0x1_0000 % 0x100, hi / 0x100_0000]
  {
    hide Put32;
    Halves(v % 0x1_0000_0000);
    Halves(v / 0x1_0000_0000);
  }

  lemma Halves(v: int)
    requires 0 <= v < 0x1_0000_0000
    ensures v % 0x1_0000 % 0x100 == v % 0x100 && v % 0x1_0000 / 0x100 == v / 0x100 % 0x100
    ensures v / 0x1_0000 / 0x100 == v / 0x100_0000
    ensures Put32(v) == [v % 0x100, v / 0x100 % 0x100, v / 0x1_0000 % 0x100, v / 0x100_0000]
  {
    var q, r := v / 0x1_0000, v % 0x1_0000;
    assert v / 0x100 == q * 0x100 + r / 0x100;
  }

  // Putting what was got gives the bytes it was got from.
  lemma PutGet16(b: bytes, i: nat)
    requires i + 2 <= |b|
    ensures Put16(Get16(b, i)) == b[i..i + 2]
  {
  }

  lemma Joined16(lo: uint16, hi: uint16)
    ensures var v := lo + hi as int * 0x1_0000; v % 0x1_0000 == lo && v / 0x1_0000 == hi
  {
  }

  lemma Joined32(lo: uint32, hi: uint32)
    ensures var v := lo + hi as int * 0x1_0000_0000; v % 0x1_0000_0000 == lo && v / 0x1_0000_0000 == hi
  {
  }

  lemma PutGet32(b: bytes, i: nat)
    requires i + 4 <= |b|
    ensures Put32(Get32(b, i)) == b[i..i + 4]
  {
    hide Put16, Get16;
    PutGet16(b, i);
    PutGet16(b, i + 2);
    Joined16(Get16(b, i), Get16(b, i + 2));
    assert b[i..i + 2] + b[i + 2..i + 4] == b[i..i + 4];
  }

  lemma PutGet64(b: bytes, i: nat)
    requires i + 8 <= |b|
    ensures Put64(Get64(b, i)) == b[i..i + 8]
  {
    hide Put32, Get32;
    PutGet32(b, i);
    PutGet32(b, i + 4);
    Joined32(Get32(b, i), Get32(b, i + 4));
    assert b[i..i + 4] + b[i + 4..i + 8] == b[i..i + 8];
  }

  // The signed reading of a word is congruent to the unsigned one.
  lemma SignedReading(v: uint64)
    ensures Int64(v) % 0x1_0000_0000_0000_0000 == v && -0x8000_0000_0000_0000 <= Int64(v) < 0x8000_0000_0000_0000
  {
  }

  // A field is the same field in any longer sequence that starts with `b`.
  lemma GetPrefix(b: bytes, c: bytes, i: nat)
    ensures i + 2 <= |b| ==> Get16(b + c, i) == Get16(b, i)
    ensures i + 4 <= |b| ==> Get32(b + c, i) == Get32(b, i)
    ensures i + 8 <= |b| ==> Get64(b + c, i) == Get64(b, i)
  {
  }

  // A field of a slice is a field of the whole.
  lemma GetSlice(b: bytes, lo: nat, hi: nat, i: nat)
    requires lo <= hi <= |b|
    ensures lo + i + 2 <= hi ==> Get16(b[lo..hi], i) == Get16(b, lo + i)
    ensures lo + i + 4 <= hi ==> Get32(b[lo..hi], i) == Get32(b, lo + i)
    ensures lo + i + 8 <= hi ==> Get64(b[lo..hi], i) == Get64(b, lo + i)
  {
  }

  /** A cursor that fills a zeroed fixed-size buffer from the front. */
  class WriteBuf {
    const buf: array<byte>
    var pos: nat
    ghost var written: bytes

    ghost predicate Valid()
      reads this, buf
    {
      && |written| == pos <= buf.Length
      && written == buf[..pos]
      && forall i :: pos <= i < buf.Length ==> buf[i] == 0
    }

    constructor (n: nat)
      ensures Valid() && fresh(buf) && buf.Length == n && written == []
    {
      buf := new byte[n](_ => 0);
      pos, written := 0, [];
    }

    method PutUint8(v: byte)
      requires Valid() && |written| + 1 <= buf.Length
      modifies this, buf
      ensures Valid() && written == old(written) + [v]
    {
      buf[pos] := v;
      pos, written := pos + 1, written + [v];
    }

    method PutUint16(v: uint16)
      requires Valid() && |written| + 2 <= buf.Length
      modifies this, buf
      ensures Valid() && written == old(written) + Put16(v) && |written| == |old(written)| + 2
    {
      buf[pos] := v % 0x100;
      buf[pos + 1] := v / 0x100;
      pos, written := pos + 2, written + Put16(v);
    }

    method PutUint32(v: uint32)
      requires Valid() && |written| + 4 <= buf.Length
      modifies this, buf
      ensures Valid() && written == old(written) + Put32(v) && |written| == |old(written)| + 4
    {
      PutUint16(v % 0x1_0000);
      PutUint16(v / 0x1_0000);
      assert written == old(written) + Put32(v);
    }

    method PutUint64(v: uint64)
      requires Valid() && |written| + 8 <= buf.Length
      modifies this, buf
      ensures Valid() && written == old(written) + Put64(v) && |written| == |old(written)| + 8
    {
      PutUint32(v % 0x1_0000_0000);
      PutUint32(v / 0x1_0000_0000);
      assert written == old(written) + Put64(v);
    }

    // b = b[n:]: the skipped bytes keep their zeros.
    method Skip(n: nat)
      requires Valid() && |written| + n <= buf.Length
      modifies this
      ensures Valid() && written == old(written) + Zeros(n) && |written| == |old(written)| + n
    {
      pos, written := pos + n, written + Zeros(n);
    }

    // The whole buffer, once it is full.
    method Contents() returns (b: bytes)
      requires Valid() && |written| == buf.Length
      ensures b == written
    {
      b := buf[..];
    }
  }

  /** A cursor that consumes a byte sequence from the front. */
  class ReadBuf {
    var rest: bytes

    constructor (b: bytes)
      ensures rest == b
    {
      rest := b;
    }

    method Uint8() returns (v: byte)
      requires |rest| >= 1
      modifies this
      ensures v == old(rest)[0] && rest == old(rest)[1..]
    {
      v := rest[0];
      rest := rest[1..];
    }

    method Uint16() returns (v: uint16)
      requires |rest| >= 2
      modifies this
      ensures v == Get16(old(rest), 0) && rest == old(rest)[2..]
    {
      v := rest[0] + rest[1] as int * 0x100;
      rest := rest[2..];
    }

    method Uint32() returns (v: uint32)
      requires |rest| >= 4
      modifies this
      ensures v == Get32(old(rest), 0) && rest == old(rest)[4..]
    {
      var lo := Uint16();
      var hi := Uint16();
      v := lo + hi as int * 0x1_0000;
    }

    method Uint64() returns (v: uint64)
      requires |rest| >= 8
      modifies this
      ensures v == Get64(old(rest), 0) && rest == old(rest)[8..]
    {
      var lo := Uint32();
      var hi := Uint32();
      v := lo + hi as int * 0x1_0000_0000;
    }

    method Skip(n: nat)
      requires |rest| >= n
      modifies this
      ensures rest == old(rest)[n..]
    {
      rest := rest[n..];
    }

    // b.sub(n): splits off a cursor over the next n bytes.
    method Sub(n: nat) returns (b: ReadBuf)
      requires |rest| >= n
      modifies this
      ensures fresh(b) && b.rest == old(rest)[..n] && rest == old(rest)[n..]
    {
      b := new ReadBuf(rest[..n]);
      rest := rest[n..];
    }
  }
}
