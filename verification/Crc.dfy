/** CRC-32 (IEEE 802.3) as a hash that is fed in pieces; CrcPolynomial.dfy says what it is. */
module Crc {
  import opened Bytes

  // The register, its lowest bit first.
  type Hash = h: seq<bool> | |h| == 32 witness NEW_IEEE

  const NEW_IEEE: seq<bool> :=
    [true, true, true, true, true, true, true, true,
     true, true, true, true, true, true, true, true,
     true, true, true, true, true, true, true, true,
     true, true, true, true, true, true, true, true]

  // The reflected polynomial 0xEDB88320.
  const IEEE: seq<bool> :=
    [false, false, false, false, false, true, false, false,
     true, true, false, false, false, false, false, true,
     false, false, false, true, true, true, false, true,
     true, false, true, true, false, true, true, true]

  function Xor(a: seq<bool>, b: seq<bool>): (c: seq<bool>)
    requires |a| == |b|
    ensures |c| == |a| && forall i :: 0 <= i < |a| ==> c[i] == (a[i] != b[i])
  {
    if a == [] then [] else [a[0] != b[0]] + Xor(a[1..], b[1..])
  }

  function Same(n: nat, bit: bool): (s: seq<bool>)
    ensures |s| == n && forall i :: 0 <= i < n ==> s[i] == bit
  {
    if n == 0 then [] else [bit] + Same(n - 1, bit)
  }

  predicate Bit(b: byte, weight: nat)
    requires weight > 0
  {
    b / weight % 2 == 1
  }

  // The bits of a byte, the lowest first.
  function ByteBits(b: byte): (s: seq<bool>)
    ensures |s| == 8
  {
    [Bit(b, 1), Bit(b, 2), Bit(b, 4), Bit(b, 8), Bit(b, 16), Bit(b, 32), Bit(b, 64), Bit(b, 128)]
  }

  function Power2(n: nat): (p: nat)
    ensures p > 0
  {
    if n == 0 then 1 else 2 * Power2(n - 1)
  }

  // The number with these bits, the lowest first.
  function Number(s: seq<bool>): (n: nat)
    ensures n < Power2(|s|)
  {
    if s == [] then 0 else (if s[0] then 1 else 0) + 2 * Number(s[1..])
  }

  lemma Power2Of32()
    ensures Power2(32) == 0x1_0000_0000
  {
    assert Power2(8) == 0x100;
    assert Power2(16) == 0x1_0000;
    assert Power2(24) == 0x100_0000;
  }

  function Shift(h: Hash, bits: nat): Hash
    decreases bits
  {
    if bits == 0 then h
    else
      var down := h[1..] + [false];
      Shift(if h[0] then Xor(down, IEEE) else down, bits - 1)
  }

  function Absorb(h: Hash, b: byte): Hash { Shift(Xor(h, ByteBits(b) + Same(24, false)), 8) }

  function Fold<A, B>(f: (A, B) -> A, a: A, s: seq<B>): A {
    if s == [] then a else f(Fold(f, a, s[..|s| - 1]), s[|s| - 1])
  }

  lemma {:induction false} FoldConcat<A, B>(f: (A, B) -> A, a: A, s: seq<B>, t: seq<B>)
    ensures Fold(f, Fold(f, a, s), t) == Fold(f, a, s + t)
    decreases |t|
  {
    if t == [] {
      assert s + t == s;
    } else {
      var front := t[..|t| - 1];
      assert (s + t)[..|s + t| - 1] == s + front;
      FoldConcat(f, a, s, front);
    }
  }

  // The running state of the hash after it was fed `b`; Sum32 reads the checksum off it.
  function Feed(h: Hash, b: bytes): Hash { Fold(Absorb, h, b) }

  function Sum32(h: Hash): uint32 {
    Power2Of32();
    Number(Xor(h, NEW_IEEE))
  }

  function Checksum(b: bytes): uint32 {
    Sum32(Feed(NEW_IEEE, b))
  }

  // Feeding in pieces is feeding the concatenation.
  lemma FeedConcat(h: Hash, a: bytes, b: bytes)
    ensures Feed(Feed(h, a), b) == Feed(h, a + b)
  {
    FoldConcat(Absorb, h, a, b);
  }

  lemma {:induction false} NoBits(s: seq<bool>)
    requires forall i :: 0 <= i < |s| ==> !s[i]
    ensures Number(s) == 0
    decreases |s|
  {
    if s != [] {
      NoBits(s[1..]);
    }
  }

  lemma ChecksumOfNothing()
    ensures Checksum([]) == 0
  {
    assert Feed(NEW_IEEE, []) == NEW_IEEE;
    hide Xor;
    NoBits(Xor(NEW_IEEE, NEW_IEEE));
  }
}
