/**
 What the checksum is: the remainder, modulo the polynomial of IEEE 802.3, of the message with
 its first 32 coefficients complemented and 32 zeros behind it, complemented in turn. A
 polynomial over the two-element field is the sequence of its coefficients, the highest first.
 */
module CrcPolynomial {
  import opened Bytes
  import opened Crc

  type Poly = seq<bool>

  function Zero(n: nat): (p: Poly)
    ensures |p| == n && forall i :: 0 <= i < n ==> !p[i]
  {
    Same(n, false)
  }

  // The terms below x^32 of the generator 0x04C11DB7: x^32 + x^26 + x^23 + x^22 + x^16 + x^12 +
  // x^11 + x^10 + x^8 + x^7 + x^5 + x^4 + x^2 + x + 1.
  predicate Term(e: int) {
    e in {26, 23, 22, 16, 12, 11, 10, 8, 7, 5, 4, 2, 1, 0}
  }

  function Generator(): (p: Poly)
    ensures |p| == 32 && forall i :: 0 <= i < 32 ==> p[i] == Term(31 - i)
  {
    seq(32, i requires 0 <= i < 32 => Term(31 - i))
  }

  // q times the generator, by long multiplication.
  function Multiple(q: Poly): (p: Poly)
    ensures |p| == |q| + 32
  {
    if q == [] then Zero(32)
    else Xor((if q[0] then [true] + Generator() else Zero(33)) + Zero(|q| - 1), [false] + Multiple(q[1..]))
  }

  // The message as a polynomial: the bytes in order, each with its lowest bit first.
  function MessageBits(m: bytes): (p: Poly)
    ensures |p| == 8 * |m|
  {
    if m == [] then [] else ByteBits(m[0]) + MessageBits(m[1..])
  }

  // p is q times the generator, and the remainder r.
  ghost predicate Divided(p: Poly, q: Poly, r: Poly) {
    |p| == |q| + 32 && |r| == 32 && p == Xor(Multiple(q), Zero(|q|) + r)
  }

  lemma GeneratorIsIEEE()
    ensures IEEE == Generator()
  {
    assert forall i :: 0 <= i < 32 ==> IEEE[i] == Generator()[i];
  }

  // ---- the register as a remainder ----

  // One step of the division, with the next coefficient d.
  function Step(r: Poly, d: bool): (s: Poly)
    requires |r| == 32
    ensures |s| == 32
  {
    var s := r[1..] + [false];
    if r[0] != d then Xor(s, Generator()) else s
  }

  function Steps(r: Poly, m: Poly): (s: Poly)
    requires |r| == 32
    ensures |s| == 32
    decreases |m|
  {
    if m == [] then r else Steps(Step(r, m[0]), m[1..])
  }

  lemma {:induction false} StepsConcat(r: Poly, a: Poly, b: Poly)
    requires |r| == 32
    ensures Steps(r, a + b) == Steps(Steps(r, a), b)
    decreases |a|
  {
    hide Step;
    if a == [] {
      assert a + b == b;
    } else {
      assert (a + b)[1..] == a[1..] + b;
      StepsConcat(Step(r, a[0]), a[1..], b);
    }
  }

  lemma StepAt(r: Poly, d: bool, i: nat)
    requires |r| == 32 && i < 32
    ensures Step(r, d)[i] == ((i < 31 && r[i + 1]) != (r[0] != d && Generator()[i]))
  {
    hide Generator, Xor;
    assert (r[1..] + [false])[i] == (i < 31 && r[i + 1]);
  }

  // A register with the coefficients d put into its front.
  function With(r: Poly, d: Poly): (s: Poly)
    requires |r| == 32 && |d| <= 32
    ensures |s| == 32 && forall i :: 0 <= i < 32 ==> s[i] == (r[i] != (i < |d| && d[i]))
  {
    Xor(r, d + Zero(32 - |d|))
  }

  // Coefficients may be put into the register first and then be shifted through.
  lemma PutInStep(r: Poly, d: Poly)
    requires |r| == 32 && 0 < |d| <= 32
    ensures Step(With(r, d), false) == With(Step(r, d[0]), d[1..])
  {
    hide Generator, Step, With;
    var s, t := Step(With(r, d), false), With(Step(r, d[0]), d[1..]);
    forall i: nat | i < 32
      ensures s[i] == t[i]
    {
      StepAt(With(r, d), false, i);
      StepAt(r, d[0], i);
    }
  }

  lemma {:induction false} PutIn(r: Poly, d: Poly)
    requires |r| == 32 && |d| <= 32
    ensures Steps(With(r, d), Zero(|d|)) == Steps(r, d)
    decreases |d|
  {
    hide Step, With;
    if d == [] {
      assert With(r, d) == r;
    } else {
      PutInStep(r, d);
      assert Zero(|d|)[1..] == Zero(|d| - 1);
      PutIn(Step(r, d[0]), d[1..]);
    }
  }

  lemma {:induction false} ShiftIsSteps(h: Hash, n: nat)
    ensures Shift(h, n) == Steps(h, Zero(n))
    decreases n
  {
    GeneratorIsIEEE();
    if n > 0 {
      assert Zero(n)[1..] == Zero(n - 1);
      ShiftIsSteps(Step(h, false), n - 1);
    }
  }

  lemma AbsorbIsSteps(h: Hash, b: byte)
    ensures Absorb(h, b) == Steps(h, ByteBits(b))
  {
    hide ByteBits, Shift, Steps;
    assert With(h, ByteBits(b)) == Xor(h, ByteBits(b) + Zero(24));
    ShiftIsSteps(Xor(h, ByteBits(b) + Zero(24)), 8);
    PutIn(h, ByteBits(b));
  }

  lemma {:induction false} MessageSnoc(m: bytes, b: byte)
    ensures MessageBits(m + [b]) == MessageBits(m) + ByteBits(b)
    decreases |m|
  {
    hide ByteBits;
    if m == [] {
      assert m + [b] == [b] && [b][1..] == [];
    } else {
      assert (m + [b])[1..] == m[1..] + [b];
      MessageSnoc(m[1..], b);
    }
  }

  // Feeding bytes is going through their coefficients one by one.
  lemma {:induction false} FeedIsSteps(h: Hash, m: bytes)
    ensures Feed(h, m) == Steps(h, MessageBits(m))
    decreases |m|
  {
    hide Steps, Absorb, ByteBits;
    if m == [] {
      NoSteps(h);
    } else {
      var front, b := m[..|m| - 1], m[|m| - 1];
      assert m == front + [b];
      FeedIsSteps(h, front);
      AbsorbIsSteps(Feed(h, front), b);
      MessageSnoc(front, b);
      StepsConcat(h, MessageBits(front), ByteBits(b));
    }
  }

  lemma NoSteps(h: Hash)
    ensures Steps(h, []) == h && MessageBits([]) == []
  {
  }

  // ---- division ----

  // What the register r and the coefficients m still stand for.
  function Pending(r: Poly, m: Poly): (p: Poly)
    requires |r| == 32
    ensures |p| == |m| + 32
  {
    Xor(m + Zero(32), r + Zero(|m|))
  }

  // The first coefficient is taken off by a multiple of the generator.
  lemma PendingStep(r: Poly, m: Poly)
    requires |r| == 32 && m != []
    ensures var q := r[0] != m[0];
            Pending(r, m) ==
            Xor((if q then [true] + Generator() else Zero(33)) + Zero(|m| - 1),
                [false] + Pending(Step(r, m[0]), m[1..]))
  {
    hide Generator, Step, Xor;
    var q, next := r[0] != m[0], Pending(Step(r, m[0]), m[1..]);
    var p := Pending(r, m);
    var top := (if q then [true] + Generator() else Zero(33)) + Zero(|m| - 1);
    forall i | 0 <= i < |m| + 32
      ensures p[i] == Xor(top, [false] + next)[i]
    {
      if 0 < i <= 32 {
        StepAt(r, m[0], i - 1);
      }
    }
  }

  lemma TakeOff(a: Poly, b: Poly, c: Poly)
    requires |a| == |b| + 1 == |c| + 1
    ensures Xor(a, [false] + Xor(b, c)) == Xor(Xor(a, [false] + b), [false] + c)
  {
  }

  lemma {:induction false} StepsDivide(r: Poly, m: Poly) returns (q: Poly)
    requires |r| == 32
    ensures Divided(Pending(r, m), q, Steps(r, m))
    decreases |m|
  {
    hide Step, Generator, Pending;
    if m == [] {
      q := [];
      assert Pending(r, m) == Xor(Multiple(q), Zero(0) + r) by { NothingPending(r); }
    } else {
      PendingStep(r, m);
      var rest := StepsDivide(Step(r, m[0]), m[1..]);
      q := [r[0] != m[0]] + rest;
      assert q[1..] == rest;
      var top := (if q[0] then [true] + Generator() else Zero(33)) + Zero(|m| - 1);
      TakeOff(top, Multiple(rest), Zero(|rest|) + Steps(r, m));
      assert [false] + (Zero(|rest|) + Steps(r, m)) == Zero(|q|) + Steps(r, m);
    }
  }

  lemma NothingPending(r: Poly)
    requires |r| == 32
    ensures Pending(r, []) == Xor(Multiple([]), Zero(0) + r)
  {
  }

  // A polynomial has only one remainder.
  lemma {:induction false} OneRemainder(p: Poly, q: Poly, r: Poly, q': Poly, r': Poly)
    requires Divided(p, q, r) && Divided(p, q', r')
    ensures r == r' && q == q'
    decreases |q|
  {
    hide Generator;
    if q == [] {
      assert forall i :: 0 <= i < 32 ==> r[i] == p[i] == r'[i];
    } else {
      Leading(p, q, r);
      Leading(p, q', r');
      OneRemainder(Rest(p, q[0]), q[1..], r, q'[1..], r');
      assert q == [q[0]] + q[1..] && q' == [q'[0]] + q'[1..];
    }
  }

  // What is left of p behind its first coefficient, which is c.
  function Rest(p: Poly, c: bool): Poly
    requires |p| >= 33
  {
    Xor(p, (if c then [true] + Generator() else Zero(33)) + Zero(|p| - 33))[1..]
  }

  lemma Leading(p: Poly, q: Poly, r: Poly)
    requires Divided(p, q, r) && q != []
    ensures p[0] == q[0] && Divided(Rest(p, q[0]), q[1..], r)
  {
    hide Generator;
    var top := (if q[0] then [true] + Generator() else Zero(33)) + Zero(|q| - 1);
    var low := Multiple(q[1..]);
    assert Multiple(q) == Xor(top, [false] + low);
    var left, right := Rest(p, q[0]), Xor(low, Zero(|q| - 1) + r);
    forall i | 0 <= i < |left|
      ensures left[i] == right[i]
    {
      assert (Zero(|q|) + r)[i + 1] == (Zero(|q| - 1) + r)[i];
    }
  }

  // ---- the checksum ----

  // The message with its first 32 coefficients complemented and 32 zeros behind it.
  function Prepared(m: bytes): Poly {
    Xor(MessageBits(m) + Zero(32), Same(32, true) + Zero(8 * |m|))
  }

  // The checksum is the number whose bits, the lowest first, are the complemented coefficients
  // of the remainder, from x^31 down; there is only one remainder.
  lemma ChecksumIsRemainder(m: bytes) returns (q: Poly, r: Poly)
    ensures Divided(Prepared(m), q, r) && Checksum(m) == Number(Xor(r, Same(32, true)))
    ensures forall q', r' :: Divided(Prepared(m), q', r') ==> r' == r
  {
    hide Steps, Feed, MessageBits, Divided;
    assert NEW_IEEE == Same(32, true) by { AllOnes(); }
    r := Feed(NEW_IEEE, m);
    FeedIsSteps(NEW_IEEE, m);
    q := StepsDivide(NEW_IEEE, MessageBits(m));
    forall q', r' | Divided(Prepared(m), q', r')
      ensures r' == r
    {
      OneRemainder(Prepared(m), q, r, q', r');
    }
  }

  lemma AllOnes()
    ensures NEW_IEEE == Same(32, true)
  {
  }

  // ---- a message with its checksum behind it ----

  lemma Doubled(low: nat, p: nat, high: nat)
    ensures 2 * (low + p * high) == 2 * low + 2 * p * high
  {
  }

  lemma {:induction false} NumberSplit(s: Poly, k: nat)
    requires k <= |s|
    ensures Number(s) == Number(s[..k]) + Power2(k) * Number(s[k..])
    decreases k
  {
    if k == 0 {
      assert s[0..] == s;
    } else {
      NumberSplit(s[1..], k - 1);
      assert s[..k][1..] == s[1..][..k - 1] && s[1..][k - 1..] == s[k..];
      assert s[..k][0] == s[0] && Power2(k) == 2 * Power2(k - 1);
      Doubled(Number(s[1..][..k - 1]), Power2(k - 1), Number(s[k..]));
    }
  }

  lemma Halved(n: nat, bit: nat, weight: nat)
    requires bit < 2 && weight in {1, 2, 4, 8, 16, 32, 64}
    ensures (bit + 2 * n) / (2 * weight) == n / weight
  {
  }

  lemma {:induction false} BitAt(s: Poly, k: nat)
    requires k < |s| <= 8
    ensures Number(s) / Power2(k) % 2 == (if s[k] then 1 else 0)
    decreases k
  {
    Powers();
    if k > 0 {
      BitAt(s[1..], k - 1);
      Halved(Number(s[1..]), if s[0] then 1 else 0, Power2(k - 1));
    }
  }

  lemma Powers()
    ensures Power2(0) == 1 && Power2(1) == 2 && Power2(2) == 4 && Power2(3) == 8
    ensures Power2(4) == 16 && Power2(5) == 32 && Power2(6) == 64 && Power2(7) == 128 && Power2(8) == 256
  {
  }

  lemma BitsOfNumber(s: Poly)
    requires |s| == 8
    ensures Number(s) < 256 && ByteBits(Number(s)) == s
  {
    Powers();
    hide Number, Bit, Power2;
    NumberBit(s, 0);
    NumberBit(s, 1);
    NumberBit(s, 2);
    NumberBit(s, 3);
    NumberBit(s, 4);
    NumberBit(s, 5);
    NumberBit(s, 6);
    NumberBit(s, 7);
  }

  lemma NumberBit(s: Poly, k: nat)
    requires k < |s| == 8
    ensures Number(s) < 256 && Bit(Number(s), Power2(k)) == s[k]
  {
    Powers();
    BitAt(s, k);
  }

  lemma BytesOfNumber(s: Poly)
    requires |s| == 32
    ensures
      var a, b, c, d := Number(s[..8]), Number(s[8..16]), Number(s[16..24]), Number(s[24..]);
      a < 256 && b < 256 && c < 256 && d < 256 && Number(s) == a + 0x100 * b + 0x1_0000 * c + 0x100_0000 * d
  {
    Powers();
    hide Number;
    NumberSplit(s, 8);
    NumberSplit(s[8..], 8);
    NumberSplit(s[16..], 8);
    assert s[8..][..8] == s[8..16] && s[8..][8..] == s[16..];
    assert s[16..][..8] == s[16..24] && s[16..][8..] == s[24..];
  }

  lemma PutNumber(a: byte, b: byte, c: byte, d: byte)
    ensures Put32(a + 0x100 * b + 0x1_0000 * c + 0x100_0000 * d) == [a, b, c, d]
  {
    hide Put32;
    PutGet32([a, b, c, d], 0);
    assert [a, b, c, d][0..4] == [a, b, c, d];
    assert Get32([a, b, c, d], 0) == a + 0x100 * b + 0x1_0000 * c + 0x100_0000 * d;
  }

  lemma MessageFirst(b: byte, rest: bytes)
    ensures MessageBits([b] + rest) == ByteBits(b) + MessageBits(rest)
  {
    assert ([b] + rest)[1..] == rest;
  }

  lemma FourBytes(a: byte, b: byte, c: byte, d: byte)
    ensures MessageBits([a, b, c, d]) == ByteBits(a) + (ByteBits(b) + (ByteBits(c) + ByteBits(d)))
  {
    hide ByteBits;
    assert [a, b, c, d] == [a] + [b, c, d] && [b, c, d] == [b] + [c, d] && [c, d] == [c] + [d] && [d] == [d] + [];
    MessageFirst(a, [b, c, d]);
    MessageFirst(b, [c, d]);
    MessageFirst(c, [d]);
    MessageFirst(d, []);
    assert MessageBits([]) == [] && ByteBits(d) + [] == ByteBits(d);
  }

  lemma MessageOfNumber(s: Poly)
    requires |s| == 32
    ensures Number(s) < 0x1_0000_0000 && MessageBits(Put32(Number(s))) == s
  {
    hide Number, ByteBits, Put32, MessageBits;
    BytesOfNumber(s);
    var a, b, c, d := s[..8], s[8..16], s[16..24], s[24..];
    BitsOfNumber(a);
    BitsOfNumber(b);
    BitsOfNumber(c);
    BitsOfNumber(d);
    PutNumber(Number(a), Number(b), Number(c), Number(d));
    FourBytes(Number(a), Number(b), Number(c), Number(d));
    assert s == a + (b + (c + d));
  }

  // The checksum of a message that carries its own is the same for every message: that of four
  // zero bytes.
  lemma SelfChecking(m: bytes)
    ensures Checksum(m + Put32(Checksum(m))) == Checksum([0, 0, 0, 0])
  {
    hide Steps, Feed, MessageBits, Number, With, Put32, ByteBits;
    var h := Feed(NEW_IEEE, m);
    var rest := Xor(h, NEW_IEEE);
    MessageOfNumber(rest);
    FeedConcat(NEW_IEEE, m, Put32(Checksum(m)));
    FeedIsSteps(h, Put32(Checksum(m)));
    PutIn(h, rest);
    AllOnes();
    PutInComplement(h, Same(32, true));
    FeedIsSteps(NEW_IEEE, [0, 0, 0, 0]);
    ZeroMessage();
  }

  lemma PutInComplement(h: Hash, ones: Poly)
    requires |ones| == 32 && forall i :: 0 <= i < 32 ==> ones[i]
    ensures With(h, Xor(h, ones)) == ones
  {
    hide Xor, With;
    var s := With(h, Xor(h, ones));
    assert forall i :: 0 <= i < 32 ==> s[i] == ones[i];
  }

  lemma ZeroMessage()
    ensures MessageBits([0, 0, 0, 0]) == Zero(32)
  {
    FourBytes(0, 0, 0, 0);
    assert forall i :: 0 <= i < 8 ==> !ByteBits(0)[i];
  }
}
