/**
 UTF-8 as defined in sections 3 and 4 of RFC 3629, and the encoding test of the archive
 writer and reader (pkg/util/zip/writer.go, detectUTF8).
 */
module Utf8 {
  import opened Bytes

  const RUNE_ERROR := 0xFFFD
  const MAX_RUNE := 0x10FFFF

  // Unicode scalar values: code points that are not surrogates.
  predicate Scalar(r: int) { 0 <= r < 0xD800 || 0xE000 <= r <= MAX_RUNE }

  predicate Continuation(b: byte) { 0x80 <= b < 0xC0 }

  function Encode(r: int): (b: bytes)
    requires Scalar(r)
    ensures 1 <= |b| <= 4
  {
    if r < 0x80 then [r]
    else if r < 0x800 then [0xC0 + r / 0x40, 0x80 + r % 0x40]
    else if r < 0x1_0000 then [0xE0 + r / 0x1000, 0x80 + r / 0x40 % 0x40, 0x80 + r % 0x40]
    else [0xF0 + r / 0x4_0000, 0x80 + r / 0x1000 % 0x40, 0x80 + r / 0x40 % 0x40, 0x80 + r % 0x40]
  }

  function EncodeAll(rs: seq<int>): bytes
    requires forall r :: r in rs ==> Scalar(r)
  {
    if rs == [] then [] else Encode(rs[0]) + EncodeAll(rs[1..])
  }

  // utf8.DecodeRuneInString: the first rune and its width, or (RUNE_ERROR, 1).
  function DecodeRune(s: bytes): (res: (int, nat))
    requires s != []
    ensures 1 <= res.1 <= |s| && res.1 <= 4
  {
    var b := s[0];
    if b < 0x80 then (b, 1)
    else if 0xC2 <= b < 0xE0 && |s| >= 2 && Continuation(s[1]) then
      ((b - 0xC0) as int * 0x40 + s[1] - 0x80, 2)
    else if 0xE0 <= b < 0xF0 && |s| >= 3 && Continuation(s[1]) && Continuation(s[2]) &&
            (b == 0xE0 ==> 0xA0 <= s[1]) && (b == 0xED ==> s[1] < 0xA0) then
      ((b - 0xE0) as int * 0x1000 + (s[1] - 0x80) as int * 0x40 + s[2] - 0x80, 3)
    else if 0xF0 <= b < 0xF5 && |s| >= 4 && Continuation(s[1]) && Continuation(s[2]) && Continuation(s[3]) &&
            (b == 0xF0 ==> 0x90 <= s[1]) && (b == 0xF4 ==> s[1] < 0x90) then
      ((b - 0xF0) as int * 0x4_0000 + (s[1] - 0x80) as int * 0x1000 + (s[2] - 0x80) as int * 0x40 + s[3] - 0x80, 4)
    else (RUNE_ERROR, 1)
  }

  predicate Undecodable(s: bytes)
    requires s != []
  {
    DecodeRune(s) == (RUNE_ERROR, 1)
  }

  // Runes that do not read the same in the legacy encodings.
  predicate Telling(r: int) { r < 0x20 || r > 0x7d || r == 0x5c }

  // The table of section 3: where the groups of six bits of a rune stand.
  lemma EncodedForm(a: int, b: int, c: int, d: int)
    requires 0 <= a < 8 && 0 <= b < 0x40 && 0 <= c < 0x40 && 0 <= d < 0x40
    requires Scalar(a * 0x4_0000 + b * 0x1000 + c * 0x40 + d)
    ensures Encode(a * 0x4_0000 + b * 0x1000 + c * 0x40 + d) ==
            if a == 0 && b == 0 && c < 2 then [c * 0x40 + d]
            else if a == 0 && b == 0 && c < 0x20 then [0xC0 + c, 0x80 + d]
            else if a == 0 && b < 0x10 then [0xE0 + b, 0x80 + c, 0x80 + d]
            else [0xF0 + a, 0x80 + b, 0x80 + c, 0x80 + d]
  {
    SixBitGroups(a, b, c, d, a * 0x4_0000 + b * 0x1000 + c * 0x40 + d);
  }

  lemma DecodeEncoded(r: int, tail: bytes)
    requires Scalar(r)
    ensures DecodeRune(Encode(r) + tail) == (r, |Encode(r)|)
  {
    if 0x1_0000 <= r {
      DecodeEncoded4(r, tail);
    } else if 0x800 <= r {
      DecodeEncoded3(r, tail);
    }
  }

  lemma DecodeEncoded3(r: int, tail: bytes)
    requires Scalar(r) && 0x800 <= r < 0x1_0000
    ensures DecodeRune(Encode(r) + tail) == (r, 3)
  {
    var a, b, c := r / 0x1000, r / 0x40 % 0x40, r % 0x40;
    assert r == a * 0x1000 + b * 0x40 + c;
    assert Encode(r) + tail == [0xE0 + a, 0x80 + b, 0x80 + c] + tail;
  }

  lemma DecodeEncoded4(r: int, tail: bytes)
    requires Scalar(r) && 0x1_0000 <= r
    ensures DecodeRune(Encode(r) + tail) == (r, 4)
  {
    var a, b, c, d := r / 0x4_0000, r / 0x1000 % 0x40, r / 0x40 % 0x40, r % 0x40;
    FourGroups(r);
    var s := [0xF0 + a, 0x80 + b, 0x80 + c, 0x80 + d] + tail;
    assert Encode(r) + tail == s;
    DecodeFour(s, a, b, c, d);
  }

  // Bytes that are in range for a rune of four are decoded as one.
  lemma DecodeFour(s: bytes, a: int, b: int, c: int, d: int)
    requires |s| >= 4 && s[0] == 0xF0 + a && s[1] == 0x80 + b && s[2] == 0x80 + c && s[3] == 0x80 + d
    requires 0 <= a < 5 && 0 <= b < 0x40 && 0 <= c < 0x40 && 0 <= d < 0x40
    requires (a == 0 ==> b >= 0x10) && (a == 4 ==> b < 0x10)
    ensures DecodeRune(s) == (a * 0x4_0000 + b * 0x1000 + c * 0x40 + d, 4)
  {
  }

  lemma FourGroups(r: int)
    requires 0x1_0000 <= r <= MAX_RUNE
    ensures var a, b := r / 0x4_0000, r / 0x1000 % 0x40;
            && 0 <= a < 5 && (a == 0 ==> b >= 0x10) && (a == 4 ==> b < 0x10)
            && r == a * 0x4_0000 + b * 0x1000 + r / 0x40 % 0x40 * 0x40 + r % 0x40
  {
    var x, y := r / 0x40, r / 0x1000;
    assert x == 0x40 * (x / 0x40) + x % 0x40 && x / 0x40 == y;
    assert y == 0x40 * (y / 0x40) + y % 0x40 && y / 0x40 == r / 0x4_0000;
  }

  lemma EncodeDecoded(s: bytes)
    requires s != [] && !Undecodable(s)
    ensures var (r, n) := DecodeRune(s); Scalar(r) && Encode(r) == s[..n]
  {
    var (r, n) := DecodeRune(s);
    if n == 2 {
      SixBitGroups(0, 0, s[0] - 0xC0, s[1] - 0x80, r);
    } else if n == 3 {
      SixBitGroups(0, s[0] - 0xE0, s[1] - 0x80, s[2] - 0x80, r);
    } else if n == 4 {
      SixBitGroups(s[0] - 0xF0, s[1] - 0x80, s[2] - 0x80, s[3] - 0x80, r);
    }
  }

  lemma SixBitGroups(a: int, b: int, c: int, d: int, v: int)
    requires 0 <= a < 8 && 0 <= b < 0x40 && 0 <= c < 0x40 && 0 <= d < 0x40
    requires v == a * 0x4_0000 + b * 0x1000 + c * 0x40 + d
    ensures v % 0x40 == d && v / 0x40 % 0x40 == c && v / 0x1000 % 0x40 == b && v / 0x4_0000 == a
    ensures a == 0 ==> v / 0x1000 == b
    ensures a == 0 && b == 0 ==> v / 0x40 == c
  {
    assert v == 0x40 * (a * 0x1000 + b * 0x40 + c) + d;
    assert v == 0x1000 * (a * 0x40 + b) + (c * 0x40 + d);
    assert v / 0x40 == 0x40 * (a * 0x40 + b) + c;
  }

  // The result of detectUTF8 from some point on, when `require` was found so far.
  function Detect(s: bytes, require: bool): (bool, bool) {
    if s == [] then (true, require)
    else if Undecodable(s) then (false, false)
    else var (r, n) := DecodeRune(s); Detect(s[n..], require || Telling(r))
  }

  function DetectUTF8(s: bytes): (bool, bool) { Detect(s, false) }

  method DetectUTF8Loop(s: bytes) returns (valid: bool, require: bool)
    ensures (valid, require) == DetectUTF8(s)
  {
    require := false;
    var i := 0;
    while i < |s|
      invariant i <= |s|
      invariant Detect(s[i..], require) == DetectUTF8(s)
    {
      var (r, size) := DecodeRune(s[i..]);
      ghost var here := s[i..];
      i := i + size;
      assert here[size..] == s[i..];
      if r < 0x20 || r > 0x7d || r == 0x5c {
        if !Scalar(r) || (r == RUNE_ERROR && size == 1) {
          if !Scalar(r) { EncodeDecoded(here); }
          return false, false;
        }
        require := true;
      }
    }
    valid := true;
  }

  // The runes of a well-formed string.
  ghost predicate Spells(rs: seq<int>, s: bytes) {
    (forall r :: r in rs ==> Scalar(r)) && EncodeAll(rs) == s
  }

  lemma {:induction false} DetectSpelled(rs: seq<int>, s: bytes, require: bool)
    requires Spells(rs, s)
    ensures Detect(s, require) == (true, require || exists r :: r in rs && Telling(r))
  {
    if rs != [] {
      var r, tail := rs[0], EncodeAll(rs[1..]);
      DecodeEncoded(r, tail);
      var n := |Encode(r)|;
      assert s[n..] == tail;
      DetectSpelled(rs[1..], tail, require || Telling(r));
      assert forall x :: x in rs <==> x == r || x in rs[1..];
    }
  }

  lemma {:induction false} SpellDetected(s: bytes, require: bool) returns (rs: seq<int>)
    requires Detect(s, require).0
    ensures Spells(rs, s)
  {
    if s == [] {
      rs := [];
    } else {
      var (r, n) := DecodeRune(s);
      EncodeDecoded(s);
      var tail := SpellDetected(s[n..], require || Telling(r));
      rs := [r] + tail;
      assert rs[1..] == tail && s == s[..n] + s[n..];
    }
  }

  // detectUTF8 is valid exactly on UTF-8, and then requires UTF-8 exactly when some rune
  // is a control character, a backslash or beyond '}'; on anything else it requires nothing.
  lemma DetectUTF8Correct(s: bytes)
    ensures DetectUTF8(s).0 <==> exists rs :: Spells(rs, s)
    ensures forall rs :: Spells(rs, s) ==>
              (DetectUTF8(s).1 <==> exists r :: r in rs && (r < 0x20 || r > 0x7d || r == 0x5c))
    ensures !DetectUTF8(s).0 ==> !DetectUTF8(s).1
  {
    if DetectUTF8(s).0 {
      var rs := SpellDetected(s, false);
    } else {
      InvalidRequiresNothing(s, false);
    }
    forall rs | Spells(rs, s)
      ensures DetectUTF8(s).0 && (DetectUTF8(s).1 <==> exists r :: r in rs && Telling(r))
    {
      DetectSpelled(rs, s, false);
    }
  }

  lemma {:induction false} InvalidRequiresNothing(s: bytes, require: bool)
    requires !Detect(s, require).0
    ensures !Detect(s, require).1
  {
    if !Undecodable(s) {
      var (r, n) := DecodeRune(s);
      InvalidRequiresNothing(s[n..], require || Telling(r));
    }
  }
}
