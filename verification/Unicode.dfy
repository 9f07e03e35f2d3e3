/** UTF-8 as the encoding of code points: what the byte-level checks are measured against. */
module Unicode {
  import opened Bytes
  import opened Utf8

  /** A code point that is no surrogate. */
  type Scalar = c: int | 0 <= c <= 0xD7FF || 0xE000 <= c <= 0x10FFFF

  function Encoded(c: Scalar): (s: bytes)
    ensures 1 <= |s| <= 4
  {
    if c < 0x80 then [c]
    else if c < 0x800 then [0xC0 + c / 64, 0x80 + c % 64]
    else if c < 0x10000 then [0xE0 + c / 4096, 0x80 + c / 64 % 64, 0x80 + c % 64]
    else [0xF0 + c / 262144, 0x80 + c / 4096 % 64, 0x80 + c / 64 % 64, 0x80 + c % 64]
  }

  function AllEncoded(cs: seq<Scalar>): bytes {
    if cs == [] then [] else Encoded(cs[0]) + AllEncoded(cs[1..])
  }

  /** An encoded code point is recognised, whatever follows it. */
  lemma FrontOfEncoded(c: Scalar, rest: bytes)
    ensures Front(Encoded(c) + rest) == |Encoded(c)|
  {
    var s := Encoded(c) + rest;
    assert s[0] == Encoded(c)[0];
    if c >= 0x80 {
      assert s[1] == Encoded(c)[1];
    }
    if c >= 0x800 {
      assert s[2] == Encoded(c)[2];
      if c < 0x10000 { SecondOfThree(c); }
    }
    if c >= 0x10000 {
      assert s[3] == Encoded(c)[3];
      SecondOfFour(c);
    }
  }

  lemma SecondOfThree(c: Scalar)
    requires 0x800 <= c < 0x10000
    ensures 0xE0 <= 0xE0 + c / 4096 <= 0xEF && SecondByte(0xE0 + c / 4096, 0x80 + c / 64 % 64)
  {
    var high := c / 4096;
    assert c / 64 / 64 == high;
    assert c / 64 % 64 == c / 64 - 64 * high;
  }

  lemma SecondOfFour(c: Scalar)
    requires 0x10000 <= c
    ensures 0xF0 <= 0xF0 + c / 262144 <= 0xF4 && SecondByte(0xF0 + c / 262144, 0x80 + c / 4096 % 64)
  {
    var high := c / 262144;
    assert c / 4096 / 64 == high;
    assert c / 4096 % 64 == c / 4096 - 64 * high;
  }

  lemma ThreeParts(high: int, mid: int, low: int)
    requires 0 <= high < 16 && 0 <= mid < 64 && 0 <= low < 64
    ensures var c := high * 4096 + mid * 64 + low; c / 4096 == high && c / 64 % 64 == mid && c % 64 == low
  {
    var c := high * 4096 + mid * 64 + low;
    assert c / 64 == high * 64 + mid;
  }

  lemma FourParts(top: int, high: int, mid: int, low: int)
    requires 0 <= top < 5 && 0 <= high < 64 && 0 <= mid < 64 && 0 <= low < 64
    ensures var c := top * 262144 + high * 4096 + mid * 64 + low;
      c / 262144 == top && c / 4096 % 64 == high && c / 64 % 64 == mid && c % 64 == low
  {
    var c := top * 262144 + high * 4096 + mid * 64 + low;
    assert c / 64 == top * 4096 + high * 64 + mid;
    assert c / 4096 == top * 64 + high;
  }

  /** What is recognised is an encoded code point. */
  lemma EncodedOfFront(s: bytes) returns (c: Scalar)
    requires s != [] && Front(s) > 0
    ensures s[..Front(s)] == Encoded(c)
  {
    var k := Front(s);
    var b0: int := s[0];
    if k == 1 {
      c := b0;
    } else if k == 2 {
      var b1: int := s[1];
      c := (b0 - 0xC0) * 64 + (b1 - 0x80);
    } else if k == 3 {
      var b1: int, b2: int := s[1], s[2];
      ThreeParts(b0 - 0xE0, b1 - 0x80, b2 - 0x80);
      c := (b0 - 0xE0) * 4096 + (b1 - 0x80) * 64 + (b2 - 0x80);
    } else {
      var b1: int, b2: int, b3: int := s[1], s[2], s[3];
      FourParts(b0 - 0xF0, b1 - 0x80, b2 - 0x80, b3 - 0x80);
      c := (b0 - 0xF0) * 262144 + (b1 - 0x80) * 4096 + (b2 - 0x80) * 64 + (b3 - 0x80);
    }
  }

  /** The check accepts exactly the encodings of sequences of code points. */
  lemma {:induction false} ValidIff(s: bytes)
    ensures Valid(s) <==> exists cs :: s == AllEncoded(cs)
  {
    hide Front, Encoded;
    if Valid(s) {
      var cs := Decoded(s);
    }
    forall cs | s == AllEncoded(cs)
      ensures Valid(s)
    {
      EncodedValid(cs);
    }
  }

  lemma {:induction false} Decoded(s: bytes) returns (cs: seq<Scalar>)
    requires Valid(s)
    ensures s == AllEncoded(cs)
  {
    hide Front, Encoded;
    if s == [] {
      cs := [];
    } else {
      var c := EncodedOfFront(s);
      var rest := Decoded(s[Front(s)..]);
      cs := [c] + rest;
      assert cs[1..] == rest;
      assert s == s[..Front(s)] + s[Front(s)..];
    }
  }

  lemma {:induction false} EncodedValid(cs: seq<Scalar>)
    ensures Valid(AllEncoded(cs))
  {
    hide Front, Encoded;
    if cs != [] {
      EncodedValid(cs[1..]);
      FrontOfEncoded(cs[0], AllEncoded(cs[1..]));
      assert (Encoded(cs[0]) + AllEncoded(cs[1..]))[|Encoded(cs[0])|..] == AllEncoded(cs[1..]);
    }
  }

  // ---------- Repair ----------

  /** These bytes begin the encoding of a code point. */
  ghost predicate Begins(p: bytes) {
    exists c :: BeginsOf(p, c)
  }

  ghost predicate BeginsOf(p: bytes, c: Scalar) {
    |p| <= |Encoded(c)| && Encoded(c)[..|p|] == p
  }

  /** What is replaced is as much as still could have become a code point, or one byte. */
  lemma BadFrontIsMaximal(s: bytes)
    requires s != [] && Front(s) == 0
    ensures var k := BadFront(s);
      (k == 1 || Begins(s[..k])) && (k < |s| ==> !Begins(s[..k + 1]))
  {
    var k := BadFront(s);
    if k == 2 {
      CompletedTwo(s);
    } else if k == 3 {
      CompletedThree(s);
    }
    if k < |s| && Begins(s[..k + 1]) {
      var c :| BeginsOf(s[..k + 1], c);
      NotBegun(s, c);
    }
  }

  lemma CompletedTwo(s: bytes)
    requires s != [] && Front(s) == 0 && BadFront(s) == 2
    ensures Begins(s[..2])
  {
    var full := if Width(s[0]) == 3 then [s[0], s[1], 0x80] else [s[0], s[1], 0x80, 0x80];
    var c := EncodedOfFront(full);
    assert full[..|full|] == full;
    assert BeginsOf(s[..2], c);
  }

  lemma CompletedThree(s: bytes)
    requires s != [] && Front(s) == 0 && BadFront(s) == 3
    ensures Begins(s[..3])
  {
    var full := [s[0], s[1], s[2], 0x80];
    var c := EncodedOfFront(full);
    assert full[..|full|] == full;
    assert BeginsOf(s[..3], c);
  }

  lemma NotBegun(s: bytes, c: Scalar)
    requires s != [] && Front(s) == 0 && BadFront(s) < |s|
    ensures !BeginsOf(s[..BadFront(s) + 1], c)
  {
    var e := Encoded(c);
    FrontOfEncoded(c, []);
    assert e + [] == e;
  }

  /** Lossy conversion keeps the code points in front, puts U+FFFD for the first ill-formed part,
      and goes on behind it. */
  lemma {:induction false} LossyRepairs(cs: seq<Scalar>, bad: bytes)
    requires bad != [] && Front(bad) == 0
    ensures Lossy(AllEncoded(cs) + bad) == AllEncoded(cs) + (Encoded(0xFFFD) + Lossy(bad[BadFront(bad)..]))
  {
    hide Front, BadFront;
    if cs == [] {
      assert [] + bad == bad;
    } else {
      var rest := AllEncoded(cs[1..]) + bad;
      var s := AllEncoded(cs) + bad;
      Assoc(Encoded(cs[0]), AllEncoded(cs[1..]), bad);
      FrontOfEncoded(cs[0], rest);
      assert s[..|Encoded(cs[0])|] == Encoded(cs[0]) && s[|Encoded(cs[0])|..] == rest;
      LossyRepairs(cs[1..], bad);
      Assoc(Encoded(cs[0]), AllEncoded(cs[1..]), Encoded(0xFFFD) + Lossy(bad[BadFront(bad)..]));
    }
  }
}
