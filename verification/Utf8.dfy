/** UTF-8 validity and lossy decoding, on bytes. Well-formed sequences are those of
    table 3-7 of the Unicode Standard; each maximal ill-formed subpart becomes one
    U+FFFD. A Rust `String` is a `Str`. */
module Utf8 {
  import opened Bytes

  const REPLACEMENT: bytes := [0xEF, 0xBF, 0xBD]

  type Str = s: bytes | Valid(s) witness []

  predicate Continuation(b: byte) {
    0x80 <= b <= 0xBF
  }

  /** Length of a sequence that starts with `lead`; 0 when none does. */
  function Width(lead: byte): nat {
    if lead < 0x80 then 1
    else if 0xC2 <= lead <= 0xDF then 2
    else if 0xE0 <= lead <= 0xEF then 3
    else if 0xF0 <= lead <= 0xF4 then 4
    else 0
  }

  predicate SecondByte(lead: byte, b: byte) {
    if lead == 0xE0 then 0xA0 <= b <= 0xBF
    else if lead == 0xED then 0x80 <= b <= 0x9F
    else if lead == 0xF0 then 0x90 <= b <= 0xBF
    else if lead == 0xF4 then 0x80 <= b <= 0x8F
    else Continuation(b)
  }

  /** Length of the well-formed sequence at the front of `s`; 0 when there is none. */
  function Front(s: bytes): (n: nat)
    requires s != []
    ensures n <= |s|
  {
    var w := Width(s[0]);
    if w <= 1 then w
    else if |s| < w || !SecondByte(s[0], s[1]) then 0
    else if w >= 3 && !Continuation(s[2]) then 0
    else if w == 4 && !Continuation(s[3]) then 0
    else w
  }

  /** Length of the ill-formed subpart at the front of `s`. */
  function BadFront(s: bytes): (n: nat)
    requires s != [] && Front(s) == 0
    ensures 1 <= n <= |s|
  {
    if Width(s[0]) == 0 || |s| < 2 || !SecondByte(s[0], s[1]) then 1
    else if |s| < 3 || !Continuation(s[2]) then 2
    else 3
  }

  predicate Valid(s: bytes) {
    s == [] || (Front(s) > 0 && Valid(s[Front(s)..]))
  }

  function Lossy(s: bytes): (t: Str)
  {
    if s == [] then []
    else if Front(s) > 0 then
      ValidPrepend(s[..Front(s)], Lossy(s[Front(s)..]));
      s[..Front(s)] + Lossy(s[Front(s)..])
    else
      ValidPrepend(REPLACEMENT, Lossy(s[BadFront(s)..]));
      REPLACEMENT + Lossy(s[BadFront(s)..])
  }

  lemma ValidPrepend(one: bytes, rest: bytes)
    requires one != [] && Front(one) == |one| && Valid(rest)
    ensures Valid(one + rest)
  {
    var s := one + rest;
    assert s[0] == one[0] && |one| == Width(one[0]);
    assert |one| >= 2 ==> s[1] == one[1];
    assert |one| >= 3 ==> s[2] == one[2];
    assert |one| >= 4 ==> s[3] == one[3];
    assert Front(s) == |one|;
    assert s[|one|..] == rest;
  }

  lemma {:induction false} LossyOfValid(s: bytes)
    requires Valid(s)
    ensures Lossy(s) == s
  {
    if s != [] {
      LossyOfValid(s[Front(s)..]);
      assert s == s[..Front(s)] + s[Front(s)..];
    }
  }

  /** Lossy decoding changes nothing exactly when there is nothing to repair. */
  lemma LossyFixesOnlyInvalid(s: bytes)
    ensures Lossy(s) == s <==> Valid(s)
  {
    if Valid(s) { LossyOfValid(s); }
  }

  /** Lossy decoding never makes up an ASCII byte. */
  lemma {:induction false} LossyAddsNoAscii(s: bytes, b: byte)
    requires b < 0x80 && b !in s
    ensures b !in Lossy(s)
  {
    if s != [] {
      var k := if Front(s) > 0 then Front(s) else BadFront(s);
      LossyAddsNoAscii(s[k..], b);
    }
  }

  predicate AllAscii(s: bytes) {
    forall i :: 0 <= i < |s| ==> s[i] < 0x80
  }

  lemma {:induction false} AsciiValid(s: bytes)
    requires AllAscii(s)
    ensures Valid(s)
  {
    if s != [] {
      AsciiValid(s[1..]);
    }
  }

  /** What decodes to ASCII only was that text already. */
  lemma {:induction false} AsciiFromLossy(s: bytes)
    requires AllAscii(Lossy(s))
    ensures Lossy(s) == s
  {
    if s != [] {
      assert Lossy(s)[0] != REPLACEMENT[0];
      var k := Front(s);
      var rest := Lossy(s[k..]);
      assert Lossy(s)[|Lossy(s)| - |rest|..] == rest;
      AsciiFromLossy(s[k..]);
      assert s == s[..k] + s[k..];
    }
  }
}
