/** Text written as string literals, and the numbers in it. What the protocol's constants and
    printers stand for is stated against this. */
module Characters {
  import opened Bytes

  predicate IsAscii(t: string) {
    forall i :: 0 <= i < |t| ==> t[i] as int < 128
  }

  /** The character codes of a literal. */
  function Ascii(t: string): (s: bytes)
    requires IsAscii(t)
    ensures |s| == |t| && forall i :: 0 <= i < |t| ==> s[i] == t[i] as int
  {
    seq(|t|, i requires 0 <= i < |t| => t[i] as int)
  }

  /** A byte string is this literal. */
  predicate Spells(s: bytes, t: string) {
    |s| == |t| && forall i :: 0 <= i < |t| ==> s[i] == t[i] as int
  }

  lemma Joined(t: string, u: string)
    requires IsAscii(t) && IsAscii(u)
    ensures IsAscii(t + u) && Ascii(t + u) == Ascii(t) + Ascii(u)
  {
  }

  const DIGITS: string := "0123456789"

  predicate IsDigits(t: string) {
    forall i :: 0 <= i < |t| ==> t[i] in DIGITS
  }

  /** The position of a digit among the digits. */
  function DigitOf(c: char): (d: nat)
    requires c in DIGITS
    ensures d < 10 && DIGITS[d] == c
  {
    var i :| 0 <= i < |DIGITS| && DIGITS[i] == c;
    i
  }

  /** The number a decimal text stands for. */
  function Horner(t: string): nat
    requires IsDigits(t)
  {
    if t == "" then 0 else 10 * Horner(t[..|t| - 1]) + DigitOf(t[|t| - 1])
  }

  /** The decimal text of a number. */
  function Print(n: nat): (t: string)
    ensures t != "" && IsDigits(t)
  {
    if n < 10 then [DIGITS[n]] else Print(n / 10) + [DIGITS[n % 10]]
  }

  lemma DigitCode(c: char)
    requires c in DIGITS
    ensures c as int == '0' as int + DigitOf(c)
  {
    var d := DigitOf(c);
    assert d == 0 || d == 1 || d == 2 || d == 3 || d == 4 || d == 5 || d == 6 || d == 7 || d == 8 || d == 9;
  }

  lemma DigitsAreAscii(t: string)
    requires IsDigits(t)
    ensures IsAscii(t)
  {
    forall i | 0 <= i < |t|
      ensures t[i] as int < 128
    {
      DigitCode(t[i]);
    }
  }

  /** The characters with a meaning of their own. */
  lemma Codes()
    ensures Ascii("\r\n") == [13, 10] && Ascii("\n") == [10] && Ascii("-1") == [45, 49]
    ensures Ascii("+") == [43] && Ascii("-") == [45] && Ascii(":") == [58] && Ascii("$") == [36] && Ascii("*") == [42]
  {
  }
}
