/** Decimal text: what `itoa` prints and what Rust's integer `parse` accepts. */
module Decimal {
  import opened Bytes
  import opened Characters

  const USIZE_MAX: nat := 0xFFFF_FFFF_FFFF_FFFF
  const I64_MIN: int := -0x8000_0000_0000_0000
  const I64_MAX: int := 0x7FFF_FFFF_FFFF_FFFF

  type i64 = i: int | I64_MIN <= i <= I64_MAX

  predicate IsDigit(b: byte) {
    ZERO <= b <= 57
  }

  predicate AllDigits(s: bytes) {
    forall i :: 0 <= i < |s| ==> IsDigit(s[i])
  }

  function Digits(n: nat): (s: bytes)
    ensures s != [] && AllDigits(s)
    ensures n > 0 ==> s[0] != ZERO
  {
    if n < 10 then [ZERO + n] else Digits(n / 10) + [ZERO + n % 10]
  }

  function Signed(i: int): (s: bytes)
    ensures s != []
  {
    if i < 0 then [MINUS] + Digits(-i) else Digits(i)
  }

  function DigitsValue(s: bytes): nat
    requires AllDigits(s)
  {
    if s == [] then 0 else 10 * DigitsValue(s[..|s| - 1]) + (s[|s| - 1] - ZERO)
  }

  /** `str::parse::<usize>`: an optional `+`, then digits, in range. */
  function ParseUsize(s: bytes): (r: Option<nat>)
    ensures r.Some? ==> r.value <= USIZE_MAX
  {
    var digits := if |s| > 1 && s[0] == PLUS then s[1..] else s;
    if digits == [] || !AllDigits(digits) || DigitsValue(digits) > USIZE_MAX then None
    else Some(DigitsValue(digits))
  }

  /** `str::parse::<i64>`: an optional `+` or `-`, then digits, in range. */
  function ParseI64(s: bytes): (r: Option<i64>)
  {
    var negative := |s| > 1 && s[0] == MINUS;
    var digits := if |s| > 1 && (s[0] == PLUS || s[0] == MINUS) then s[1..] else s;
    if digits == [] || !AllDigits(digits) then None
    else
      var magnitude: int := DigitsValue(digits);
      var v := if negative then -magnitude else magnitude;
      if I64_MIN <= v <= I64_MAX then Some(v) else None
  }

  lemma {:induction false} DigitsRoundTrip(n: nat)
    ensures DigitsValue(Digits(n)) == n
  {
    if n >= 10 {
      DigitsRoundTrip(n / 10);
      assert Digits(n)[..|Digits(n)| - 1] == Digits(n / 10);
    }
  }

  lemma UsizeRoundTrip(n: nat)
    requires n <= USIZE_MAX
    ensures ParseUsize(Digits(n)) == Some(n)
  {
    DigitsRoundTrip(n);
  }

  lemma I64RoundTrip(i: int)
    requires I64_MIN <= i <= I64_MAX
    ensures ParseI64(Signed(i)) == Some(i)
  {
    hide Digits, DigitsValue;
    if i < 0 {
      DigitsRoundTrip(-i);
      assert Signed(i)[1..] == Digits(-i);
    } else {
      DigitsRoundTrip(i);
    }
  }

  function Pow10(k: nat): nat {
    if k == 0 then 1 else 10 * Pow10(k - 1)
  }

  lemma {:induction false} DigitsLength(n: nat, k: nat)
    requires k > 0 && n < Pow10(k)
    ensures |Digits(n)| <= k
  {
    if n >= 10 {
      DigitsLength(n / 10, k - 1);
    }
  }

  /** The text of a 64-bit number is short. */
  lemma Digits64(n: nat)
    requires n <= USIZE_MAX
    ensures |Digits(n)| <= 20
  {
    assert Pow10(5) == 100_000;
    assert Pow10(10) == 100_000 * 100_000;
    assert Pow10(15) == 100_000 * 100_000 * 100_000;
    assert Pow10(20) == 100_000 * 100_000 * 100_000 * 100_000;
    DigitsLength(n, 20);
  }

  lemma NoLineFeed(i: int)
    ensures LF !in Signed(i) && (i >= 0 ==> LF !in Digits(i))
  {
  }

  /** Number of decimal digits, by repeated division. */
  method DecimalLen(n: nat) returns (len: nat)
    ensures len == |Digits(n)|
  {
    if n == 0 {
      return 1;
    }
    var m := n;
    len := 0;
    while m > 0
      invariant |Digits(n)| == len + if m == 0 then 0 else |Digits(m)|
    {
      len := len + 1;
      m := m / 10;
    }
  }

  // ---------- As text ----------

  lemma OneDigit(d: nat)
    requires d < 10
    ensures IsAscii([DIGITS[d]]) && Ascii([DIGITS[d]]) == [ZERO + d]
  {
    DigitCode(DIGITS[d]);
    PositionOf(d);
  }

  /** Printed numbers are decimal text. */
  lemma {:induction false} DigitsText(n: nat)
    ensures IsAscii(Print(n)) && Digits(n) == Ascii(Print(n))
  {
    hide IsAscii, Ascii, IsDigits, AllDigits;
    if n < 10 {
      OneDigit(n);
    } else {
      DigitsText(n / 10);
      OneDigit(n % 10);
      Joined(Print(n / 10), [DIGITS[n % 10]]);
    }
  }

  lemma PositionOf(d: nat)
    requires d < 10
    ensures DigitOf(DIGITS[d]) == d
  {
    DigitCode(DIGITS[d]);
    assert d == 0 || d == 1 || d == 2 || d == 3 || d == 4 || d == 5 || d == 6 || d == 7 || d == 8 || d == 9;
  }

  lemma {:induction false} ValueOfText(t: string)
    requires IsDigits(t)
    ensures IsAscii(t) && AllDigits(Ascii(t)) && DigitsValue(Ascii(t)) == Horner(t)
  {
    DigitsAreAscii(t);
    forall i | 0 <= i < |t|
      ensures IsDigit(Ascii(t)[i])
    {
      DigitCode(t[i]);
    }
    if t != "" {
      var k := |t| - 1;
      ValueOfText(t[..k]);
      assert Ascii(t)[..k] == Ascii(t[..k]);
      DigitCode(t[k]);
    }
  }

  lemma {:induction false} TextOfDigits(s: bytes) returns (t: string)
    requires AllDigits(s)
    ensures IsDigits(t) && IsAscii(t) && s == Ascii(t)
  {
    if s == [] {
      t := "";
    } else {
      var k := |s| - 1;
      var front := TextOfDigits(s[..k]);
      var d := s[k] - ZERO;
      t := front + [DIGITS[d]];
      DigitCode(DIGITS[d]);
      PositionOf(d);
      Joined(front, [DIGITS[d]]);
      DigitsAreAscii(t);
      assert s == s[..k] + [s[k]];
    }
  }

  /** An optional sign and digits, with the number they stand for. */
  ghost predicate Reads(s: bytes, sign: string, t: string, v: int) {
    (sign == "" || sign == "+" || sign == "-") && t != "" && IsDigits(t) && IsAscii(sign + t) && s == Ascii(sign + t) &&
    v == if sign == "-" then 0 - Horner(t) else Horner(t)
  }

  lemma ReadsSome(s: bytes, sign: string, t: string, v: int)
    requires Reads(s, sign, t, v)
    ensures ParseI64(s) == if -9223372036854775808 <= v <= 9223372036854775807 then Some(v) else None
    ensures sign != "-" ==> ParseUsize(s) == if v <= 18446744073709551615 then Some(v) else None
    ensures sign == "-" ==> ParseUsize(s) == None
  {
    hide Horner, DigitsValue, DigitOf;
    ValueOfText(t);
    DigitCode(t[0]);
    assert s[|sign|..] == Ascii(t);
    if sign == "" {
      assert s[0] == t[0] as int;
      assert s == Ascii(t);
    } else {
      assert s[0] == sign[0] as int && |s| > 1;
      assert s[1..] == Ascii(t);
    }
  }

  lemma SomeReads(s: bytes) returns (sign: string, t: string)
    requires ParseI64(s).Some?
    ensures Reads(s, sign, t, ParseI64(s).value)
  {
    hide Horner, DigitsValue, DigitOf;
    sign := if |s| > 1 && s[0] == 43 then "+" else if |s| > 1 && s[0] == 45 then "-" else "";
    t := TextOfDigits(s[|sign|..]);
    ValueOfText(t);
    Joined(sign, t);
    assert s == s[..|sign|] + s[|sign|..];
    assert Ascii(sign) == s[..|sign|];
  }

  /** The integer parser accepts exactly an optional sign and digits, within 64 bits. */
  lemma I64Texts(s: bytes, v: i64)
    ensures ParseI64(s) == Some(v) <==> exists sign, t :: Reads(s, sign, t, v)
  {
    hide Reads, ParseI64;
    if ParseI64(s) == Some(v) {
      var sign, t := SomeReads(s);
    }
    forall sign, t | Reads(s, sign, t, v)
      ensures ParseI64(s) == Some(v)
    {
      ReadsSome(s, sign, t, v);
    }
  }

  /** The length parser accepts exactly an optional `+` and digits, within 64 bits. */
  lemma UsizeTexts(s: bytes, v: nat)
    requires v <= 18446744073709551615
    ensures ParseUsize(s) == Some(v) <==> exists sign, t :: Reads(s, sign, t, v) && sign != "-"
  {
    hide Reads, ParseUsize;
    if ParseUsize(s) == Some(v) {
      var sign, t := SomeReadsUsize(s);
    }
    forall sign, t | Reads(s, sign, t, v) && sign != "-"
      ensures ParseUsize(s) == Some(v)
    {
      ReadsSome(s, sign, t, v);
    }
  }

  lemma SomeReadsUsize(s: bytes) returns (sign: string, t: string)
    requires ParseUsize(s).Some?
    ensures Reads(s, sign, t, ParseUsize(s).value) && sign != "-"
  {
    hide Horner, DigitsValue, DigitOf;
    sign := if |s| > 1 && s[0] == 43 then "+" else "";
    t := TextOfDigits(s[|sign|..]);
    ValueOfText(t);
    Joined(sign, t);
    assert s == s[..|sign|] + s[|sign|..];
    assert Ascii(sign) == s[..|sign|];
  }
}
