/** The protocol byte for byte: what printers write and what the parser reads, as string literals. */
module Literals {
  import opened Characters
  import opened Bytes
  import opened Utf8
  import opened Decimal
  import opened Values
  import opened Parser
  import opened Resp

  // ---------- What is written ----------

  /** Every reply's text, character by character. */
  lemma EncodeText(r: Reply)
    ensures match r {
        case SimpleString(text) => Encode(r) == Ascii("+") + text + Ascii("\r\n")
        case SimpleError(message) => Encode(r) == Ascii("-") + message + Ascii("\r\n")
        case Integer(n) => IsAscii(Print(if n < 0 then -n else n)) &&
          Encode(r) == Ascii(":") + (if n < 0 then Ascii("-") + Ascii(Print(-n)) else Ascii(Print(n))) + Ascii("\r\n")
        case Bulk(payload) => IsAscii(Print(|payload|)) &&
          Encode(r) == Ascii("$") + Ascii(Print(|payload|)) + Ascii("\r\n") + payload + Ascii("\r\n")
        case NullBulk => Encode(r) == Ascii("$-1\r\n")
        case Array(elements) => IsAscii(Print(|elements|)) &&
          Encode(r) == Ascii("*") + Ascii(Print(|elements|)) + Ascii("\r\n") + EncodeAll(elements)
        case NullArray => Encode(r) == Ascii("*-1\r\n")
      }
  {
    hide Digits, Print, EncodeAll;
    Codes();
    match r
    case Integer(n) => DigitsText(if n < 0 then -n else n);
    case Bulk(payload) => DigitsText(|payload|);
    case Array(elements) => DigitsText(|elements|);
    case _ =>
  }

  // ---------- What is read ----------

  /** A line of up to 65536 bytes is read without its line end; a longer one fails. */
  lemma LineReads(line: bytes, tail: bytes)
    requires 10 !in line
    ensures ReadLine(line + Ascii("\r\n") + tail) ==
      if |line| + 2 <= 65536 then Parsed(Ok(line), tail) else Fail(LineTooLong, line + Ascii("\r\n") + tail)
  {
    Codes();
    hide Ascii;
    if |line| + 2 <= 65536 {
      ReadLineCrlf(line, tail);
    } else {
      assert line + [13, 10] + tail == (line + [13]) + ([10] + tail);
      LineLenAppend(line + [13], [10] + tail);
    }
  }

  /** A line feed alone ends a line as well. */
  lemma BareLineFeed(line: bytes, tail: bytes)
    requires 10 !in line && |line| + 1 <= 65536 && (line == [] || line[|line| - 1] != 13)
    ensures ReadLine(line + Ascii("\n") + tail) == Parsed(Ok(line), tail)
  {
    Codes();
    hide Ascii;
    var s := line + [10] + tail;
    assert s == line + ([10] + tail);
    LineLenAppend(line, [10] + tail);
    var whole := line + [10];
    assert s[..|line| + 1] == whole && s[|line| + 1..] == tail;
    assert whole[..|line|] == line;
    if line != [] { assert whole[|line| - 1..] == [line[|line| - 1], 10]; }
  }

  /** A text of up to 65533 bytes behind `+`, as it stands if it is UTF-8. */
  lemma StatusReads(text: bytes, tail: bytes)
    requires 10 !in text && |text| <= 65533
    ensures ParseReply(Ascii("+") + text + Ascii("\r\n") + tail) == Parsed(Ok(Status(Lossy(text))), tail)
    ensures Valid(text) ==> Lossy(text) == text
  {
    Codes();
    ReadHeader(43, text, tail);
    LossyFixesOnlyInvalid(text);
  }

  lemma ErrorReads(message: bytes, tail: bytes)
    requires 10 !in message && |message| <= 65533
    ensures ParseReply(Ascii("-") + message + Ascii("\r\n") + tail) == Parsed(Err(Redis(Server(Lossy(message)))), tail)
  {
    Codes();
    ReadHeader(45, message, tail);
  }

  lemma NullsRead(tail: bytes)
    ensures ParseReply(Ascii("$-1\r\n") + tail) == Parsed(Err(Error.Nil), tail)
    ensures ParseReply(Ascii("*-1\r\n") + tail) == Parsed(Err(Error.Nil), tail)
  {
    hide ParseReply, ParseSlice, Ascii;
    EncodeText(NullBulk);
    EncodeText(NullArray);
    FlatRoundTrip(NullBulk, tail);
    FlatRoundTrip(NullArray, tail);
  }

  /** A sign and digits that fit a line behind their prefix. */
  predicate IsNumber(sign: string, t: string) {
    (sign == "" || sign == "+" || sign == "-") && t != "" && IsDigits(t) && |t| <= 65532
  }

  lemma NumberLine(first: string, sign: string, t: string, tail: bytes)
    requires |first| == 1 && IsAscii(first) && first[0] != '\n' && IsNumber(sign, t)
    ensures IsAscii(sign + t) && IsAscii(first + sign + t + "\r\n")
    ensures ParseReply(Ascii(first + sign + t + "\r\n") + tail) == Dispatch(first[0] as int, Ascii(sign + t), tail)
    ensures Reads(Ascii(sign + t), sign, t, if sign == "-" then 0 - Horner(t) else Horner(t))
  {
    hide ParseReply, Dispatch, Horner;
    Codes();
    DigitsAreAscii(t);
    Joined(sign, t);
    Joined(first, sign + t);
    assert first + (sign + t) == first + sign + t;
    Joined(first + sign + t, "\r\n");
    NoLfInNumber(sign, t);
    ReadHeader(first[0] as int, Ascii(sign + t), tail);
    assert Ascii(first) == [first[0] as int];
  }

  lemma NoLfInNumber(sign: string, t: string)
    requires IsNumber(sign, t) && IsAscii(sign + t)
    ensures 10 !in Ascii(sign + t)
  {
    forall i | 0 <= i < |sign + t|
      ensures Ascii(sign + t)[i] != 10
    {
      if i >= |sign| { DigitCode(t[i - |sign|]); }
    }
  }

  /** Behind `:`, the number a sign and digits stand for, if it fits 64 bits. */
  lemma IntegerReads(sign: string, t: string, tail: bytes)
    requires IsNumber(sign, t)
    ensures IsAscii(":" + sign + t + "\r\n")
    ensures var v := if sign == "-" then 0 - Horner(t) else Horner(t);
      ParseReply(Ascii(":" + sign + t + "\r\n") + tail) ==
      Parsed(if -9223372036854775808 <= v <= 9223372036854775807 then Ok(Int(v)) else Err(Redis(InvalidInteger)), tail)
  {
    hide ParseReply, Horner, ParseI64, Reads;
    NumberLine(":", sign, t, tail);
    ReadsSome(Ascii(sign + t), sign, t, if sign == "-" then 0 - Horner(t) else Horner(t));
  }

  lemma NotNilTail(sign: string, t: string)
    requires IsNumber(sign, t) && sign != "-" && IsAscii(sign + t)
    ensures Ascii(sign + t) != NIL_TAIL
  {
    DigitCode(t[0]);
    assert (sign + t)[0] == if sign == "" then t[0] else sign[0];
  }

  lemma BulkOf(header: bytes, payload: bytes, x: byte, y: byte, tail: bytes)
    requires header != NIL_TAIL && ParseUsize(header) == Some(|payload|) && |payload| <= 18446744073709551613
    ensures ParseBulk(header, payload + [x, y] + tail) ==
      Parsed(if Valid(payload) then Ok(BulkString(payload)) else Err(Redis(InvalidUtf8)), tail)
  {
    hide ParseUsize, Valid;
    var s := payload + [x, y] + tail;
    assert s[..|payload| + 2] == payload + [x, y];
    assert s[..|payload| + 2][..|payload|] == payload;
    assert s[|payload| + 2..] == tail;
  }

  /** Behind `$`, that many bytes and two more, whatever those two are. */
  lemma BulkReads(sign: string, t: string, payload: bytes, x: byte, y: byte, tail: bytes)
    requires IsNumber(sign, t) && sign != "-" && Horner(t) == |payload| <= 18446744073709551613
    ensures IsAscii("$" + sign + t + "\r\n")
    ensures ParseReply(Ascii("$" + sign + t + "\r\n") + (payload + [x, y] + tail)) ==
      Parsed(if Valid(payload) then Ok(BulkString(payload)) else Err(Redis(InvalidUtf8)), tail)
  {
    hide ParseReply, ParseBulk, ParseSlice, Horner, ParseUsize, ParseI64, Reads, Valid, Lossy;
    NumberLine("$", sign, t, payload + [x, y] + tail);
    ReadsSome(Ascii(sign + t), sign, t, Horner(t));
    NotNilTail(sign, t);
    BulkOf(Ascii(sign + t), payload, x, y, tail);
  }

  /** Behind `*`, that many replies. */
  lemma ArrayReads(sign: string, t: string, s: bytes)
    requires IsNumber(sign, t) && sign != "-" && Horner(t) <= 9223372036854775807
    ensures IsAscii("*" + sign + t + "\r\n")
    ensures ParseReply(Ascii("*" + sign + t + "\r\n") + s) ==
      match ParseSlice(s, Horner(t)) {
        case Parsed(Ok(items), rest) => Parsed(Ok(Value.Array(items)), rest)
        case Parsed(Err(e), rest) => Parsed(Err(e), rest)
      }
  {
    hide ParseReply, ParseSlice, Horner, ParseI64, Reads;
    NumberLine("*", sign, t, s);
    ReadsSome(Ascii(sign + t), sign, t, Horner(t));
    NotNilTail(sign, t);
  }

  /** What is no number behind `:`, `$` or `*` has an error of its own. */
  lemma BadIntegerReads(body: bytes, tail: bytes)
    requires 10 !in body && |body| <= 65533 && ParseI64(body).None?
    ensures ParseReply(Ascii(":") + body + Ascii("\r\n") + tail) == Parsed(Err(Redis(InvalidInteger)), tail)
  {
    hide ParseReply, ParseSlice, ParseI64, ParseUsize, Lossy, Valid;
    Codes();
    ReadHeader(58, body, tail);
  }

  lemma BadLengthReads(body: bytes, tail: bytes)
    requires 10 !in body && |body| <= 65533 && ParseUsize(body).None? && body != [45, 49]
    ensures ParseReply(Ascii("$") + body + Ascii("\r\n") + tail) == Parsed(Err(Redis(InvalidLength)), tail)
  {
    hide ParseReply, ParseSlice, ParseI64, ParseUsize, Lossy, Valid;
    Codes();
    ReadHeader(36, body, tail);
  }

  lemma BadCountReads(body: bytes, tail: bytes)
    requires 10 !in body && |body| <= 65533 && ParseI64(body).None? && body != [45, 49]
    ensures ParseReply(Ascii("*") + body + Ascii("\r\n") + tail) == Parsed(Err(Redis(InvalidArrayLength)), tail)
  {
    hide ParseReply, ParseSlice, ParseI64, ParseUsize, Lossy, Valid;
    Codes();
    ReadHeader(42, body, tail);
  }

  /** A negative count other than -1 cannot be allocated. */
  lemma NegativeCountReads(body: bytes, tail: bytes)
    requires 10 !in body && |body| <= 65533 && body != [45, 49]
    requires ParseI64(body).Some? && ParseI64(body).value < 0
    ensures ParseReply(Ascii("*") + body + Ascii("\r\n") + tail) == Parsed(Err(Panicked), tail)
  {
    hide ParseReply, ParseSlice, ParseI64, Lossy, Valid;
    Codes();
    ReadHeader(42, body, tail);
    SliceDone(tail, ParseI64(body).value);
  }

  lemma UnknownReads(first: byte, body: bytes, tail: bytes)
    requires 10 !in [first] + body && |body| <= 65533
    requires forall c <- "+-:$*" :: first != c as int
    ensures ParseReply([first] + body + Ascii("\r\n") + tail) == Parsed(Err(Redis(CantParse([first] + body))), tail)
  {
    hide ParseReply, ParseSlice, ParseI64, Lossy, Valid;
    Codes();
    var t := "+-:$*";
    assert t[0] in t && t[1] in t && t[2] in t && t[3] in t && t[4] in t;
    ReadHeader(first, body, tail);
  }

  /** No line at all, and an empty one. */
  lemma NothingReads(tail: bytes)
    ensures ParseReply([]) == Parsed(Err(Redis(UnexpectedEof)), [])
    ensures ParseReply(Ascii("\r\n") + tail) == Parsed(Err(Redis(EmptyReply)), tail)
  {
    Codes();
    ReadLineCrlf([], tail);
    assert [] + CRLF + tail == Ascii("\r\n") + tail;
  }

  /** The elements, one after the other: nulls become nil values, in place. */
  lemma ElementsRead(rs: seq<Reply>, vs: seq<Value>, tail: bytes)
    requires |rs| == |vs| && AllSendable(rs)
    requires forall i :: 0 <= i < |rs| ==> rs[i].NullBulk? || rs[i].NullArray? || Outcome(rs[i]) == Ok(vs[i])
    requires forall i :: 0 <= i < |rs| && (rs[i].NullBulk? || rs[i].NullArray?) ==> vs[i] == Value.Nil
    ensures ParseSlice(EncodeAll(rs) + tail, |rs|) == Parsed(Ok(vs), tail)
  {
    hide ParseSlice, EncodeAll, Sendable;
    ElementsAre(rs, vs);
    RoundTripAll(rs, tail);
    NoLeftoverAll(rs);
    assert [] + tail == tail;
  }

  lemma {:induction false} ElementsAre(rs: seq<Reply>, vs: seq<Value>)
    requires |rs| == |vs|
    requires forall i :: 0 <= i < |rs| ==> rs[i].NullBulk? || rs[i].NullArray? || Outcome(rs[i]) == Ok(vs[i])
    requires forall i :: 0 <= i < |rs| && (rs[i].NullBulk? || rs[i].NullArray?) ==> vs[i] == Value.Nil
    ensures Elements(rs) == Ok(vs)
  {
    if rs != [] {
      ElementsAre(rs[1..], vs[1..]);
      assert Outcome(rs[0]) == if rs[0].NullBulk? || rs[0].NullArray? then Err(Error.Nil) else Ok(vs[0]);
      assert [vs[0]] + vs[1..] == vs;
    }
  }
}
