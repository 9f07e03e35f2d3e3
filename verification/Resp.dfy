/** Replies as the RESP2 specification writes them, and what the client makes of each. */
module Resp {
  import opened Bytes
  import opened Utf8
  import opened Decimal
  import opened Values
  import opened Parser

  datatype Reply =
    | SimpleString(text: bytes)
    | SimpleError(message: bytes)
    | Integer(n: int)
    | Bulk(payload: bytes)
    | NullBulk
    | Array(elements: seq<Reply>)
    | NullArray

  function Line(first: byte, body: bytes): bytes {
    [first] + body + CRLF
  }

  function Encode(r: Reply): (s: bytes)
    ensures s != []
    decreases r, 0
  {
    match r
    case SimpleString(text) => Line(PLUS, text)
    case SimpleError(message) => Line(MINUS, message)
    case Integer(n) => Line(COLON, Signed(n))
    case Bulk(payload) => Line(DOLLAR, Digits(|payload|)) + payload + CRLF
    case NullBulk => Line(DOLLAR, NIL_TAIL)
    case Array(elements) => Line(STAR, Digits(|elements|)) + EncodeAll(elements)
    case NullArray => Line(STAR, NIL_TAIL)
  }

  function EncodeAll(rs: seq<Reply>): bytes
    decreases rs, 0
  {
    if rs == [] then [] else Encode(rs[0]) + EncodeAll(rs[1..])
  }

  /** What a conforming server can send to this client: lines hold no LF and fit the line
      limit, numbers fit 64 bits. Payloads are arbitrary. */
  predicate Sendable(r: Reply)
    decreases r, 0
  {
    match r
    case SimpleString(text) => LF !in text && |text| + 3 <= MAX_LINE_LEN
    case SimpleError(message) => LF !in message && |message| + 3 <= MAX_LINE_LEN
    case Integer(n) => I64_MIN <= n <= I64_MAX
    case Bulk(payload) => |payload| + 2 <= USIZE_MAX
    case NullBulk => true
    case Array(elements) => |elements| <= I64_MAX && AllSendable(elements)
    case NullArray => true
  }

  predicate AllSendable(rs: seq<Reply>)
    decreases rs, 0
  {
    rs == [] || (Sendable(rs[0]) && AllSendable(rs[1..]))
  }

  /** What parsing a reply returns. */
  function Outcome(r: Reply): (o: Result<Value>)
    ensures o.Ok? ==> !o.value.Nil?
    decreases r, 0
  {
    match r
    case SimpleString(text) => Ok(Status(Lossy(text)))
    case SimpleError(message) => Err(Redis(Server(Lossy(message))))
    case Integer(n) => if I64_MIN <= n <= I64_MAX then Ok(Int(n)) else Err(Redis(InvalidInteger))
    case Bulk(payload) => if Valid(payload) then Ok(BulkString(payload)) else Err(Redis(InvalidUtf8))
    case Array(elements) => AsArray(Parsed(Elements(elements), [])).result
    case NullBulk => Err(Error.Nil)
    case NullArray => Err(Error.Nil)
  }

  predicate Fatal(o: Result<Value>) {
    o.Err? && !o.error.Nil?
  }

  function AsElement(o: Result<Value>): Value
    requires !Fatal(o)
  {
    if o.Ok? then o.value else Value.Nil
  }

  /** The first fatal error in preorder, or all the elements with nil as a value. */
  function Elements(rs: seq<Reply>): (o: Result<seq<Value>>)
    ensures o.Ok? ==> |o.value| == |rs|
    ensures o.Err? ==> !o.error.Nil?
    decreases rs, 0
  {
    if rs == [] then Ok([])
    else
      var first := Outcome(rs[0]);
      if Fatal(first) then Err(first.error)
      else Onto([AsElement(first)], Elements(rs[1..]))
  }

  /** The part of a reply that stays unread: everything behind the first nested error. */
  function Leftover(r: Reply): bytes
    decreases r, 0
  {
    if r.Array? then LeftoverAll(r.elements) else []
  }

  function LeftoverAll(rs: seq<Reply>): bytes
    decreases rs, 0
  {
    if rs == [] then []
    else if Fatal(Outcome(rs[0])) then Leftover(rs[0]) + EncodeAll(rs[1..])
    else LeftoverAll(rs[1..])
  }

  // ---------- Lines ----------

  lemma {:induction false} LineLenAppend(a: bytes, b: bytes)
    requires LF !in a
    ensures LineLen(a + b) == |a| + LineLen(b)
  {
    if a == [] {
      assert a + b == b;
    } else {
      assert (a + b)[1..] == a[1..] + b;
      LineLenAppend(a[1..], b);
    }
  }

  /** A line without LF, ended by CRLF, comes back whole whatever follows. */
  lemma ReadLineCrlf(body: bytes, tail: bytes)
    requires LF !in body && |body| + 2 <= MAX_LINE_LEN
    ensures ReadLine(body + CRLF + tail) == Parsed(Ok(body), tail)
  {
    var s := body + CRLF + tail;
    assert s == (body + [CR]) + ([LF] + tail);
    LineLenAppend(body + [CR], [LF] + tail);
    var n := |body| + 2;
    assert LineLen(s) == n;
    assert s[..n] == body + CRLF;
    assert s[..n][n - 2..] == CRLF;
    assert s[n..] == tail;
  }

  /** A line cut off by the end of the stream is taken as it stands. */
  lemma UnendedLine(line: bytes)
    requires line != [] && LF !in line && |line| <= MAX_LINE_LEN
    ensures ReadLine(line) == Parsed(Ok(line), [])
  {
    LineLenAppend(line, []);
    assert line + [] == line;
    assert line[..|line|] == line;
    assert line[|line| - 1] in line;
    assert |line| >= 2 ==> line[|line| - 2..][1] == line[|line| - 1];
  }

  lemma ReadHeader(first: byte, body: bytes, tail: bytes)
    requires first != LF && LF !in body && |body| + 3 <= MAX_LINE_LEN
    ensures ParseReply(Line(first, body) + tail) == Dispatch(first, body, tail)
  {
    ReadLineCrlf([first] + body, tail);
    assert ([first] + body)[1..] == body;
  }

  // ---------- Round trip ----------

  lemma NilTailIsNoLength(n: nat)
    ensures Digits(n) != NIL_TAIL
  {
    assert NIL_TAIL[0] == MINUS;
  }

  lemma ParseBulkOf(payload: bytes, tail: bytes)
    requires |payload| + 2 <= USIZE_MAX
    ensures ParseReply(Encode(Bulk(payload)) + tail) == Parsed(Outcome(Bulk(payload)), tail)
  {
    hide ParseReply, Digits, ParseUsize, Valid;
    var n := |payload|;
    var body := payload + CRLF + tail;
    Digits64(n);
    NoLineFeed(n);
    NilTailIsNoLength(n);
    UsizeRoundTrip(n);
    assert Encode(Bulk(payload)) + tail == Line(DOLLAR, Digits(n)) + body;
    ReadHeader(DOLLAR, Digits(n), body);
    assert body[..n + 2] == payload + CRLF;
    assert body[..n + 2][..n] == payload;
    assert body[n + 2..] == tail;
  }

  lemma ParseIntegerOf(n: int, tail: bytes)
    requires I64_MIN <= n <= I64_MAX
    ensures ParseReply(Encode(Integer(n)) + tail) == Parsed(Ok(Int(n)), tail)
  {
    hide ParseReply, Digits, ParseI64;
    Digits64(if n < 0 then -n else n);
    NoLineFeed(n);
    I64RoundTrip(n);
    ReadHeader(COLON, Signed(n), tail);
  }

  /** A count starts that many elements. */
  lemma CountHeader(n: nat, s: bytes)
    requires n <= I64_MAX
    ensures ParseReply(Line(STAR, Digits(n)) + s) == AsArray(ParseSlice(s, n))
  {
    hide ParseReply, ParseSlice, Line, Digits, ParseI64, AsArray;
    Digits64(n);
    NoLineFeed(n);
    NilTailIsNoLength(n);
    I64RoundTrip(n);
    ReadHeader(STAR, Digits(n), s);
  }

  lemma ArrayHeader(rs: seq<Reply>, tail: bytes)
    requires |rs| <= I64_MAX
    ensures ParseReply(Encode(Reply.Array(rs)) + tail) == AsArray(ParseSlice(EncodeAll(rs) + tail, |rs|))
  {
    hide ParseReply, ParseSlice, EncodeAll, Line, Digits, AsArray;
    Assoc(Line(STAR, Digits(|rs|)), EncodeAll(rs), tail);
    CountHeader(|rs|, EncodeAll(rs) + tail);
  }

  lemma NoLeftover(r: Reply)
    ensures !Fatal(Outcome(r)) ==> Leftover(r) == []
    decreases r, 0
  {
    if r.Array? {
      NoLeftoverAll(r.elements);
    }
  }

  lemma {:induction false} NoLeftoverAll(rs: seq<Reply>)
    ensures Elements(rs).Ok? ==> LeftoverAll(rs) == []
    decreases rs, 0
  {
    if rs != [] {
      NoLeftoverAll(rs[1..]);
    }
  }

  /** The replies that stay unread: those behind the first nested error, at every depth. */
  function Stranded(r: Reply): seq<Reply>
    decreases r, 0
  {
    if r.Array? then StrandedAll(r.elements) else []
  }

  function StrandedAll(rs: seq<Reply>): seq<Reply>
    decreases rs, 0
  {
    if rs == [] then []
    else if Fatal(Outcome(rs[0])) then Stranded(rs[0]) + rs[1..]
    else StrandedAll(rs[1..])
  }

  lemma {:induction false} EncodeAllAppend(a: seq<Reply>, b: seq<Reply>)
    ensures EncodeAll(a + b) == EncodeAll(a) + EncodeAll(b)
    ensures AllSendable(a) && AllSendable(b) ==> AllSendable(a + b)
  {
    hide Encode, Sendable;
    if a == [] {
      assert a + b == b;
    } else {
      assert (a + b)[1..] == a[1..] + b;
      EncodeAllAppend(a[1..], b);
      Assoc(Encode(a[0]), EncodeAll(a[1..]), EncodeAll(b));
    }
  }

  /** What stays unread is whole replies. */
  lemma {:induction false} StrandedText(r: Reply)
    ensures EncodeAll(Stranded(r)) == Leftover(r)
    ensures Sendable(r) ==> AllSendable(Stranded(r))
    decreases r, 0
  {
    if r.Array? { StrandedAllText(r.elements); }
  }

  lemma {:induction false} StrandedAllText(rs: seq<Reply>)
    ensures EncodeAll(StrandedAll(rs)) == LeftoverAll(rs)
    ensures AllSendable(rs) ==> AllSendable(StrandedAll(rs))
    decreases rs, 0
  {
    hide Encode, Sendable, Outcome, Stranded, Leftover;
    if rs != [] {
      if Fatal(Outcome(rs[0])) {
        StrandedText(rs[0]);
        EncodeAllAppend(Stranded(rs[0]), rs[1..]);
      } else {
        StrandedAllText(rs[1..]);
      }
    }
  }

  lemma FlatRoundTrip(r: Reply, tail: bytes)
    requires Sendable(r) && !r.Array?
    ensures ParseReply(Encode(r) + tail) == Parsed(Outcome(r), tail)
  {
    match r
    case SimpleString(text) => ReadHeader(PLUS, text, tail);
    case SimpleError(message) => ReadHeader(MINUS, message, tail);
    case Integer(n) => ParseIntegerOf(n, tail);
    case Bulk(payload) => ParseBulkOf(payload, tail);
    case NullBulk => ReadHeader(DOLLAR, NIL_TAIL, tail);
    case NullArray => ReadHeader(STAR, NIL_TAIL, tail);
  }

  lemma LeftoverSplit(rs: seq<Reply>, tail: bytes)
    requires rs != []
    ensures EncodeAll(rs) + tail == Encode(rs[0]) + (EncodeAll(rs[1..]) + tail)
    ensures Fatal(Outcome(rs[0])) ==> LeftoverAll(rs) + tail == Leftover(rs[0]) + (EncodeAll(rs[1..]) + tail)
  {
    hide Encode, Leftover, Outcome;
    Assoc(Encode(rs[0]), EncodeAll(rs[1..]), tail);
    Assoc(Leftover(rs[0]), EncodeAll(rs[1..]), tail);
  }

  /** Parsing undoes the RESP2 encoding: the outcome is the reply's, and what stays unread is
      the reply's leftover (nothing, unless an error is nested in an array) and the tail. */
  lemma {:induction false} RoundTrip(r: Reply, tail: bytes)
    requires Sendable(r)
    ensures ParseReply(Encode(r) + tail) == Parsed(Outcome(r), Leftover(r) + tail)
    decreases r, 0
  {
    if r.Array? {
      ArrayHeader(r.elements, tail);
      RoundTripAll(r.elements, tail);
    } else {
      FlatRoundTrip(r, tail);
      assert [] + tail == tail;
    }
  }

  /** One turn of the element loop. */
  lemma SliceStep(s: bytes, n: nat, o: Result<Value>, rest: bytes)
    requires n > 0 && ParseReply(s) == Parsed(o, rest)
    ensures ParseSlice(s, n) ==
      if Fatal(o) then Parsed(Err(o.error), rest) else Collected([AsElement(o)], ParseSlice(rest, n - 1))
  {
  }

  lemma SliceDone(s: bytes, n: int)
    requires n <= 0
    ensures ParseSlice(s, n) == Parsed(if n < 0 then Err(Panicked) else Ok([]), s)
  {
  }

  lemma {:induction false} RoundTripAll(rs: seq<Reply>, tail: bytes)
    requires AllSendable(rs)
    ensures ParseSlice(EncodeAll(rs) + tail, |rs|) == Parsed(Elements(rs), LeftoverAll(rs) + tail)
    decreases rs, 0
  {
    if rs == [] {
      assert EncodeAll(rs) + tail == tail;
    } else {
      var r, rest := rs[0], rs[1..];
      var more := EncodeAll(rest) + tail;
      var s := EncodeAll(rs) + tail;
      LeftoverSplit(rs, tail);
      RoundTrip(r, more);
      SliceStep(s, |rs|, Outcome(r), Leftover(r) + more);
      if !Fatal(Outcome(r)) {
        NoLeftover(r);
        assert Leftover(r) + more == more;
        RoundTripAll(rest, tail);
      }
    }
  }
}
