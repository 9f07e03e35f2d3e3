/** Commands cut short are never mistaken for whole ones. */
module Truncation {
  import opened Bytes
  import opened Utf8
  import opened Decimal
  import opened Values
  import opened Parser
  import opened Resp
  import opened Commands
  import opened Frames
  import X = Exchange

  ghost predicate StrictPrefix(p: bytes, s: bytes) {
    |p| < |s| && p == s[..|p|]
  }

  /** A strict prefix of a concatenation cuts one of its two parts. */
  lemma PrefixSplit(p: bytes, head: bytes, body: bytes)
    requires StrictPrefix(p, head + body)
    ensures |p| < |head| ==> StrictPrefix(p, head)
    ensures |p| >= |head| ==> p == head + p[|head|..] && StrictPrefix(p[|head|..], body)
  {
    if |p| >= |head| {
      assert (head + body)[..|p|] == head + body[..|p| - |head|];
    } else {
      assert (head + body)[..|p|] == head[..|p|];
    }
  }

  lemma CutLine(first: byte, d: bytes, p: bytes)
    requires p != [] && StrictPrefix(p, Line(first, d))
    requires first != LF && LF !in d
    ensures p[0] == first && LF !in p && p[1..] <= d + [CR]
  {
    assert Line(first, d) == [first] + (d + [CR]) + [LF];
    assert p == ([first] + (d + [CR]))[..|p|];
  }

  /** A header cut before its LF is read as a line holding part of the number. */
  lemma {:induction false} CutHeader(first: byte, n: nat, p: bytes)
    requires first != LF && n <= USIZE_MAX
    requires p != [] && StrictPrefix(p, Line(first, Digits(n)))
    ensures p[0] == first && ParseReply(p) == Dispatch(first, p[1..], [])
    ensures p[1..] <= Digits(n) + [CR]
  {
    hide Dispatch, Digits, Strip, LineLen, ReadLine;
    Digits64(n);
    NoLineFeed(n);
    CutLine(first, Digits(n), p);
    UnendedLine(p);
  }

  /** Nothing that stands for a nil or an empty array can be cut out of a positive count. */
  lemma CutNumber(n: nat, body: bytes)
    requires body <= Digits(n) + [CR]
    ensures body != NIL_TAIL
    ensures n > 0 && ParseI64(body).Some? ==> ParseI64(body).value > 0
  {
    var d := Digits(n);
    if body != [] {
      assert body[0] == d[0];
      if |body| == |d| + 1 {
        assert body[|body| - 1] == CR;
      } else {
        assert body == d[..|body|];
        if n > 0 { LeadingDigit(body); }
      }
    }
  }

  lemma {:induction false} LeadingDigit(s: bytes)
    requires s != [] && AllDigits(s) && s[0] != ZERO
    ensures DigitsValue(s) > 0
  {
    if |s| > 1 {
      LeadingDigit(s[..|s| - 1]);
    }
  }

  lemma CutBulk(payload: bytes, p: bytes)
    requires |payload| + 2 <= USIZE_MAX && StrictPrefix(p, Encode(Bulk(payload)))
    ensures Fatal(ParseReply(p).result)
  {
    hide ParseReply, Line, Digits, ParseBulk;
    var n := |payload|;
    var head := Line(DOLLAR, Digits(n));
    Assoc(head, payload, CRLF);
    PrefixSplit(p, head, payload + CRLF);
    if p == [] {
      EmptyIsFatal();
    } else if |p| < |head| {
      CutHeader(DOLLAR, n, p);
      CutNumber(n, p[1..]);
      NoPayload(p[1..]);
    } else {
      CutPayload(n, p[|head|..]);
    }
  }

  lemma NoPayload(body: bytes)
    requires body != NIL_TAIL
    ensures Fatal(Dispatch(DOLLAR, body, []).result)
  {
  }

  lemma CutPayload(n: nat, q: bytes)
    requires n + 2 <= USIZE_MAX && |q| < n + 2
    ensures Fatal(ParseReply(Line(DOLLAR, Digits(n)) + q).result)
  {
    hide ParseReply, Line, Digits, ParseUsize, Dispatch;
    Digits64(n);
    NoLineFeed(n);
    NilTailIsNoLength(n);
    UsizeRoundTrip(n);
    ReadHeader(DOLLAR, Digits(n), q);
    ShortPayload(Digits(n), n, q);
  }

  lemma ShortPayload(body: bytes, n: nat, q: bytes)
    requires body != NIL_TAIL && ParseUsize(body) == Some(n) && |q| < n + 2
    ensures Fatal(Dispatch(DOLLAR, body, q).result)
  {
    hide ParseUsize;
  }

  lemma EmptyIsFatal()
    ensures ParseReply([]) == Fail(UnexpectedEof, [])
  {
  }

  lemma CutError(message: bytes, p: bytes)
    requires Sendable(SimpleError(message)) && StrictPrefix(p, Encode(SimpleError(message)))
    ensures Fatal(ParseReply(p).result)
  {
    hide Dispatch, Strip, LineLen, ReadLine, Line, Lossy, StrictPrefix;
    if p == [] {
      EmptyIsFatal();
    } else {
      LineCut(MINUS, message, p);
      CutLine(MINUS, message, p);
      UnendedLine(p);
      ErrorIsFatal(p[1..]);
    }
  }

  lemma LineCut(first: byte, body: bytes, p: bytes)
    requires StrictPrefix(p, Line(first, body))
    ensures |p| < |body| + 3
  {
  }

  lemma ErrorIsFatal(body: bytes)
    ensures Fatal(Dispatch(MINUS, body, []).result)
  {
  }

  // ---------- Replies ----------

  /** Ends in something whose end cannot be taken for granted, or fails anyway. */
  predicate Guarded(r: Reply) {
    Fatal(Outcome(r)) || r.Bulk? || (r.Array? && r.elements != [] && Guarded(r.elements[|r.elements| - 1]))
  }

  predicate AllGuarded(rs: seq<Reply>) {
    rs != [] && (Elements(rs).Err? || Guarded(rs[|rs| - 1]))
  }

  lemma AllGuardedTail(rs: seq<Reply>)
    requires AllGuarded(rs) && !Fatal(Outcome(rs[0]))
    ensures |rs| > 1 ==> AllGuarded(rs[1..])
    ensures |rs| == 1 ==> Guarded(rs[0])
  {
    hide Outcome, Guarded;
    if |rs| == 1 { NothingFails(rs); }
  }

  lemma NothingFails(rs: seq<Reply>)
    requires |rs| == 1 && !Fatal(Outcome(rs[0]))
    ensures Elements(rs).Ok?
  {
    hide Outcome;
    assert Elements(rs[1..]) == Ok([]);
  }

  /** A reply cut short that does not fail was taken as a whole, up to the end of the stream. */
  lemma TakenToTheEnd(r: Reply, p: bytes)
    requires Sendable(r) && StrictPrefix(p, Encode(r)) && !Fatal(ParseReply(p).result)
    ensures ParseReply(p).rest == []
  {
    hide ParseReply, Encode, Sendable, Outcome, Leftover;
    var q := ParseReply(p);
    if q.rest != [] {
      var more := Encode(r)[|p|..];
      SelfDelimiting(p, q.rest + more);
      SuffixSplit(q.rest, p);
      Assoc(p[..|p| - |q.rest|], q.rest, more);
      assert p + more == Encode(r);
      RoundTrip(r, []);
      assert Encode(r) + [] == Encode(r);
      NoLeftover(r);
    }
  }

  lemma {:induction false} CutReply(r: Reply, p: bytes)
    requires Sendable(r) && Guarded(r) && StrictPrefix(p, Encode(r))
    ensures Fatal(ParseReply(p).result)
    decreases r, 0
  {
    hide ParseReply, ParseSlice, Dispatch, Line, Digits, EncodeAll, ParseI64, StrictPrefix, Valid, Lossy;
    match r
    case Bulk(payload) => CutBulk(payload, p);
    case SimpleError(message) => CutError(message, p);
    case Array(rs) =>
      var n, head := |rs|, Line(STAR, Digits(|rs|));
      PrefixSplit(p, head, EncodeAll(rs));
      if p == [] {
        EmptyIsFatal();
      } else if |p| < |head| {
        CutHeader(STAR, n, p);
        CutNumber(n, p[1..]);
        NothingLeft(p[1..]);
      } else {
        CutReplies(rs, p[|head|..]);
        CountHeader(n, p[|head|..]);
      }
    case _ =>
  }

  lemma {:induction false} CutReplies(rs: seq<Reply>, p: bytes)
    requires AllSendable(rs) && AllGuarded(rs) && StrictPrefix(p, EncodeAll(rs))
    ensures ParseSlice(p, |rs|).result.Err?
    decreases rs, 0
  {
    hide ParseReply, ParseSlice, Encode, Outcome, Guarded, AllGuarded, Leftover, Sendable, StrictPrefix;
    NothingToCut(p, rs);
    var first := Encode(rs[0]);
    var o := ParseReply(p);
    PrefixSplit(p, first, EncodeAll(rs[1..]));
    if |p| < |first| {
      SliceStep(p, |rs|, o.result, o.rest);
      if !Fatal(o.result) {
        TakenToTheEnd(rs[0], p);
        if Guarded(rs[0]) { CutReply(rs[0], p); } else { UnguardedGoesOn(rs); }
        NoMore(|rs| - 1);
      }
    } else {
      var q := p[|first|..];
      RoundTrip(rs[0], q);
      SliceStep(p, |rs|, Outcome(rs[0]), Leftover(rs[0]) + q);
      if !Fatal(Outcome(rs[0])) {
        NoLeftover(rs[0]);
        assert [] + q == q;
        AllGuardedTail(rs);
        NothingToCut(q, rs[1..]);
        CutReplies(rs[1..], q);
      }
    }
  }

  lemma UnguardedGoesOn(rs: seq<Reply>)
    requires AllGuarded(rs) && !Guarded(rs[0])
    ensures |rs| > 1
  {
    hide Elements, Outcome;
    if |rs| == 1 {
      UnguardedIsFine(rs[0]);
      NothingFails(rs);
    }
  }

  lemma UnguardedIsFine(r: Reply)
    requires !Guarded(r)
    ensures !Fatal(Outcome(r))
  {
  }

  lemma NothingToCut(q: bytes, rs: seq<Reply>)
    requires StrictPrefix(q, EncodeAll(rs))
    ensures rs != []
  {
  }

  lemma NoMore(n: nat)
    requires n > 0
    ensures ParseSlice([], n).result.Err?
  {
    EmptyIsFatal();
    SliceStep([], n, Err(Redis(UnexpectedEof)), []);
  }

  // ---------- Cuts that go unnoticed ----------

  lemma Prepend(head: bytes, p: bytes, s: bytes)
    requires StrictPrefix(p, s)
    ensures StrictPrefix(head + p, head + s)
  {
    assert (head + s)[..|head + p|] == head + s[..|p|];
  }

  /** A line without its line end reads as the same line. */
  lemma {:induction false} WithoutLineEnd(first: byte, body: bytes)
    requires first != LF && LF !in body && |body| + 3 <= MAX_LINE_LEN
    ensures StrictPrefix([first] + body, Line(first, body))
    ensures ParseReply([first] + body) == Dispatch(first, body, [])
  {
    hide Dispatch, Strip, LineLen, ReadLine;
    var p := [first] + body;
    UnendedLine(p);
    assert p[1..] == body;
    assert Line(first, body)[..|p|] == p;
  }

  lemma {:induction false} BadCut(r: Reply) returns (p: bytes)
    requires Sendable(r) && !Guarded(r)
    ensures StrictPrefix(p, Encode(r)) && !Fatal(ParseReply(p).result)
    decreases r, 0
  {
    hide ParseReply, ParseSlice, Line, Digits, EncodeAll, ParseI64, StrictPrefix, Valid, Lossy;
    match r
    case SimpleString(text) =>
      p := [PLUS] + text;
      WithoutLineEnd(PLUS, text);
    case Integer(n) =>
      p := [COLON] + Signed(n);
      Digits64(if n < 0 then -n else n);
      NoLineFeed(n);
      I64RoundTrip(n);
      WithoutLineEnd(COLON, Signed(n));
    case NullBulk =>
      p := [DOLLAR] + NIL_TAIL;
      WithoutLineEnd(DOLLAR, NIL_TAIL);
    case NullArray =>
      p := [STAR] + NIL_TAIL;
      WithoutLineEnd(STAR, NIL_TAIL);
    case Array(rs) =>
      if rs == [] {
        p := [STAR, ZERO];
        EmptyArrayCut();
      } else {
        var q := BadCutAll(rs);
        var head := Line(STAR, Digits(|rs|));
        p := head + q;
        Prepend(head, q, EncodeAll(rs));
        CountHeader(|rs|, q);
      }
    case _ =>
  }

  lemma {:induction false} BadCutAll(rs: seq<Reply>) returns (p: bytes)
    requires AllSendable(rs) && rs != [] && Elements(rs).Ok? && !Guarded(rs[|rs| - 1])
    ensures StrictPrefix(p, EncodeAll(rs)) && ParseSlice(p, |rs|).result.Ok?
    decreases rs, 0
  {
    hide ParseReply, ParseSlice, Encode, Outcome, Guarded, Leftover, Sendable, StrictPrefix;
    if |rs| == 1 {
      p := BadCut(rs[0]);
      assert EncodeAll(rs) == Encode(rs[0]) + [];
      assert EncodeAll(rs) == Encode(rs[0]);
      SliceStep(p, 1, ParseReply(p).result, ParseReply(p).rest);
      SliceDone(ParseReply(p).rest, 0);
    } else {
      var q := BadCutAll(rs[1..]);
      p := Encode(rs[0]) + q;
      Prepend(Encode(rs[0]), q, EncodeAll(rs[1..]));
      RoundTrip(rs[0], q);
      NoLeftover(rs[0]);
      assert [] + q == q;
      SliceStep(p, |rs|, Outcome(rs[0]), q);
    }
  }

  /** Every strict prefix of a reply's text is an error other than nil exactly when the reply is
      guarded. Otherwise some cut goes unnoticed: an integer, a status or a nil without its line
      end is read as if it were whole. */
  lemma TruncationDetectedIff(r: Reply)
    requires Sendable(r)
    ensures Guarded(r) <==> forall p :: StrictPrefix(p, Encode(r)) ==> Fatal(ParseReply(p).result)
  {
    hide Sendable, StrictPrefix, ParseReply, Guarded, Encode;
    if Guarded(r) {
      forall p | StrictPrefix(p, Encode(r))
        ensures Fatal(ParseReply(p).result)
      {
        CutReply(r, p);
      }
    } else {
      var p := BadCut(r);
    }
  }

  lemma NothingLeft(body: bytes)
    requires body != NIL_TAIL && (ParseI64(body).Some? ==> ParseI64(body).value > 0)
    ensures Fatal(Dispatch(STAR, body, []).result)
  {
    hide ParseReply, ParseSlice, ParseBulk, ParseI64, Lossy;
    if ParseI64(body).Some? {
      EmptyIsFatal();
      SliceStep([], ParseI64(body).value, Err(Redis(UnexpectedEof)), []);
    }
  }

  /** A command cut short is always an error other than nil, exactly when it has an argument:
      the empty command without its line end still reads as `*0`. */
  lemma CommandsDetected(args: Command)
    requires Storable(args)
    ensures args != [] <==>
      forall p :: StrictPrefix(p, Wire(args)) ==> Fatal(ParseReply(p).result)
  {
    hide Storable, StrictPrefix, ParseReply, Encode, Outcome;
    X.CommandMeans(args);
    TruncationDetectedIff(AsReply(args));
    CommandGuarded(args);
  }

  lemma CommandGuarded(args: Command)
    requires Outcome(AsReply(args)).Ok?
    ensures Guarded(AsReply(args)) <==> args != []
  {
    hide Outcome;
    if args != [] { LastBulk(args); }
  }

  lemma {:induction false} LastBulk(args: Command)
    requires args != []
    ensures Bulks(args)[|args| - 1].Bulk?
  {
    if |args| > 1 {
      LastBulk(args[1..]);
    }
  }

  lemma EmptyArrayCut()
    ensures StrictPrefix([STAR, ZERO], Encode(AsReply([])))
    ensures ParseReply([STAR, ZERO]) == Parsed(Ok(Value.Array([])), [])
  {
    hide ParseReply, ParseSlice, ParseI64;
    assert Digits(0) == [ZERO] && EncodeAll([]) == [];
    WithoutLineEnd(STAR, [ZERO]);
    assert [STAR] + [ZERO] == [STAR, ZERO];
    I64RoundTrip(0);
    SliceDone([], 0);
  }
}
