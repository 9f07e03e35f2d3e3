/** Every parsed value has a canonical text that parses back to it. */
module Canonical {
  import opened Bytes
  import opened Utf8
  import opened Decimal
  import opened Values
  import opened Parser
  import opened Resp

  function ToReply(v: Value): Reply
    decreases v, 0
  {
    match v
    case Nil => NullBulk
    case Status(text) => SimpleString(text)
    case Int(i) => Integer(i)
    case BulkString(payload) => Bulk(payload)
    case Array(items) => Reply.Array(ToReplies(items))
  }

  function ToReplies(vs: seq<Value>): (rs: seq<Reply>)
    ensures |rs| == |vs|
    decreases vs, 0
  {
    if vs == [] then [] else [ToReply(vs[0])] + ToReplies(vs[1..])
  }

  /** Lengths the parser can produce. */
  predicate Bounded(v: Value)
    decreases v, 0
  {
    match v
    case Status(text) => LF !in text
    case BulkString(payload) => |payload| + 2 <= USIZE_MAX
    case Array(items) => |items| <= I64_MAX && AllBounded(items)
    case _ => true
  }

  predicate AllBounded(vs: seq<Value>)
    decreases vs, 0
  {
    vs == [] || (Bounded(vs[0]) && AllBounded(vs[1..]))
  }

  /** Every status, with its prefix and CRLF, fits the line limit. */
  predicate StatusesFit(v: Value)
    decreases v, 0
  {
    match v
    case Status(text) => |text| + 3 <= MAX_LINE_LEN
    case Array(items) => AllFit(items)
    case _ => true
  }

  predicate AllFit(vs: seq<Value>)
    decreases vs, 0
  {
    vs == [] || (StatusesFit(vs[0]) && AllFit(vs[1..]))
  }

  // ---------- What the parser produces ----------

  lemma {:induction false} LineHasOneLf(s: bytes)
    requires s != []
    ensures LF !in s[..LineLen(s) - 1]
    ensures s[LineLen(s) - 1] == LF || LF !in s[..LineLen(s)]
  {
    if s[0] != LF && |s| > 1 {
      LineHasOneLf(s[1..]);
      var n := LineLen(s);
      assert s[..n] == [s[0]] + s[1..][..n - 1];
      assert s[..n - 1] == [s[0]] + s[1..][..n - 2];
    }
  }

  lemma LineNoLf(s: bytes)
    requires ReadLine(s).result.Ok?
    ensures LF !in ReadLine(s).result.value
  {
    hide LineLen, Strip;
    LineHasOneLf(s);
    var line := s[..LineLen(s)];
    assert line[..|line| - 1] == s[..LineLen(s) - 1];
    StripNoLf(line);
  }

  lemma StripNoLf(line: bytes)
    requires line != [] && LF !in line[..|line| - 1]
    requires line[|line| - 1] == LF || LF !in line
    ensures LF !in Strip(line)
  {
    if line[|line| - 1] == LF {
      assert Strip(line) <= line[..|line| - 1];
    }
  }

  lemma {:induction false} ParsedIsBounded(s: bytes)
    ensures ParseReply(s).result.Ok? ==> Bounded(ParseReply(s).result.value)
    decreases |s|, 0, 1
  {
    hide Bounded;
    var line := ReadLine(s);
    if line.result.Ok? && line.result.value != [] {
      LineNoLf(s);
      DispatchIsBounded(line.result.value[0], line.result.value[1..], line.rest);
    }
  }

  lemma {:induction false} DispatchIsBounded(first: byte, body: bytes, s: bytes)
    requires LF !in body
    ensures Dispatch(first, body, s).result.Ok? ==> Bounded(Dispatch(first, body, s).result.value)
    decreases |s| + 1, 0, 0
  {
    hide ParseSlice;
    if first == PLUS {
      LossyAddsNoAscii(body, LF);
    } else if first == STAR && body != NIL_TAIL && ParseI64(body).Some? {
      SliceIsBounded(s, ParseI64(body).value);
    }
  }

  lemma {:induction false} SliceIsBounded(s: bytes, n: int)
    ensures ParseSlice(s, n).result.Ok? ==> AllBounded(ParseSlice(s, n).result.value)
    decreases |s|, if n < 0 then 0 else n, 0
  {
    hide ParseReply, ParseSlice, Bounded;
    if n <= 0 {
      SliceDone(s, n);
    } else {
      var p := ParseReply(s);
      ParsedIsBounded(s);
      SliceStep(s, n, p.result, p.rest);
      if !Fatal(p.result) {
        NilIsBounded();
        SliceIsBounded(p.rest, n - 1);
        var q := ParseSlice(p.rest, n - 1).result;
        if q.Ok? {
          assert ([AsElement(p.result)] + q.value)[1..] == q.value;
        }
      }
    }
  }

  lemma NilIsBounded()
    ensures Bounded(Value.Nil)
  {
  }

  // ---------- Size ----------

  /** A parsed value has at most as many nodes as bytes were consumed for it. */
  lemma {:induction false} NodesWithinBytes(s: bytes)
    ensures var p := ParseReply(s); p.result.Ok? ==> Nodes(p.result.value) <= |s| - |p.rest|
    decreases |s|, 0, 1
  {
    hide Nodes, Dispatch;
    var line := ReadLine(s);
    if line.result.Ok? && line.result.value != [] {
      NodesOfDispatch(line.result.value[0], line.result.value[1..], line.rest);
    }
  }

  lemma {:induction false} NodesOfDispatch(first: byte, body: bytes, s: bytes)
    ensures var p := Dispatch(first, body, s);
      |p.rest| <= |s| && (p.result.Ok? ==> Nodes(p.result.value) <= |s| - |p.rest| + 1)
    decreases |s| + 1, 0, 0
  {
    hide ParseSlice, ParseI64, Lossy;
    if first == STAR && body != NIL_TAIL && ParseI64(body).Some? {
      NodesOfSlice(s, ParseI64(body).value);
    }
  }

  lemma {:induction false} NodesOfSlice(s: bytes, n: int)
    ensures var p := ParseSlice(s, n); p.result.Ok? ==> NodesOf(p.result.value) <= |s| - |p.rest|
    decreases |s|, if n < 0 then 0 else n, 0
  {
    hide ParseReply, ParseSlice, Nodes;
    if n <= 0 {
      SliceDone(s, n);
    } else {
      var p := ParseReply(s);
      NodesWithinBytes(s);
      SliceStep(s, n, p.result, p.rest);
      if !Fatal(p.result) {
        NilHasOneNode();
        NodesOfSlice(p.rest, n - 1);
        var q := ParseSlice(p.rest, n - 1).result;
        if q.Ok? {
          assert ([AsElement(p.result)] + q.value)[1..] == q.value;
        }
      }
    }
  }

  lemma NilHasOneNode()
    ensures Nodes(Value.Nil) == 1
  {
  }

  /** Every value is a node, and so is every element of an array. */
  lemma {:induction false} NodesMean(vs: seq<Value>, x: Value)
    ensures !x.Array? ==> Nodes(x) == 1
    ensures Nodes(Value.Array([])) == 1
    ensures Nodes(Value.Array(vs + [x])) == Nodes(Value.Array(vs)) + Nodes(x)
  {
    NodesAppend(vs, x);
  }

  lemma {:induction false} NodesAppend(vs: seq<Value>, x: Value)
    ensures NodesOf(vs + [x]) == NodesOf(vs) + Nodes(x)
  {
    hide Nodes;
    if vs == [] {
      assert (vs + [x])[1..] == [];
    } else {
      assert (vs + [x])[1..] == vs[1..] + [x];
      NodesAppend(vs[1..], x);
    }
  }

  // ---------- Canonical text ----------

  lemma {:induction false} FitIsSendable(v: Value)
    requires Bounded(v) && StatusesFit(v)
    ensures Sendable(ToReply(v))
    decreases v, 0
  {
    if v.Array? { FitAreSendable(v.items); }
  }

  lemma {:induction false} FitAreSendable(vs: seq<Value>)
    requires AllBounded(vs) && AllFit(vs)
    ensures AllSendable(ToReplies(vs))
    decreases vs, 0
  {
    if vs != [] {
      FitIsSendable(vs[0]);
      FitAreSendable(vs[1..]);
    }
  }

  /** A value's reply means that value; nil's means the nil error. */
  lemma {:induction false} ReplyMeans(v: Value)
    ensures Outcome(ToReply(v)) == if v.Nil? then Err(Error.Nil) else Ok(v)
    decreases v, 0
  {
    match v
    case Status(text) => LossyOfValid(text);
    case Array(items) => RepliesMean(items);
    case _ =>
  }

  lemma {:induction false} RepliesMean(vs: seq<Value>)
    ensures Elements(ToReplies(vs)) == Ok(vs)
    decreases vs, 0
  {
    if vs != [] {
      hide ToReply, Outcome;
      ReplyMeans(vs[0]);
      RepliesMean(vs[1..]);
      assert ToReplies(vs)[1..] == ToReplies(vs[1..]);
      assert [vs[0]] + vs[1..] == vs;
    }
  }

  lemma {:induction false} TooLongLine(text: bytes, tail: bytes)
    requires LF !in text && |text| + 3 > MAX_LINE_LEN
    ensures ParseReply(Encode(SimpleString(text)) + tail).result == Err(TOO_LONG)
  {
    var s := Encode(SimpleString(text)) + tail;
    var head := [PLUS] + text + [CR];
    assert s == head + ([LF] + tail);
    LineLenAppend(head, [LF] + tail);
  }

  lemma {:induction false} UnfitFails(v: Value, tail: bytes)
    requires Bounded(v) && !StatusesFit(v)
    ensures ParseReply(Encode(ToReply(v)) + tail).result == Err(TOO_LONG)
    decreases v, 0
  {
    hide ParseReply, Encode;
    if v.Status? {
      TooLongLine(v.text, tail);
    } else {
      ArrayHeader(ToReplies(v.items), tail);
      UnfitAllFails(v.items, tail);
    }
  }

  lemma {:induction false} UnfitAllFails(vs: seq<Value>, tail: bytes)
    requires AllBounded(vs) && !AllFit(vs)
    ensures ParseSlice(EncodeAll(ToReplies(vs)) + tail, |vs|).result == Err(TOO_LONG)
    decreases vs, 0
  {
    hide ParseReply, ParseSlice, Encode, EncodeAll, ToReply, StatusesFit, Bounded;
    var rs := ToReplies(vs);
    var more := EncodeAll(rs[1..]) + tail;
    var s := EncodeAll(rs) + tail;
    assert rs[1..] == ToReplies(vs[1..]);
    LeftoverSplit(rs, tail);
    if StatusesFit(vs[0]) {
      FitIsSendable(vs[0]);
      ReplyMeans(vs[0]);
      NoLeftover(rs[0]);
      RoundTrip(rs[0], more);
      assert [] + more == more;
      SliceStep(s, |vs|, Outcome(rs[0]), more);
      UnfitAllFails(vs[1..], tail);
    } else {
      UnfitFails(vs[0], more);
      SliceStep(s, |vs|, Err(TOO_LONG), ParseReply(s).rest);
    }
  }

  /** Whatever tolerated syntax a value was parsed from, its canonical text parses back to it
      exactly when its statuses fit a line. */
  lemma CanonicalText(s: bytes, tail: bytes)
    requires ParseReply(s).result.Ok?
    ensures var v := ParseReply(s).result.value;
      ParseReply(Encode(ToReply(v)) + tail) == Parsed(Ok(v), tail) <==> StatusesFit(v)
  {
    hide ParseReply, Encode, Bounded, StatusesFit;
    var v := ParseReply(s).result.value;
    ParsedIsBounded(s);
    if StatusesFit(v) {
      FitIsSendable(v);
      ReplyMeans(v);
      NoLeftover(ToReply(v));
      RoundTrip(ToReply(v), tail);
      assert [] + tail == tail;
    } else {
      UnfitFails(v, tail);
    }
  }
}
