/** The reply parser over a buffered reader. */
module ReplyReader {
  import opened Bytes
  import opened Utf8
  import opened Decimal
  import opened Values
  import opened Reader
  import P = Parser
  import R = Resp
  import F = Frames

  lemma AgreesSuffix(s: bytes, r: Result<Value>, rest: bytes)
    requires Agrees(P.ParseReply(s), s, r, rest)
    ensures IsSuffix(rest, s)
  {
    F.ReplySuffix(s);
  }

  /** Parsing behind a line that was read: agreement carries over to the whole reply. */
  lemma AgreesBehind<T>(p: Parsed<T>, s: bytes, mid: bytes, r: Result<T>, rest: bytes)
    requires IsSuffix(mid, s) && Agrees(p, mid, r, rest)
    ensures Agrees(p, s, r, rest)
  {
    if r == Err(TOO_LONG) {
      SuffixTransitive(rest, mid, s);
    }
  }

  /** After one reply of several: still inside `s`, and on the flat parser's path. */
  lemma ReadOn(s: bytes, before: bytes, v: Result<Value>, rest: bytes)
    requires IsSuffix(before, s) && Agrees(P.ParseReply(before), before, v, rest)
    ensures IsSuffix(rest, s) && P.ParseReply(before).result == v
    ensures |rest| <= |before| && (v != Err(TOO_LONG) ==> P.ParseReply(before).rest == rest)
  {
    hide P.ParseReply;
    AgreesSuffix(before, v, rest);
    SuffixTransitive(rest, before, s);
  }

  /** One reply of several failed, and the whole fails with it. */
  lemma GaveUp<T>(s: bytes, before: bytes, v: Result<Value>, rest: bytes, whole: Parsed<T>)
    requires IsSuffix(before, s) && Agrees(P.ParseReply(before), before, v, rest) && v.Err?
    requires whole == Parsed(Err(v.error), P.ParseReply(before).rest)
    ensures Agrees(whole, s, Err(v.error), rest)
  {
    hide P.ParseReply;
    AgreesSuffix(before, v, rest);
    SuffixTransitive(rest, before, s);
  }

  method ParseReply(rd: BufReader) returns (r: Result<Value>)
    requires rd.Valid()
    modifies rd
    ensures rd.Valid()
    ensures Agrees(P.ParseReply(old(rd.Unread())), old(rd.Unread()), r, rd.Unread())
    ensures if r == Err(TOO_LONG) then rd.buf != [] else Lazy(old(rd.arrivals), |rd.Unread()|, rd.arrivals)
    decreases |rd.Unread()|, 0, 1
  {
    hide P.ReadLine, P.ParseSlice, ParseI64, ParseUsize, Lossy, Utf8.Valid, Flatten, IsSuffix, Lazy;
    ghost var s, pieces := rd.Unread(), rd.arrivals;
    var l := Reader.ReadLine(rd);
    if l.Err? {
      return Err(l.error);
    }
    var line := l.value;
    if line == [] {
      return Err(Redis(EmptyReply));
    }
    ghost var mid, after := rd.Unread(), rd.arrivals;
    var first, body := line[0], line[1..];
    if first == MINUS {
      return Err(Redis(Server(Lossy(body))));
    } else if first == PLUS {
      return Ok(Status(Lossy(body)));
    } else if first == COLON {
      var i := ParseI64(body);
      return if i.Some? then Ok(Int(i.value)) else Err(Redis(InvalidInteger));
    } else if first == DOLLAR {
      r := ParseBulk(rd, body);
      LazyThrough(pieces, |mid|, after, |rd.Unread()|, rd.arrivals);
    } else if first == STAR {
      if body == P.NIL_TAIL {
        return Err(Error.Nil);
      }
      var n := ParseI64(body);
      if n.None? {
        return Err(Redis(InvalidArrayLength));
      }
      r := ParseSliceInner(rd, n.value);
      if r != Err(TOO_LONG) { LazyThrough(pieces, |mid|, after, |rd.Unread()|, rd.arrivals); }
      AgreesBehind(P.AsArray(P.ParseSlice(mid, n.value)), s, mid, r, rd.Unread());
    } else {
      assert [first] + body == line;
      return Err(Redis(CantParse(line)));
    }
  }

  method ParseBulk(rd: BufReader, header: bytes) returns (r: Result<Value>)
    requires rd.Valid()
    modifies rd
    ensures rd.Valid()
    ensures Parsed(r, rd.Unread()) == P.ParseBulk(header, old(rd.Unread()))
    ensures Lazy(old(rd.arrivals), |rd.Unread()|, rd.arrivals)
  {
    hide ParseUsize, Utf8.Valid, Flatten, Lazy;
    LazyAtFirst(rd.arrivals, |rd.Unread()|);
    if header == P.NIL_TAIL {
      return Err(Error.Nil);
    }
    var replyLen := ParseUsize(header);
    if replyLen.None? {
      return Err(Redis(InvalidLength));
    }
    if replyLen.value + 2 > USIZE_MAX {
      return Err(Panicked);
    }
    var data := Reader.ReadN(rd, replyLen.value + 2);
    if data.Err? {
      return Err(data.error);
    }
    var payload := data.value[..replyLen.value];
    return if Utf8.Valid(payload) then Ok(BulkString(payload)) else Err(Redis(InvalidUtf8));
  }

  /** An array's elements: nil errors become nil values, any other error ends the parse. */
  method ParseSliceInner(rd: BufReader, n: int) returns (r: Result<Value>)
    requires rd.Valid()
    modifies rd
    ensures rd.Valid()
    ensures Agrees(P.AsArray(P.ParseSlice(old(rd.Unread()), n)), old(rd.Unread()), r, rd.Unread())
    ensures if r == Err(TOO_LONG) then rd.buf != [] else Lazy(old(rd.arrivals), |rd.Unread()|, rd.arrivals)
    decreases |rd.Unread()|, if n < 0 then 0 else n, 0
  {
    hide P.ParseReply, P.ParseSlice, BufReader.Unread, BufReader.Valid, IsSuffix, Onto, Agrees, Lazy;
    ghost var s, pieces := rd.Unread(), rd.arrivals;
    LazyAtFirst(pieces, |s|);
    if n < 0 {
      R.SliceDone(s, n);
      SuffixOfItself(s);
      Exactly(s, P.AsArray(P.ParseSlice(s, n)), Err(Panicked), s);
      return Err(Panicked);
    }
    var vals: seq<Value> := [];
    SuffixOfItself(s);
    NothingYet(P.ParseSlice(s, n).result);
    for i := 0 to n
      invariant rd.Valid() && IsSuffix(rd.Unread(), s) && |rd.Unread()| <= |s|
      invariant Lazy(pieces, |rd.Unread()|, rd.arrivals)
      invariant P.ParseSlice(s, n) == P.Collected(vals, P.ParseSlice(rd.Unread(), n - i))
    {
      ghost var before, arrivals := rd.Unread(), rd.arrivals;
      var v := ParseReply(rd);
      ReadOn(s, before, v, rd.Unread());
      if v != Err(TOO_LONG) { LazyThrough(pieces, |before|, arrivals, |rd.Unread()|, rd.arrivals); }
      R.SliceStep(before, n - i, v, P.ParseReply(before).rest);
      var item := Value.Nil;
      if v.Ok? {
        item := v.value;
      } else if !v.error.Nil? {
        GaveUp(s, before, v, rd.Unread(), P.AsArray(P.ParseSlice(s, n)));
        return Err(v.error);
      }
      OneMore(vals, item, P.ParseSlice(rd.Unread(), n - i - 1).result);
      vals := vals + [item];
    }
    R.SliceDone(rd.Unread(), 0);
    Everything(vals);
    Exactly(s, P.AsArray(P.ParseSlice(s, n)), Ok(Array(vals)), rd.Unread());
    return Ok(Array(vals));
  }
}
