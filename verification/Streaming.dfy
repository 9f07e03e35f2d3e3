/** Decoders that build typed results while they parse. */
module Streaming {
  import opened Bytes
  import opened Utf8
  import opened Decimal
  import opened Values
  import opened Reader
  import opened ReplyReader
  import opened Decode
  import P = Parser
  import R = Resp

  /** Rust's `/` on signed integers. */
  function TruncDiv2(n: int): int {
    if n < 0 then -((-n) / 2) else n / 2
  }

  method ParseStringSlice(rd: BufReader, n: int) returns (r: Result<seq<Str>>)
    requires rd.Valid()
    modifies rd
    ensures rd.Valid()
    ensures Agrees(StreamEach(old(rd.Unread()), n, AsText), old(rd.Unread()), r, rd.Unread())
  {
    hide P.ParseReply, BufReader.Unread, BufReader.Valid, IsSuffix, Utf8.Valid, Onto, Agrees, StreamEach;
    ghost var s := rd.Unread();
    if n < 0 {
      StreamDone(s, n, AsText);
      SuffixOfItself(s);
      Exactly(s, StreamEach(s, n, AsText), Err(Panicked), s);
      return Err(Panicked);
    }
    var vals: seq<Str> := [];
    SuffixOfItself(s);
    NothingYet(StreamEach(s, n, AsText).result);
    for i := 0 to n
      invariant rd.Valid() && IsSuffix(rd.Unread(), s)
      invariant StreamEach(s, n, AsText) == P.Collected(vals, StreamEach(rd.Unread(), n - i, AsText))
    {
      ghost var before := rd.Unread();
      StreamStep(before, n - i, AsText);
      var v := ParseReply(rd);
      ReadOn(s, before, v, rd.Unread());
      if v.Err? {
        GaveUp(s, before, v, rd.Unread(), StreamEach(s, n, AsText));
        return Err(v.error);
      }
      var text := Text(v.value);
      if text.None? {
        Exactly(s, StreamEach(s, n, AsText), Err(Redis(ExpectedString)), rd.Unread());
        return Err(Redis(ExpectedString));
      }
      OneMore(vals, text.value, StreamEach(rd.Unread(), n - i - 1, AsText).result);
      vals := vals + [text.value];
    }
    StreamDone(rd.Unread(), 0, AsText);
    Everything(vals);
    Exactly(s, StreamEach(s, n, AsText), Ok(vals), rd.Unread());
    return Ok(vals);
  }

  method ParseBoolSlice(rd: BufReader, n: int) returns (r: Result<seq<bool>>)
    requires rd.Valid()
    modifies rd
    ensures rd.Valid()
    ensures Agrees(StreamEach(old(rd.Unread()), n, AsFlag), old(rd.Unread()), r, rd.Unread())
  {
    hide P.ParseReply, BufReader.Unread, BufReader.Valid, IsSuffix, Utf8.Valid, Onto, Agrees, StreamEach;
    ghost var s := rd.Unread();
    if n < 0 {
      StreamDone(s, n, AsFlag);
      SuffixOfItself(s);
      Exactly(s, StreamEach(s, n, AsFlag), Err(Panicked), s);
      return Err(Panicked);
    }
    var vals: seq<bool> := [];
    SuffixOfItself(s);
    NothingYet(StreamEach(s, n, AsFlag).result);
    for i := 0 to n
      invariant rd.Valid() && IsSuffix(rd.Unread(), s)
      invariant StreamEach(s, n, AsFlag) == P.Collected(vals, StreamEach(rd.Unread(), n - i, AsFlag))
    {
      ghost var before := rd.Unread();
      StreamStep(before, n - i, AsFlag);
      var v := ParseReply(rd);
      ReadOn(s, before, v, rd.Unread());
      if v.Err? {
        GaveUp(s, before, v, rd.Unread(), StreamEach(s, n, AsFlag));
        return Err(v.error);
      }
      if !v.value.Int? {
        Exactly(s, StreamEach(s, n, AsFlag), Err(Redis(ExpectedInteger)), rd.Unread());
        return Err(Redis(ExpectedInteger));
      }
      OneMore(vals, v.value.i == 1, StreamEach(rd.Unread(), n - i - 1, AsFlag).result);
      vals := vals + [v.value.i == 1];
    }
    StreamDone(rd.Unread(), 0, AsFlag);
    Everything(vals);
    Exactly(s, StreamEach(s, n, AsFlag), Ok(vals), rd.Unread());
    return Ok(vals);
  }

  function MapParsed(p: Parsed<seq<(Str, Str)>>): Parsed<map<Str, Str>> {
    Parsed(AsMap(p.result), p.rest)
  }

  method ParseStringMap(rd: BufReader, n: int) returns (r: Result<map<Str, Str>>)
    requires rd.Valid()
    modifies rd
    ensures rd.Valid()
    ensures Agrees(MapParsed(StreamPairs(old(rd.Unread()), TruncDiv2(n), AsPair)), old(rd.Unread()), r, rd.Unread())
  {
    hide P.ParseReply, BufReader.Unread, BufReader.Valid, IsSuffix, Utf8.Valid, Onto, MapOf, Agrees, StreamPairs;
    ghost var s := rd.Unread();
    var count := TruncDiv2(n);
    if count < 0 {
      PairsDone(s, count, AsPair);
      SuffixOfItself(s);
      Exactly(s, MapParsed(StreamPairs(s, count, AsPair)), Err(Panicked), s);
      return Err(Panicked);
    }
    var m: map<Str, Str> := map[];
    ghost var pairs: seq<(Str, Str)> := [];
    SuffixOfItself(s);
    NothingYet(StreamPairs(s, count, AsPair).result);
    NoPairs();
    for i := 0 to count
      invariant rd.Valid() && IsSuffix(rd.Unread(), s) && m == MapOf(pairs)
      invariant StreamPairs(s, count, AsPair) == P.Collected(pairs, StreamPairs(rd.Unread(), count - i, AsPair))
    {
      ghost var before := rd.Unread();
      PairsStep(before, count - i, AsPair);
      var k := ParseReply(rd);
      ReadOn(s, before, k, rd.Unread());
      if k.Err? {
        GaveUp(s, before, k, rd.Unread(), MapParsed(StreamPairs(s, count, AsPair)));
        return Err(k.error);
      }
      ghost var mid := rd.Unread();
      var v := ParseReply(rd);
      ReadOn(s, mid, v, rd.Unread());
      if v.Err? {
        GaveUp(s, mid, v, rd.Unread(), MapParsed(StreamPairs(s, count, AsPair)));
        return Err(v.error);
      }
      var key, val := Text(k.value), Text(v.value);
      if key.None? {
        Exactly(s, MapParsed(StreamPairs(s, count, AsPair)), Err(Redis(ExpectedString)), rd.Unread());
        return Err(Redis(ExpectedString));
      }
      if val.None? {
        Exactly(s, MapParsed(StreamPairs(s, count, AsPair)), Err(Redis(ExpectedString)), rd.Unread());
        return Err(Redis(ExpectedString));
      }
      m := m[key.value := val.value];
      OneMorePair(pairs, key.value, val.value);
      OneMore(pairs, (key.value, val.value), StreamPairs(rd.Unread(), count - i - 1, AsPair).result);
      pairs := pairs + [(key.value, val.value)];
    }
    PairsDone(rd.Unread(), 0, AsPair);
    Everything(pairs);
    Exactly(s, MapParsed(StreamPairs(s, count, AsPair)), Ok(m), rd.Unread());
    return Ok(m);
  }

  method ParseZSlice<S>(rd: BufReader, n: int, parseFloat: Str -> Option<S>) returns (r: Result<seq<Z<S>>>)
    requires rd.Valid()
    modifies rd
    ensures rd.Valid()
    ensures Agrees(StreamPairs(old(rd.Unread()), TruncDiv2(n), Scored(parseFloat)), old(rd.Unread()), r, rd.Unread())
  {
    hide P.ParseReply, BufReader.Unread, BufReader.Valid, IsSuffix, Utf8.Valid, Onto, MapOf, Agrees, StreamPairs;
    ghost var s := rd.Unread();
    ghost var f := Scored(parseFloat);
    var count := TruncDiv2(n);
    if count < 0 {
      PairsDone(s, count, f);
      SuffixOfItself(s);
      Exactly(s, StreamPairs(s, count, f), Err(Panicked), s);
      return Err(Panicked);
    }
    var zz: seq<Z<S>> := [];
    SuffixOfItself(s);
    NothingYet(StreamPairs(s, count, f).result);
    for i := 0 to count
      invariant rd.Valid() && IsSuffix(rd.Unread(), s)
      invariant StreamPairs(s, count, f) == P.Collected(zz, StreamPairs(rd.Unread(), count - i, f))
    {
      ghost var before := rd.Unread();
      PairsStep(before, count - i, f);
      var member := ParseReply(rd);
      ReadOn(s, before, member, rd.Unread());
      if member.Err? {
        GaveUp(s, before, member, rd.Unread(), StreamPairs(s, count, f));
        return Err(member.error);
      }
      ghost var mid := rd.Unread();
      var score := ParseReply(rd);
      ReadOn(s, mid, score, rd.Unread());
      if score.Err? {
        GaveUp(s, mid, score, rd.Unread(), StreamPairs(s, count, f));
        return Err(score.error);
      }
      var name, scoreText := Text(member.value), Text(score.value);
      if name.None? {
        Exactly(s, StreamPairs(s, count, f), Err(Redis(ExpectedString)), rd.Unread());
        return Err(Redis(ExpectedString));
      }
      if scoreText.None? {
        Exactly(s, StreamPairs(s, count, f), Err(Redis(ExpectedString)), rd.Unread());
        return Err(Redis(ExpectedString));
      }
      var x := parseFloat(scoreText.value);
      if x.None? {
        Exactly(s, StreamPairs(s, count, f), Err(Redis(InvalidFloat)), rd.Unread());
        return Err(Redis(InvalidFloat));
      }
      OneMore(zz, Z(x.value, name.value), StreamPairs(rd.Unread(), count - i - 1, f).result);
      zz := zz + [Z(x.value, name.value)];
    }
    PairsDone(rd.Unread(), 0, f);
    Everything(zz);
    Exactly(s, StreamPairs(s, count, f), Ok(zz), rd.Unread());
    return Ok(zz);
  }

  /** SCAN replies: the decoded value of one whole reply. */
  method ParseScanReply(rd: BufReader) returns (r: Result<(i64, seq<Str>)>)
    requires rd.Valid()
    modifies rd
    ensures rd.Valid()
    ensures var p := P.ParseReply(old(rd.Unread()));
      Agrees(Parsed(if p.result.Ok? then ScanOf(p.result.value) else Err(p.result.error), p.rest),
             old(rd.Unread()), r, rd.Unread())
  {
    hide P.ParseReply;
    var v := ParseReply(rd);
    if v.Err? {
      return Err(v.error);
    }
    if !v.value.Array? {
      return Err(Redis(ExpectedArray));
    }
    var arr := v.value.items;
    if |arr| < 2 {
      return Err(Redis(InvalidScanReply));
    }
    var cursor: i64 := 0;
    match arr[0] {
      case BulkString(text) => cursor := UnwrapOr(ParseI64(text), 0);
      case Status(text) => cursor := UnwrapOr(ParseI64(text), 0);
      case Int(i) => cursor := i;
      case _ =>
    }
    return Ok((cursor, ScanKeys(arr[1])));
  }

  // ---------- Against parsing first and decoding then ----------

  /** Succeeds exactly when the parse and the decoding of its elements do, with the same value
      and the same bytes left. */
  ghost predicate Refines<T>(fused: Parsed<T>, p: Parsed<seq<Value>>, decode: seq<Value> -> Result<T>) {
    (fused.result.Ok? <==> p.result.Ok? && decode(p.result.value).Ok?) &&
    (fused.result.Ok? ==> fused.result == decode(p.result.value) && fused.rest == p.rest)
  }

  lemma RefinesEach<T>(s: bytes, n: nat, f: Value -> Result<T>)
    requires f(Value.Nil).Err?
    ensures Refines(StreamEach(s, n, f), P.ParseSlice(s, n), vs => Each(vs, f))
  {
    hide P.ParseSlice, StreamEach, Each;
    var fused, p := StreamEach(s, n, f), P.ParseSlice(s, n);
    if fused.result.Ok? { FusedEach(s, n, f, fused.result.value, fused.rest); }
    if p.result.Ok? && Each(p.result.value, f).Ok? { FusedEach(s, n, f, Each(p.result.value, f).value, p.rest); }
  }

  lemma {:induction false} RefinesPairs<T>(s: bytes, n: nat, f: (Value, Value) -> Result<T>)
    requires forall v :: f(Value.Nil, v).Err? && f(v, Value.Nil).Err?
    ensures Refines(StreamPairs(s, n, f), P.ParseSlice(s, 2 * n), vs => EachPair(vs, f))
  {
    hide P.ParseSlice, StreamPairs, EachPair;
    var fused, p := StreamPairs(s, n, f), P.ParseSlice(s, 2 * n);
    if fused.result.Ok? { FusedPairs(s, n, f, fused.result.value, fused.rest); }
    if p.result.Ok? && EachPair(p.result.value, f).Ok? {
      FusedPairs(s, n, f, EachPair(p.result.value, f).value, p.rest);
    }
  }

  /** Each fused decoder refines parsing the array and decoding it as the matching command does.
      For an odd count the pair decoders read one element less. */
  lemma FusedRefinesDecode<S>(s: bytes, n: nat, parseFloat: Str -> Option<S>)
    ensures Refines(StreamEach(s, n, AsText), P.ParseSlice(s, n), vs => Each(vs, AsText))
    ensures Refines(StreamEach(s, n, AsFlag), P.ParseSlice(s, n), vs => Each(vs, AsFlag))
    ensures Refines(MapParsed(StreamPairs(s, TruncDiv2(n), AsPair)), P.ParseSlice(s, n - n % 2),
                    vs => AsMap(EachPair(vs, AsPair)))
    ensures Refines(StreamPairs(s, TruncDiv2(n), Scored(parseFloat)), P.ParseSlice(s, n - n % 2),
                    vs => EachPair(vs, Scored(parseFloat)))
  {
    hide P.ParseSlice, StreamEach, StreamPairs, Each, EachPair, MapOf;
    assert 2 * (n / 2) == n - n % 2;
    RefinesEach(s, n, AsText);
    RefinesEach(s, n, AsFlag);
    RefinesPairs(s, n / 2, AsPair);
    RefinesPairs(s, n / 2, Scored(parseFloat));
  }

  // ---------- By constructor ----------

  /** `parse_string_slice` accepts exactly an array of bulk strings and statuses, and returns their
      texts. */
  lemma StringsOffStream(s: bytes, n: int)
    ensures var o := StreamEach(s, n, AsText); var p := P.ParseSlice(s, n);
      (o.result.Ok? <==>
        p.result.Ok? &&
        forall i :: 0 <= i < |p.result.value| ==> p.result.value[i].BulkString? || p.result.value[i].Status?) &&
      (o.result.Ok? ==>
        o.rest == p.rest && |o.result.value| == n &&
        forall i :: 0 <= i < n ==>
          p.result.value[i] == BulkString(o.result.value[i]) || p.result.value[i] == Status(o.result.value[i]))
  {
    hide P.ParseSlice, StreamEach, Each;
    if n < 0 {
      StreamDone(s, n, AsText);
      R.SliceDone(s, n);
    } else {
      RefinesEach(s, n, AsText);
      var p := P.ParseSlice(s, n);
      if p.result.Ok? { StringsMean(p.result.value); }
    }
  }

  /** `parse_bool_slice` accepts exactly an array of integers, and returns which are 1. */
  lemma FlagsOffStream(s: bytes, n: int)
    ensures var o := StreamEach(s, n, AsFlag); var p := P.ParseSlice(s, n);
      (o.result.Ok? <==> p.result.Ok? && forall i :: 0 <= i < |p.result.value| ==> p.result.value[i].Int?) &&
      (o.result.Ok? ==>
        o.rest == p.rest && |o.result.value| == n &&
        forall i :: 0 <= i < n ==> (o.result.value[i] <==> p.result.value[i] == Int(1)))
  {
    hide P.ParseSlice, StreamEach, Each;
    if n < 0 {
      StreamDone(s, n, AsFlag);
      R.SliceDone(s, n);
    } else {
      RefinesEach(s, n, AsFlag);
      var p := P.ParseSlice(s, n);
      if p.result.Ok? { FlagsMean(p.result.value); }
    }
  }

  /** `parse_string_map` accepts exactly pairs of bulk strings and statuses, and returns their map. */
  lemma PairsOffStream(s: bytes, n: nat)
    ensures var o := StreamPairs(s, TruncDiv2(n), AsPair); var p := P.ParseSlice(s, n - n % 2);
      (o.result.Ok? <==>
        p.result.Ok? &&
        forall i :: 0 <= i < |p.result.value| ==> p.result.value[i].BulkString? || p.result.value[i].Status?) &&
      (o.result.Ok? ==> o.rest == p.rest && ArePairs(p.result.value, o.result.value))
  {
    hide P.ParseSlice, StreamPairs, EachPair, ArePairs;
    assert 2 * (n / 2) == n - n % 2;
    RefinesPairs(s, n / 2, AsPair);
    var p := P.ParseSlice(s, n - n % 2);
    if p.result.Ok? {
      PairsMean(p.result.value);
      EvenOdd(p.result.value);
    }
  }

  lemma EvenOdd(vs: seq<Value>)
    requires |vs| % 2 == 0
    ensures (forall i :: 0 <= i < |vs| / 2 ==>
        (vs[2 * i].BulkString? || vs[2 * i].Status?) && (vs[2 * i + 1].BulkString? || vs[2 * i + 1].Status?)) <==>
      forall i :: 0 <= i < |vs| ==> vs[i].BulkString? || vs[i].Status?
  {
    if forall i :: 0 <= i < |vs| / 2 ==>
        (vs[2 * i].BulkString? || vs[2 * i].Status?) && (vs[2 * i + 1].BulkString? || vs[2 * i + 1].Status?) {
      forall i | 0 <= i < |vs|
        ensures vs[i].BulkString? || vs[i].Status?
      {
        assert vs[2 * (i / 2)].BulkString? || vs[2 * (i / 2)].Status?;
        assert i == 2 * (i / 2) || i == 2 * (i / 2) + 1;
      }
    }
  }

  /** A negative count of pairs cannot be allocated; -1 rounds to none. */
  lemma NegativePairs<T>(s: bytes, n: int, f: (Value, Value) -> Result<T>)
    requires n < 0
    ensures StreamPairs(s, TruncDiv2(n), f) == Parsed(if n == -1 then Ok([]) else Err(Panicked), s)
  {
  }

  /** `parse_z_slice` returns members with scores, pair by pair. */
  lemma ScoresOffStream<S>(s: bytes, n: nat, parseFloat: Str -> Option<S>)
    ensures var o := StreamPairs(s, TruncDiv2(n), Scored(parseFloat)); var p := P.ParseSlice(s, n - n % 2);
      o.result.Ok? ==>
        p.result.Ok? && o.rest == p.rest && |o.result.value| == |p.result.value| / 2 &&
        forall i :: 0 <= i < |o.result.value| ==>
          IsScored(parseFloat, p.result.value[2 * i], p.result.value[2 * i + 1], o.result.value[i])
  {
    hide P.ParseSlice, StreamPairs, EachPair, IsScored;
    assert 2 * (n / 2) == n - n % 2;
    RefinesPairs(s, n / 2, Scored(parseFloat));
    var p := P.ParseSlice(s, n - n % 2);
    if StreamPairs(s, n / 2, Scored(parseFloat)).result.Ok? { ScoresMean(parseFloat, p.result.value); }
  }
}
