/** Typed commands: `Parse` stores the decoded reply, `Result` hands it out. */
module Cmds {
  import opened Bytes
  import opened Utf8
  import opened Decimal
  import opened Values
  import opened Decode

  class StringSliceCmd {
    var err: Option<Error>
    var val: Option<seq<Str>>

    constructor ()
      ensures err == None && val == None
    {
      err, val := None, None;
    }

    /** Stores all the texts, or fails and stores nothing. */
    method Parse(v: Value) returns (r: Result<()>)
      modifies this`val
      ensures r.Ok? <==> v.Array? && Each(v.items, AsText).Ok?
      ensures r.Ok? ==> val == Some(Each(v.items, AsText).value)
      ensures r.Err? ==> val == old(val)
      ensures r.Err? ==> r.error == if v.Array? then Each(v.items, AsText).error else Redis(ExpectedArray)
      ensures r.Ok? <==> v.Array? && forall i :: 0 <= i < |v.items| ==> v.items[i].BulkString? || v.items[i].Status?
      ensures r.Ok? ==> val.Some? && |val.value| == |v.items|
      ensures r.Ok? ==>
        forall i :: 0 <= i < |v.items| ==> v.items[i] == BulkString(val.value[i]) || v.items[i] == Status(val.value[i])
      ensures r.Err? ==> r.error == Redis(if v.Array? then ExpectedString else ExpectedArray)
    {
      hide Onto, Utf8.Valid;
      if v.Array? { StringsMean(v.items); }
      if !v.Array? {
        return Err(Redis(ExpectedArray));
      }
      var vals: seq<Str> := [];
      var left := v.items;
      NothingYet(Each(left, AsText));
      while left != []
        invariant val == old(val)
        invariant Each(v.items, AsText) == Onto(vals, Each(left, AsText))
      {
        var text := Text(left[0]);
        if text.None? {
          return Err(Redis(ExpectedString));
        }
        OneMore(vals, text.value, Each(left[1..], AsText));
        vals := vals + [text.value];
        left := left[1..];
      }
      Everything(vals);
      val := Some(vals);
      return Ok(());
    }

    function Result(): (r: Result<seq<Str>>)
      reads this
      ensures err.None? && val.Some? ==> r == Ok(val.value)
      ensures err.Some? ==> r == Err(err.value)
    {
      if err.Some? then Err(err.value) else Ok(UnwrapOr(val, []))
    }
  }

  class BoolSliceCmd {
    var err: Option<Error>
    var val: Option<seq<bool>>

    constructor ()
      ensures err == None && val == None
    {
      err, val := None, None;
    }

    /** Stores which integers are 1, or fails and stores nothing. */
    method Parse(v: Value) returns (r: Result<()>)
      modifies this`val
      ensures r.Ok? <==> v.Array? && Each(v.items, AsFlag).Ok?
      ensures r.Ok? ==> val == Some(Each(v.items, AsFlag).value)
      ensures r.Err? ==> val == old(val)
      ensures r.Err? ==> r.error == if v.Array? then Each(v.items, AsFlag).error else Redis(ExpectedArray)
      ensures r.Ok? <==> v.Array? && forall i :: 0 <= i < |v.items| ==> v.items[i].Int?
      ensures r.Ok? ==> val.Some? && |val.value| == |v.items|
      ensures r.Ok? ==>
        forall i :: 0 <= i < |v.items| ==> (val.value[i] <==> v.items[i] == Int(1))
      ensures r.Err? ==> r.error == Redis(if v.Array? then ExpectedInteger else ExpectedArray)
    {
      hide Onto, Utf8.Valid;
      if v.Array? { FlagsMean(v.items); }
      if !v.Array? {
        return Err(Redis(ExpectedArray));
      }
      var vals: seq<bool> := [];
      var left := v.items;
      NothingYet(Each(left, AsFlag));
      while left != []
        invariant val == old(val)
        invariant Each(v.items, AsFlag) == Onto(vals, Each(left, AsFlag))
      {
        if !left[0].Int? {
          return Err(Redis(ExpectedInteger));
        }
        OneMore(vals, left[0].i == 1, Each(left[1..], AsFlag));
        vals := vals + [left[0].i == 1];
        left := left[1..];
      }
      Everything(vals);
      val := Some(vals);
      return Ok(());
    }

    function Result(): (r: Result<seq<bool>>)
      reads this
      ensures err.None? && val.Some? ==> r == Ok(val.value)
      ensures err.Some? ==> r == Err(err.value)
    {
      if err.Some? then Err(err.value) else Ok(UnwrapOr(val, []))
    }
  }

  class StringMapCmd {
    var err: Option<Error>
    var val: Option<map<Str, Str>>

    constructor ()
      ensures err == None && val == None
    {
      err, val := None, None;
    }

    /** Stores the map of all pairs, the last write winning, or fails and stores nothing. */
    method Parse(v: Value) returns (r: Result<()>)
      modifies this`val
      ensures r.Ok? <==> v.Array? && EachPair(v.items, AsPair).Ok?
      ensures r.Ok? ==> val == Some(MapOf(EachPair(v.items, AsPair).value))
      ensures r.Err? ==> val == old(val)
      ensures r.Err? ==> r.error == if v.Array? then EachPair(v.items, AsPair).error else Redis(ExpectedArray)
      ensures r.Ok? <==> v.Array? && forall i :: 0 <= i < |v.items| / 2 ==>
        (v.items[2 * i].BulkString? || v.items[2 * i].Status?) &&
        (v.items[2 * i + 1].BulkString? || v.items[2 * i + 1].Status?)
      ensures r.Ok? ==> val.Some? && exists pairs :: ArePairs(v.items, pairs) && val.value == MapOf(pairs)
      ensures r.Err? ==> r.error == Redis(if v.Array? then ExpectedString else ExpectedArray)
    {
      hide Onto, MapOf, Utf8.Valid;
      if v.Array? { PairsMean(v.items); }
      if !v.Array? {
        return Err(Redis(ExpectedArray));
      }
      var arr := v.items;
      NoPairs();
      var m: map<Str, Str> := map[];
      ghost var pairs: seq<(Str, Str)> := [];
      var i := 0;
      assert arr[0..] == arr;
      NothingYet(EachPair(arr, AsPair));
      while i + 1 < |arr|
        invariant val == old(val) && i <= |arr| && m == MapOf(pairs)
        invariant EachPair(arr, AsPair) == Onto(pairs, EachPair(arr[i..], AsPair))
      {
        var k, w := Text(arr[i]), Text(arr[i + 1]);
        if k.None? {
          return Err(Redis(ExpectedString));
        }
        if w.None? {
          return Err(Redis(ExpectedString));
        }
        m := m[k.value := w.value];
        OneMorePair(pairs, k.value, w.value);
        assert arr[i..][2..] == arr[i + 2..];
        OneMore(pairs, (k.value, w.value), EachPair(arr[i + 2..], AsPair));
        pairs := pairs + [(k.value, w.value)];
        i := i + 2;
      }
      Everything(pairs);
      val := Some(m);
      return Ok(());
    }

    function Result(): (r: Result<map<Str, Str>>)
      reads this
      ensures err.None? && val.Some? ==> r == Ok(val.value)
      ensures err.Some? ==> r == Err(err.value)
    {
      if err.Some? then Err(err.value) else Ok(UnwrapOr(val, map[]))
    }
  }

  class ZSliceCmd<S> {
    var err: Option<Error>
    var val: Option<seq<Z<S>>>

    constructor ()
      ensures err == None && val == None
    {
      err, val := None, None;
    }

    /** Stores all members with their scores, or fails and stores nothing. */
    method Parse(v: Value, parseFloat: Str -> Option<S>) returns (r: Result<()>)
      modifies this`val
      ensures r.Ok? <==> v.Array? && EachPair(v.items, Scored(parseFloat)).Ok?
      ensures r.Ok? ==> val == Some(EachPair(v.items, Scored(parseFloat)).value)
      ensures r.Err? ==> val == old(val)
      ensures r.Err? ==> r.error == if v.Array? then EachPair(v.items, Scored(parseFloat)).error else Redis(ExpectedArray)
      ensures r.Ok? ==> val.Some? && v.Array? && |val.value| == |v.items| / 2
      ensures r.Ok? ==>
        forall i :: 0 <= i < |v.items| / 2 ==> IsScored(parseFloat, v.items[2 * i], v.items[2 * i + 1], val.value[i])
      ensures r.Err? ==> if !v.Array? then r.error == Redis(ExpectedArray) else
        exists k :: FirstUnscored(parseFloat, v.items, k, r.error)
    {
      if v.Array? {
        if EachPair(v.items, Scored(parseFloat)).Ok? {
          ScoresMean(parseFloat, v.items);
        } else {
          ghost var k := ScoresFail(parseFloat, v.items);
          assert FirstUnscored(parseFloat, v.items, k, EachPair(v.items, Scored(parseFloat)).error);
        }
      }
      if !v.Array? {
        return Err(Redis(ExpectedArray));
      }
      hide Onto, Utf8.Valid;
      ghost var f := Scored(parseFloat);
      var arr := v.items;
      var zz: seq<Z<S>> := [];
      var i := 0;
      assert arr[0..] == arr;
      NothingYet(EachPair(arr, f));
      while i + 1 < |arr|
        invariant val == old(val) && i <= |arr|
        invariant EachPair(arr, f) == Onto(zz, EachPair(arr[i..], f))
      {
        var member, scoreText := Text(arr[i]), Text(arr[i + 1]);
        if member.None? {
          return Err(Redis(ExpectedString));
        }
        if scoreText.None? {
          return Err(Redis(ExpectedString));
        }
        var score := parseFloat(scoreText.value);
        if score.None? {
          return Err(Redis(InvalidFloat));
        }
        assert arr[i..][2..] == arr[i + 2..];
        OneMore(zz, Z(score.value, member.value), EachPair(arr[i + 2..], f));
        zz := zz + [Z(score.value, member.value)];
        i := i + 2;
      }
      Everything(zz);
      val := Some(zz);
      return Ok(());
    }

    function Result(): (r: Result<seq<Z<S>>>)
      reads this
      ensures err.None? && val.Some? ==> r == Ok(val.value)
      ensures err.Some? ==> r == Err(err.value)
    {
      if err.Some? then Err(err.value) else Ok(UnwrapOr(val, []))
    }
  }

  class ScanCmd {
    var err: Option<Error>
    var cursor: Option<i64>
    var keys: Option<seq<Str>>

    constructor ()
      ensures err == None && cursor == None && keys == None
    {
      err, cursor, keys := None, None, None;
    }

    /** After a successful parse, `Result` is the decoded reply. */
    method Parse(v: Value) returns (r: Result<()>)
      modifies this`cursor, this`keys
      ensures r.Ok? <==> ScanOf(v).Ok?
      ensures r.Ok? && err.None? ==> Result() == ScanOf(v)
      ensures r.Err? ==> r.error == ScanOf(v).error && cursor == old(cursor) && keys == old(keys)
      ensures r.Ok? <==> v.Array? && |v.items| >= 2
      ensures r.Ok? ==> v.items[0].Int? ==> cursor == Some(v.items[0].i)
      ensures r.Ok? ==> v.items[0].BulkString? ==> cursor == ParseI64(v.items[0].payload)
      ensures r.Ok? ==> v.items[0].Status? ==> cursor == ParseI64(v.items[0].text)
      ensures r.Ok? ==> v.items[0].Nil? || v.items[0].Array? ==> cursor == None
      ensures r.Ok? ==> keys == Some(if v.items[1].Array? then Texts(v.items[1].items) else [])
      ensures r.Err? ==> r.error == Redis(if v.Array? then InvalidScanReply else ExpectedArray)
    {
      hide Utf8.Valid, ParseI64;
      if !v.Array? {
        return Err(Redis(ExpectedArray));
      }
      var arr := v.items;
      if |arr| < 2 {
        return Err(Redis(InvalidScanReply));
      }
      match arr[0] {
        case BulkString(text) => cursor := ParseI64(text);
        case Status(text) => cursor := ParseI64(text);
        case Int(i) => cursor := Some(i);
        case _ => cursor := None;
      }
      keys := if arr[1].Array? then Some(Texts(arr[1].items)) else Some([]);
      return Ok(());
    }

    function Result(): (r: Result<(i64, seq<Str>)>)
      reads this
      ensures err.None? && cursor.Some? && keys.Some? ==> r == Ok((cursor.value, keys.value))
      ensures err.Some? ==> r == Err(err.value)
    {
      if err.Some? then Err(err.value) else Ok((UnwrapOr(cursor, 0), UnwrapOr(keys, [])))
    }
  }
}
