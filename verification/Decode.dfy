/** What typed decoders make of a parsed array, and of the same elements straight off the stream. */
module Decode {
  import opened Bytes
  import opened Utf8
  import opened Decimal
  import opened Values
  import opened Parser
  import opened Resp

  /** A sorted-set member with its score. */
  datatype Z<+S> = Z(score: S, member: Str)

  function AsText(v: Value): Result<Str> {
    match Text(v)
    case Some(s) => Ok(s)
    case None => Err(Redis(ExpectedString))
  }

  function AsFlag(v: Value): Result<bool> {
    if v.Int? then Ok(v.i == 1) else Err(Redis(ExpectedInteger))
  }

  function AsPair(k: Value, v: Value): Result<(Str, Str)> {
    if Text(k).None? || Text(v).None? then Err(Redis(ExpectedString))
    else Ok((Text(k).value, Text(v).value))
  }

  function AsScored<S>(parseFloat: Str -> Option<S>, member: Value, score: Value): Result<Z<S>> {
    if Text(member).None? || Text(score).None? then Err(Redis(ExpectedString))
    else
      match parseFloat(Text(score).value)
      case Some(x) => Ok(Z(x, Text(member).value))
      case None => Err(Redis(InvalidFloat))
  }

  function Scored<S>(parseFloat: Str -> Option<S>): (Value, Value) -> Result<Z<S>> {
    (member: Value, score: Value) => AsScored(parseFloat, member, score)
  }

  /** All elements decoded, or the first failure. */
  function Each<T>(vs: seq<Value>, f: Value -> Result<T>): (o: Result<seq<T>>)
    ensures o.Ok? ==> |o.value| == |vs|
  {
    if vs == [] then Ok([])
    else
      match f(vs[0])
      case Err(e) => Err(e)
      case Ok(x) => Onto([x], Each(vs[1..], f))
  }

  /** Consecutive pairs decoded, or the first failure; an odd last element is ignored. */
  function EachPair<T>(vs: seq<Value>, f: (Value, Value) -> Result<T>): (o: Result<seq<T>>)
    ensures o.Ok? ==> |o.value| == |vs| / 2
  {
    if |vs| < 2 then Ok([])
    else
      match f(vs[0], vs[1])
      case Err(e) => Err(e)
      case Ok(x) => Onto([x], EachPair(vs[2..], f))
  }

  /** Insertion in order: a later pair replaces an earlier one with its key. */
  function MapOf(pairs: seq<(Str, Str)>): map<Str, Str> {
    if pairs == [] then map[]
    else
      var (k, v) := pairs[|pairs| - 1];
      MapOf(pairs[..|pairs| - 1])[k := v]
  }

  lemma NoPairs()
    ensures MapOf([]) == map[]
  {
  }

  lemma OneMorePair(pairs: seq<(Str, Str)>, k: Str, v: Str)
    ensures MapOf(pairs + [(k, v)]) == MapOf(pairs)[k := v]
  {
    assert (pairs + [(k, v)])[..|pairs|] == pairs;
  }

  function AsMap(o: Result<seq<(Str, Str)>>): Result<map<Str, Str>> {
    match o
    case Ok(pairs) => Ok(MapOf(pairs))
    case Err(e) => Err(e)
  }

  /** The text elements, in order; others are skipped. */
  function Texts(vs: seq<Value>): (ts: seq<Str>)
    ensures |ts| <= |vs|
  {
    if vs == [] then []
    else if Text(vs[0]).Some? then [Text(vs[0]).value] + Texts(vs[1..])
    else Texts(vs[1..])
  }

  /** Cursor and keys of a SCAN reply. */
  function ScanOf(v: Value): Result<(i64, seq<Str>)> {
    if !v.Array? then Err(Redis(ExpectedArray))
    else if |v.items| < 2 then Err(Redis(InvalidScanReply))
    else Ok((ScanCursor(v.items[0]), ScanKeys(v.items[1])))
  }

  function ScanCursor(v: Value): i64 {
    if v.Int? then v.i
    else if Text(v).Some? && ParseI64(Text(v).value).Some? then ParseI64(Text(v).value).value
    else 0
  }

  function ScanKeys(v: Value): seq<Str> {
    if v.Array? then Texts(v.items) else []
  }

  // ---------- Off the stream ----------

  function StreamEach<T>(s: bytes, n: int, f: Value -> Result<T>): (p: Parsed<seq<T>>)
    ensures |p.rest| <= |s|
    decreases n
  {
    if n < 0 then Parsed(Err(Panicked), s)
    else if n == 0 then Parsed(Ok([]), s)
    else
      match ParseReply(s)
      case Parsed(Err(e), rest) => Parsed(Err(e), rest)
      case Parsed(Ok(v), rest) =>
        match f(v)
        case Err(e) => Parsed(Err(e), rest)
        case Ok(x) => Collected([x], StreamEach(rest, n - 1, f))
  }

  function StreamPairs<T>(s: bytes, n: int, f: (Value, Value) -> Result<T>): (p: Parsed<seq<T>>)
    ensures |p.rest| <= |s|
    decreases n
  {
    if n < 0 then Parsed(Err(Panicked), s)
    else if n == 0 then Parsed(Ok([]), s)
    else
      match ParseReply(s)
      case Parsed(Err(e), rest) => Parsed(Err(e), rest)
      case Parsed(Ok(k), rest) =>
        match ParseReply(rest)
        case Parsed(Err(e), left) => Parsed(Err(e), left)
        case Parsed(Ok(v), left) =>
          match f(k, v)
          case Err(e) => Parsed(Err(e), left)
          case Ok(x) => Collected([x], StreamPairs(left, n - 1, f))
  }

  /** One turn of the element loop. */
  lemma StreamStep<T>(s: bytes, n: nat, f: Value -> Result<T>)
    requires n > 0
    ensures var p := ParseReply(s);
      StreamEach(s, n, f) ==
      if p.result.Err? then Parsed(Err(p.result.error), p.rest)
      else if f(p.result.value).Err? then Parsed(Err(f(p.result.value).error), p.rest)
      else Collected([f(p.result.value).value], StreamEach(p.rest, n - 1, f))
  {
  }

  lemma StreamDone<T>(s: bytes, n: int, f: Value -> Result<T>)
    requires n <= 0
    ensures StreamEach(s, n, f) == Parsed(if n < 0 then Err(Panicked) else Ok([]), s)
  {
  }

  /** One turn of the pair loop. */
  lemma PairsStep<T>(s: bytes, n: nat, f: (Value, Value) -> Result<T>)
    requires n > 0
    ensures var k := ParseReply(s); var v := ParseReply(k.rest);
      StreamPairs(s, n, f) ==
      if k.result.Err? then Parsed(Err(k.result.error), k.rest)
      else if v.result.Err? then Parsed(Err(v.result.error), v.rest)
      else if f(k.result.value, v.result.value).Err? then Parsed(Err(f(k.result.value, v.result.value).error), v.rest)
      else Collected([f(k.result.value, v.result.value).value], StreamPairs(v.rest, n - 1, f))
  {
  }

  lemma PairsDone<T>(s: bytes, n: int, f: (Value, Value) -> Result<T>)
    requires n <= 0
    ensures StreamPairs(s, n, f) == Parsed(if n < 0 then Err(Panicked) else Ok([]), s)
  {
  }

  /** Decoding while parsing succeeds exactly when parsing the array and decoding it does,
      with the same value and the same bytes left. */
  lemma {:induction false} FusedEach<T>(s: bytes, n: int, f: Value -> Result<T>, x: seq<T>, rest: bytes)
    requires f(Value.Nil).Err?
    ensures StreamEach(s, n, f) == Parsed(Ok(x), rest) <==>
      var p := ParseSlice(s, n);
      p.result.Ok? && p.rest == rest && Each(p.result.value, f) == Ok(x)
    decreases n
  {
    hide ParseReply, ParseSlice;
    if n <= 0 {
      SliceDone(s, n);
    } else {
      var p := ParseReply(s);
      SliceStep(s, n, p.result, p.rest);
      if !Fatal(p.result) {
        var q := ParseSlice(p.rest, n - 1);
        FusedEach(p.rest, n - 1, f, if x == [] then [] else x[1..], rest);
        if q.result.Ok? {
          assert ([AsElement(p.result)] + q.result.value)[1..] == q.result.value;
        }
      }
    }
  }

  /** Two turns of the element loop. */
  lemma TwoSteps(s: bytes, n: nat)
    requires n > 0
    ensures var k := ParseReply(s); var v := ParseReply(k.rest);
      if Fatal(k.result) || Fatal(v.result) then
        ParseSlice(s, 2 * n).result.Err?
      else
        ParseSlice(s, 2 * n) ==
        Collected([AsElement(k.result), AsElement(v.result)], ParseSlice(v.rest, 2 * (n - 1)))
  {
    hide ParseReply, ParseSlice, AsElement;
    var k := ParseReply(s);
    var v := ParseReply(k.rest);
    SliceStep(s, 2 * n, k.result, k.rest);
    SliceStep(k.rest, 2 * n - 1, v.result, v.rest);
    if !Fatal(k.result) && !Fatal(v.result) {
      var q := ParseSlice(v.rest, 2 * (n - 1)).result;
      if q.Ok? {
        var x, y := AsElement(k.result), AsElement(v.result);
        assert [x] + ([y] + q.value) == [x, y] + q.value;
      }
    }
  }

  lemma {:induction false} FusedPairs<T>(s: bytes, n: nat, f: (Value, Value) -> Result<T>, x: seq<T>, rest: bytes)
    requires forall v :: f(Value.Nil, v).Err? && f(v, Value.Nil).Err?
    ensures StreamPairs(s, n, f) == Parsed(Ok(x), rest) <==>
      var p := ParseSlice(s, 2 * n);
      p.result.Ok? && p.rest == rest && EachPair(p.result.value, f) == Ok(x)
    decreases n
  {
    hide ParseReply, ParseSlice;
    if n == 0 {
      SliceDone(s, 0);
    } else {
      var k := ParseReply(s);
      var v := ParseReply(k.rest);
      TwoSteps(s, n);
      if !Fatal(k.result) && !Fatal(v.result) {
        FusedPairs(v.rest, n - 1, f, if x == [] then [] else x[1..], rest);
        var q := ParseSlice(v.rest, 2 * (n - 1));
        if q.result.Ok? {
          assert ([AsElement(k.result), AsElement(v.result)] + q.result.value)[2..] == q.result.value;
        }
      }
    }
  }

  // ---------- Meaning of the decoders ----------

  /** `Each` succeeds exactly when every element decodes, and decodes position by position. */
  lemma {:induction false} EachMeans<T>(vs: seq<Value>, f: Value -> Result<T>)
    ensures Each(vs, f).Ok? <==> forall i :: 0 <= i < |vs| ==> f(vs[i]).Ok?
    ensures Each(vs, f).Ok? ==> forall i :: 0 <= i < |vs| ==> f(vs[i]) == Ok(Each(vs, f).value[i])
  {
    if vs != [] {
      EachMeans(vs[1..], f);
      forall i | 0 < i < |vs|
        ensures vs[i] == vs[1..][i - 1]
      {
      }
    }
  }

  /** `EachPair` decodes the pairs at even positions, all of them or none. */
  lemma {:induction false} EachPairMeans<T>(vs: seq<Value>, f: (Value, Value) -> Result<T>)
    ensures EachPair(vs, f).Ok? <==> forall i :: 0 <= i < |vs| / 2 ==> f(vs[2 * i], vs[2 * i + 1]).Ok?
    ensures EachPair(vs, f).Ok? ==>
      forall i :: 0 <= i < |vs| / 2 ==> f(vs[2 * i], vs[2 * i + 1]) == Ok(EachPair(vs, f).value[i])
  {
    if |vs| >= 2 {
      EachPairMeans(vs[2..], f);
      forall i | 0 < i < |vs| / 2
        ensures f(vs[2 * i], vs[2 * i + 1]) == f(vs[2..][2 * (i - 1)], vs[2..][2 * (i - 1) + 1])
      {
      }
      if forall i :: 0 <= i < |vs| / 2 ==> f(vs[2 * i], vs[2 * i + 1]).Ok? {
        assert f(vs[2 * 0], vs[2 * 0 + 1]).Ok?;
        forall j | 0 <= j < |vs[2..]| / 2
          ensures f(vs[2..][2 * j], vs[2..][2 * j + 1]).Ok?
        {
          assert f(vs[2 * (j + 1)], vs[2 * (j + 1) + 1]).Ok?;
        }
      }
    }
  }

  /** A failure is that of the first element that does not decode. */
  lemma {:induction false} EachFails<T>(vs: seq<Value>, f: Value -> Result<T>) returns (k: nat)
    requires Each(vs, f).Err?
    ensures k < |vs| && f(vs[k]).Err? && Each(vs, f) == Err(f(vs[k]).error)
    ensures forall j :: 0 <= j < k ==> f(vs[j]).Ok?
  {
    if f(vs[0]).Err? {
      k := 0;
    } else {
      var h := EachFails(vs[1..], f);
      k := h + 1;
      assert vs[1..][h] == vs[k];
      forall j | 0 < j < k
        ensures f(vs[j]).Ok?
      {
        assert vs[1..][j - 1] == vs[j];
      }
    }
  }

  /** A failure is that of the first pair that does not decode. */
  lemma {:induction false} EachPairFails<T>(vs: seq<Value>, f: (Value, Value) -> Result<T>) returns (k: nat)
    requires EachPair(vs, f).Err?
    ensures k < |vs| / 2 && f(vs[2 * k], vs[2 * k + 1]).Err?
    ensures EachPair(vs, f) == Err(f(vs[2 * k], vs[2 * k + 1]).error)
    ensures forall j :: 0 <= j < k ==> f(vs[2 * j], vs[2 * j + 1]).Ok?
  {
    if f(vs[0], vs[1]).Err? {
      k := 0;
    } else {
      var h := EachPairFails(vs[2..], f);
      k := h + 1;
      forall j | 0 < j <= k
        ensures vs[2..][2 * (j - 1)] == vs[2 * j] && vs[2..][2 * (j - 1) + 1] == vs[2 * j + 1]
      {
      }
      forall j | 0 <= j < k
        ensures f(vs[2 * j], vs[2 * j + 1]).Ok?
      {
        if j > 0 { assert f(vs[2..][2 * (j - 1)], vs[2..][2 * (j - 1) + 1]).Ok?; }
      }
    }
  }

  // ---------- By constructor ----------

  /** Texts are bulk strings and statuses, taken as they are. */
  lemma StringsMean(vs: seq<Value>)
    ensures var o := Each(vs, AsText);
      (o.Ok? <==> forall i :: 0 <= i < |vs| ==> vs[i].BulkString? || vs[i].Status?) &&
      (o.Ok? ==> forall i :: 0 <= i < |vs| ==> vs[i] == BulkString(o.value[i]) || vs[i] == Status(o.value[i])) &&
      (o.Err? ==> o.error == Redis(ExpectedString))
  {
    hide Each;
    EachMeans(vs, AsText);
    if Each(vs, AsText).Err? { var k := EachFails(vs, AsText); }
  }

  /** Flags are integers, set when 1. */
  lemma FlagsMean(vs: seq<Value>)
    ensures var o := Each(vs, AsFlag);
      (o.Ok? <==> forall i :: 0 <= i < |vs| ==> vs[i].Int?) &&
      (o.Ok? ==> forall i :: 0 <= i < |vs| ==> (o.value[i] <==> vs[i] == Int(1))) &&
      (o.Err? ==> o.error == Redis(ExpectedInteger))
  {
    hide Each;
    EachMeans(vs, AsFlag);
    if Each(vs, AsFlag).Err? { var k := EachFails(vs, AsFlag); }
  }

  /** The texts at even positions, each with the text behind it. */
  ghost predicate ArePairs(vs: seq<Value>, pairs: seq<(Str, Str)>) {
    |pairs| == |vs| / 2 &&
    forall i :: 0 <= i < |pairs| ==>
      (vs[2 * i] == BulkString(pairs[i].0) || vs[2 * i] == Status(pairs[i].0)) &&
      (vs[2 * i + 1] == BulkString(pairs[i].1) || vs[2 * i + 1] == Status(pairs[i].1))
  }

  lemma PairMeans(k: Value, v: Value)
    ensures AsPair(k, v).Ok? <==> (k.BulkString? || k.Status?) && (v.BulkString? || v.Status?)
    ensures AsPair(k, v).Ok? ==>
      (k == BulkString(AsPair(k, v).value.0) || k == Status(AsPair(k, v).value.0)) &&
      (v == BulkString(AsPair(k, v).value.1) || v == Status(AsPair(k, v).value.1))
    ensures AsPair(k, v).Err? ==> AsPair(k, v).error == Redis(ExpectedString)
  {
  }

  lemma PairsMean(vs: seq<Value>)
    ensures var o := EachPair(vs, AsPair);
      (o.Ok? <==> forall i :: 0 <= i < |vs| / 2 ==>
        (vs[2 * i].BulkString? || vs[2 * i].Status?) && (vs[2 * i + 1].BulkString? || vs[2 * i + 1].Status?)) &&
      (o.Ok? ==> ArePairs(vs, o.value)) &&
      (o.Err? ==> o.error == Redis(ExpectedString))
  {
    hide EachPair, AsPair;
    if EachPair(vs, AsPair).Ok? {
      EachPairMeans(vs, AsPair);
      forall i | 0 <= i < |vs| / 2
        ensures AsPair(vs[2 * i], vs[2 * i + 1]) == Ok(EachPair(vs, AsPair).value[i])
        ensures vs[2 * i].BulkString? || vs[2 * i].Status?
        ensures vs[2 * i + 1].BulkString? || vs[2 * i + 1].Status?
      {
        PairMeans(vs[2 * i], vs[2 * i + 1]);
      }
      ArePairsIf(vs, EachPair(vs, AsPair).value);
    } else {
      var k := EachPairFails(vs, AsPair);
      PairMeans(vs[2 * k], vs[2 * k + 1]);
    }
  }

  lemma ArePairsIf(vs: seq<Value>, pairs: seq<(Str, Str)>)
    requires |pairs| == |vs| / 2
    requires forall i :: 0 <= i < |pairs| ==> AsPair(vs[2 * i], vs[2 * i + 1]) == Ok(pairs[i])
    ensures ArePairs(vs, pairs)
  {
    hide AsPair;
    forall i | 0 <= i < |pairs|
      ensures vs[2 * i] == BulkString(pairs[i].0) || vs[2 * i] == Status(pairs[i].0)
      ensures vs[2 * i + 1] == BulkString(pairs[i].1) || vs[2 * i + 1] == Status(pairs[i].1)
    {
      PairMeans(vs[2 * i], vs[2 * i + 1]);
    }
  }

  /** Member and score are texts, and the score's text is a number. */
  ghost predicate IsScored<S>(parseFloat: Str -> Option<S>, member: Value, score: Value, z: Z<S>) {
    (member == BulkString(z.member) || member == Status(z.member)) &&
    ((score.BulkString? && parseFloat(score.payload) == Some(z.score)) ||
     (score.Status? && parseFloat(score.text) == Some(z.score)))
  }

  /** One of them is no text, or the score's text is no number. */
  ghost predicate Unscored<S>(parseFloat: Str -> Option<S>, member: Value, score: Value, e: Error) {
    if !(member.BulkString? || member.Status?) || !(score.BulkString? || score.Status?) then e == Redis(ExpectedString)
    else e == Redis(InvalidFloat) && parseFloat(if score.BulkString? then score.payload else score.text) == None
  }

  lemma ScoredMean<S>(parseFloat: Str -> Option<S>, member: Value, score: Value)
    ensures var o := Scored(parseFloat)(member, score);
      if o.Ok? then IsScored(parseFloat, member, score, o.value) else Unscored(parseFloat, member, score, o.error)
  {
  }

  /** Members with scores, pair by pair. */
  lemma ScoresMean<S>(parseFloat: Str -> Option<S>, vs: seq<Value>)
    requires EachPair(vs, Scored(parseFloat)).Ok?
    ensures forall i :: 0 <= i < |vs| / 2 ==>
      IsScored(parseFloat, vs[2 * i], vs[2 * i + 1], EachPair(vs, Scored(parseFloat)).value[i])
  {
    hide EachPair, IsScored, Scored;
    EachPairMeans(vs, Scored(parseFloat));
    forall i | 0 <= i < |vs| / 2
      ensures IsScored(parseFloat, vs[2 * i], vs[2 * i + 1], EachPair(vs, Scored(parseFloat)).value[i])
    {
      ScoredMean(parseFloat, vs[2 * i], vs[2 * i + 1]);
    }
  }

  ghost predicate FirstUnscored<S>(parseFloat: Str -> Option<S>, vs: seq<Value>, k: int, e: Error) {
    0 <= k < |vs| / 2 && Unscored(parseFloat, vs[2 * k], vs[2 * k + 1], e) &&
    forall j :: 0 <= j < k ==> Scored(parseFloat)(vs[2 * j], vs[2 * j + 1]).Ok?
  }

  /** The first pair that is not one decides the error. */
  lemma ScoresFail<S>(parseFloat: Str -> Option<S>, vs: seq<Value>) returns (k: nat)
    requires EachPair(vs, Scored(parseFloat)).Err?
    ensures k < |vs| / 2 && Unscored(parseFloat, vs[2 * k], vs[2 * k + 1], EachPair(vs, Scored(parseFloat)).error)
    ensures forall j :: 0 <= j < k ==> Scored(parseFloat)(vs[2 * j], vs[2 * j + 1]).Ok?
  {
    hide EachPair, Scored, Unscored;
    k := EachPairFails(vs, Scored(parseFloat));
    ScoredMean(parseFloat, vs[2 * k], vs[2 * k + 1]);
  }

  /** The texts kept, in order. */
  lemma TextsMean(v: Value, vs: seq<Value>)
    ensures Texts([]) == []
    ensures v.BulkString? ==> Texts([v] + vs) == [v.payload] + Texts(vs)
    ensures v.Status? ==> Texts([v] + vs) == [v.text] + Texts(vs)
    ensures v.Nil? || v.Int? || v.Array? ==> Texts([v] + vs) == Texts(vs)
  {
    assert ([v] + vs)[1..] == vs;
  }

  /** Cursor and keys of a SCAN reply: a missing or unreadable cursor is 0, missing keys are none. */
  lemma ScanMeans(v: Value)
    ensures ScanOf(v).Ok? <==> v.Array? && |v.items| >= 2
    ensures ScanOf(v).Err? ==> ScanOf(v).error == Redis(if v.Array? then InvalidScanReply else ExpectedArray)
    ensures ScanOf(v).Ok? ==> v.items[0].Int? ==> ScanOf(v).value.0 == v.items[0].i
    ensures ScanOf(v).Ok? ==> v.items[0].BulkString? ==> ScanOf(v).value.0 == UnwrapOr(ParseI64(v.items[0].payload), 0)
    ensures ScanOf(v).Ok? ==> v.items[0].Status? ==> ScanOf(v).value.0 == UnwrapOr(ParseI64(v.items[0].text), 0)
    ensures ScanOf(v).Ok? ==> v.items[0].Nil? || v.items[0].Array? ==> ScanOf(v).value.0 == 0
    ensures ScanOf(v).Ok? ==> ScanOf(v).value.1 == if v.items[1].Array? then Texts(v.items[1].items) else []
  {
    hide ParseI64;
  }

  /** Position `i` holds the last pair with that key. */
  ghost predicate IsLast(pairs: seq<(Str, Str)>, i: int, key: Str) {
    0 <= i < |pairs| && pairs[i].0 == key && forall j :: i < j < |pairs| ==> pairs[j].0 != key
  }

  /** The value at a key is the one written last. */
  lemma {:induction false} LastWriteWins(pairs: seq<(Str, Str)>, i: nat, key: Str)
    requires IsLast(pairs, i, key)
    ensures key in MapOf(pairs) && MapOf(pairs)[key] == pairs[i].1
  {
    var k := |pairs| - 1;
    if i < k {
      assert pairs[k].0 != key;
      assert IsLast(pairs[..k], i, key);
      LastWriteWins(pairs[..k], i, key);
    }
  }

  /** Every key was written. */
  lemma {:induction false} KeysWereWritten(pairs: seq<(Str, Str)>, key: Str)
    requires key in MapOf(pairs)
    ensures exists i :: IsLast(pairs, i, key)
  {
    var k := |pairs| - 1;
    if pairs[k].0 == key {
      assert IsLast(pairs, k, key);
    } else {
      KeysWereWritten(pairs[..k], key);
      var i :| IsLast(pairs[..k], i, key);
      assert IsLast(pairs, i, key);
    }
  }
}
