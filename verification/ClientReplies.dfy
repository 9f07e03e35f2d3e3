/** The client's own, more lenient, decoders of array replies. */
module ClientReplies {
  import opened Bytes
  import opened Utf8
  import opened Values
  import opened Decode
  import opened Parser
  import opened Resp
  import opened Canonical

  // ---------- Members with scores ----------

  /** Pairs of neighbouring texts, skipping whatever is not a text. */
  function LenientZ<S>(parseFloat: Str -> Option<S>, vs: seq<Value>): Result<seq<Z<S>>> {
    if |vs| < 2 then Ok([])
    else if Text(vs[0]).None? || Text(vs[1]).None? then LenientZ(parseFloat, vs[1..])
    else
      match parseFloat(Text(vs[1]).value)
      case None => Err(Other)
      case Some(x) => Onto([Z(x, Text(vs[0]).value)], LenientZ(parseFloat, vs[2..]))
  }

  method ArrayToZVec<S>(arr: seq<Value>, parseFloat: Str -> Option<S>) returns (r: Result<seq<Z<S>>>)
    ensures r == LenientZ(parseFloat, arr)
  {
    var zz: seq<Z<S>> := [];
    var i := 0;
    assert arr[0..] == arr;
    NothingYet(LenientZ(parseFloat, arr));
    while i + 1 < |arr|
      invariant i <= |arr|
      invariant LenientZ(parseFloat, arr) == Onto(zz, LenientZ(parseFloat, arr[i..]))
    {
      assert arr[i..][1..] == arr[i + 1..];
      var member := Text(arr[i]);
      if member.None? {
        i := i + 1;
        continue;
      }
      var scoreText := Text(arr[i + 1]);
      if scoreText.None? {
        i := i + 1;
        continue;
      }
      var score := parseFloat(scoreText.value);
      if score.None? {
        return Err(Other);
      }
      assert arr[i..][2..] == arr[i + 2..];
      OneMore(zz, Z(score.value, member.value), LenientZ(parseFloat, arr[i + 2..]));
      zz := zz + [Z(score.value, member.value)];
      i := i + 2;
    }
    Everything(zz);
    return Ok(zz);
  }

  /** One result after another; the first error wins. */
  function Then<T>(a: Result<seq<T>>, b: Result<seq<T>>): Result<seq<T>> {
    if a.Ok? then Onto(a.value, b) else a
  }

  /** Anything but a text splits the array into independent parts. */
  lemma {:induction false} SplitsAtSeparator<S>(parseFloat: Str -> Option<S>, a: seq<Value>, x: Value, b: seq<Value>)
    requires x.Nil? || x.Int? || x.Array?
    ensures LenientZ(parseFloat, a + [x] + b) == Then(LenientZ(parseFloat, a), LenientZ(parseFloat, b))
  {
    var vs := a + [x] + b;
    if |a| >= 2 {
      assert vs[0] == a[0] && vs[1] == a[1];
      if Text(a[0]).None? || Text(a[1]).None? {
        assert vs[1..] == a[1..] + [x] + b;
        SplitsAtSeparator(parseFloat, a[1..], x, b);
      } else if parseFloat(Text(a[1]).value).Some? {
        assert vs[2..] == a[2..] + [x] + b;
        SplitsAtSeparator(parseFloat, a[2..], x, b);
        var head := [Z(parseFloat(Text(a[1]).value).value, Text(a[0]).value)];
        OntoOnto(head, LenientZ(parseFloat, a[2..]), LenientZ(parseFloat, b));
      }
    } else {
      NothingYet(LenientZ(parseFloat, b));
      if |a| == 1 {
        assert vs[1..] == [x] + b;
      } else {
        assert vs == [x] + b;
      }
      assert ([x] + b)[1..] == b;
    }
  }

  lemma OntoOnto<T>(head: seq<T>, a: Result<seq<T>>, b: Result<seq<T>>)
    ensures Onto(head, Then(a, b)) == Then(Onto(head, a), b)
  {
    if a.Ok? && b.Ok? {
      assert head + (a.value + b.value) == (head + a.value) + b.value;
    }
  }

  ghost predicate AllText(vs: seq<Value>) {
    forall i :: 0 <= i < |vs| ==> vs[i].BulkString? || vs[i].Status?
  }

  /** A run of texts gives one pair for every two of them, each member with its score, or fails at
      the first score that is no number. */
  lemma {:induction false} RunMeans<S>(parseFloat: Str -> Option<S>, vs: seq<Value>)
    requires AllText(vs)
    ensures var o := LenientZ(parseFloat, vs);
      if o.Ok? then
        |o.value| == |vs| / 2 &&
        forall i :: 0 <= i < |o.value| ==> IsScored(parseFloat, vs[2 * i], vs[2 * i + 1], o.value[i])
      else
        o.error == Other && EachPair(vs, Scored(parseFloat)) == Err(Redis(InvalidFloat))
  {
    RunIsStrict(parseFloat, vs);
    if EachPair(vs, Scored(parseFloat)).Ok? { ScoresMean(parseFloat, vs); }
  }

  lemma {:induction false} RunIsStrict<S>(parseFloat: Str -> Option<S>, vs: seq<Value>)
    requires AllText(vs)
    ensures var strict := EachPair(vs, Scored(parseFloat));
      LenientZ(parseFloat, vs) == if strict.Ok? then strict else Err(Other)
    ensures EachPair(vs, Scored(parseFloat)).Err? ==> EachPair(vs, Scored(parseFloat)).error == Redis(InvalidFloat)
  {
    if |vs| >= 2 { RunIsStrict(parseFloat, vs[2..]); }
  }

  /** Whenever the strict decoder accepts, the lenient one returns the same. */
  lemma {:induction false} LenientAgreesWithStrict<S>(parseFloat: Str -> Option<S>, vs: seq<Value>)
    ensures var strict := EachPair(vs, Scored(parseFloat));
      strict.Ok? ==> LenientZ(parseFloat, vs) == strict
  {
    if |vs| >= 2 {
      LenientAgreesWithStrict(parseFloat, vs[2..]);
    }
  }

  // ---------- HGETALL ----------

  /** The loop of `hget_all` for at most `fuel` turns: it does not advance over a non-text. */
  function HGetAllRun(arr: seq<Value>, i: nat, m: map<Str, Str>, fuel: nat): Option<map<Str, Str>>
    decreases fuel
  {
    if i + 1 >= |arr| then Some(m)
    else if fuel == 0 then None
    else if Text(arr[i]).None? || Text(arr[i + 1]).None? then HGetAllRun(arr, i, m, fuel - 1)
    else HGetAllRun(arr, i + 2, m[Text(arr[i]).value := Text(arr[i + 1]).value], fuel - 1)
  }

  lemma {:induction false} Stuck(arr: seq<Value>, i: nat, m: map<Str, Str>, fuel: nat)
    requires i <= |arr| && EachPair(arr[i..], AsPair).Err?
    ensures HGetAllRun(arr, i, m, fuel).None?
    decreases fuel
  {
    if fuel > 0 {
      if Text(arr[i]).None? || Text(arr[i + 1]).None? {
        Stuck(arr, i, m, fuel - 1);
      } else {
        assert arr[i..][2..] == arr[i + 2..];
        Stuck(arr, i + 2, m[Text(arr[i]).value := Text(arr[i + 1]).value], fuel - 1);
      }
    }
  }

  lemma {:induction false} Finishes(arr: seq<Value>, i: nat, pairs: seq<(Str, Str)>, fuel: nat)
    requires i <= |arr| && EachPair(arr[i..], AsPair).Ok? && fuel >= |arr| - i
    ensures HGetAllRun(arr, i, MapOf(pairs), fuel) == Some(MapOf(pairs + EachPair(arr[i..], AsPair).value))
    decreases fuel
  {
    if i + 1 < |arr| {
      assert arr[i..][2..] == arr[i + 2..];
      var pair := (Text(arr[i]).value, Text(arr[i + 1]).value);
      var more := pairs + [pair];
      OneMorePair(pairs, pair.0, pair.1);
      Finishes(arr, i + 2, more, fuel - 1);
      var rest := EachPair(arr[i + 2..], AsPair).value;
      assert more + rest == pairs + ([pair] + rest);
    } else {
      assert pairs + [] == pairs;
    }
  }

  /** `hget_all` returns exactly when its array pairs up texts, that is, when the strict map
      decoder accepts it, and then with the same map. Otherwise it loops for ever. */
  lemma HGetAllTerminates(arr: seq<Value>)
    ensures (exists fuel: nat :: HGetAllRun(arr, 0, map[], fuel).Some?) <==> EachPair(arr, AsPair).Ok?
    ensures forall fuel: nat :: HGetAllRun(arr, 0, map[], fuel).Some? ==>
      Ok(HGetAllRun(arr, 0, map[], fuel).value) == AsMap(EachPair(arr, AsPair))
  {
    assert arr[0..] == arr;
    if EachPair(arr, AsPair).Ok? {
      assert MapOf([]) == map[];
      Finishes(arr, 0, [], |arr|);
      assert [] + EachPair(arr, AsPair).value == EachPair(arr, AsPair).value;
      forall fuel: nat | HGetAllRun(arr, 0, map[], fuel).Some?
        ensures HGetAllRun(arr, 0, map[], fuel) == HGetAllRun(arr, 0, map[], |arr|)
      {
        if fuel >= |arr| { Finishes(arr, 0, [], fuel); } else { MoreFuel(arr, 0, map[], fuel, |arr|); }
      }
    } else {
      forall fuel: nat
        ensures HGetAllRun(arr, 0, map[], fuel).None?
      {
        Stuck(arr, 0, map[], fuel);
      }
    }
  }

  /** Such a reply can arrive: an array of two nulls parses, and keeps the loop going for ever. */
  lemma HGetAllHangs(tail: bytes)
    ensures var arr := [Value.Nil, Value.Nil];
      ParseReply(Encode(ToReply(Value.Array(arr))) + tail) == Parsed(Ok(Value.Array(arr)), tail) &&
      forall fuel: nat :: HGetAllRun(arr, 0, map[], fuel).None?
  {
    hide ParseReply, Encode, HGetAllRun;
    var arr := [Value.Nil, Value.Nil];
    assert arr[1..] == [Value.Nil] && arr[1..][1..] == [];
    FitIsSendable(Value.Array(arr));
    ReplyMeans(Value.Array(arr));
    NoLeftover(ToReply(Value.Array(arr)));
    RoundTrip(ToReply(Value.Array(arr)), tail);
    assert [] + tail == tail;
    HGetAllTerminates(arr);
  }

  lemma {:induction false} MoreFuel(arr: seq<Value>, i: nat, m: map<Str, Str>, less: nat, more: nat)
    requires less <= more && HGetAllRun(arr, i, m, less).Some?
    ensures HGetAllRun(arr, i, m, more) == HGetAllRun(arr, i, m, less)
    decreases less
  {
    if i + 1 < |arr| {
      if Text(arr[i]).None? || Text(arr[i + 1]).None? {
        MoreFuel(arr, i, m, less - 1, more - 1);
      } else {
        MoreFuel(arr, i + 2, m[Text(arr[i]).value := Text(arr[i + 1]).value], less - 1, more - 1);
      }
    }
  }

  /** The loop itself, for at most `turns` turns: the map if it ended by then. */
  method HGetAllPairs(arr: seq<Value>, turns: nat) returns (r: Option<map<Str, Str>>)
    ensures r == HGetAllRun(arr, 0, map[], turns)
    ensures r.Some? ==> Ok(r.value) == AsMap(EachPair(arr, AsPair))
    ensures EachPair(arr, AsPair).Ok? && turns >= |arr| ==> r.Some?
  {
    HGetAllTerminates(arr);
    if EachPair(arr, AsPair).Ok? && turns >= |arr| {
      assert arr[0..] == arr;
      NoPairs();
      Finishes(arr, 0, [], turns);
    }
    var m: map<Str, Str> := map[];
    var i, left := 0, turns;
    while i + 1 < |arr|
      invariant HGetAllRun(arr, 0, map[], turns) == HGetAllRun(arr, i, m, left)
      decreases left
    {
      if left == 0 {
        return None;
      }
      left := left - 1;
      var k := Text(arr[i]);
      if k.None? {
        continue;
      }
      var v := Text(arr[i + 1]);
      if v.None? {
        continue;
      }
      m := m[k.value := v.value];
      i := i + 2;
    }
    return Some(m);
  }

  // ---------- Plain element filters ----------

  function ArrayToOptionStrings(vs: seq<Value>): (os: seq<Option<Str>>)
    ensures |os| == |vs|
    ensures forall i :: 0 <= i < |vs| ==>
      if os[i].Some? then vs[i] == BulkString(os[i].value) || vs[i] == Status(os[i].value)
      else vs[i].Nil? || vs[i].Int? || vs[i].Array?
  {
    if vs == [] then [] else [Text(vs[0])] + ArrayToOptionStrings(vs[1..])
  }

  /** Dropping what is missing from the optional strings gives the plain strings. */
  lemma {:induction false} OptionStringsRefineStrings(vs: seq<Value>)
    ensures Present(ArrayToOptionStrings(vs)) == Texts(vs)
  {
    if vs != [] {
      OptionStringsRefineStrings(vs[1..]);
      assert ArrayToOptionStrings(vs)[1..] == ArrayToOptionStrings(vs[1..]);
    }
  }

  function Present(os: seq<Option<Str>>): seq<Str> {
    if os == [] then []
    else if os[0].Some? then [os[0].value] + Present(os[1..])
    else Present(os[1..])
  }
}
