/** What the parser consumes: frames end where they say they end, parsed trees are no larger
    than their text, and every parsed value has a canonical text. */
module Frames {
  import opened Bytes
  import opened Decimal
  import opened Values
  import opened Parser
  import opened Resp

  // ---------- Suffixes ----------

  lemma {:induction false} ReplySuffix(s: bytes)
    ensures IsSuffix(ParseReply(s).rest, s)
    decreases |s|, 0, 1
  {
    var line := ReadLine(s);
    if line.result.Ok? && line.result.value != [] {
      DispatchSuffix(line.result.value[0], line.result.value[1..], line.rest);
      SuffixTransitive(ParseReply(s).rest, line.rest, s);
    }
  }

  lemma {:induction false} DispatchSuffix(first: byte, body: bytes, s: bytes)
    ensures IsSuffix(Dispatch(first, body, s).rest, s)
    decreases |s| + 1, 0, 0
  {
    hide ParseSlice;
    if first == STAR && body != NIL_TAIL && ParseI64(body).Some? {
      SliceSuffix(s, ParseI64(body).value);
    }
  }

  lemma {:induction false} SliceSuffix(s: bytes, n: int)
    ensures IsSuffix(ParseSlice(s, n).rest, s)
    decreases |s|, if n < 0 then 0 else n, 0
  {
    hide IsSuffix, ParseReply;
    if n <= 0 {
      SuffixOfItself(s);
    } else {
      var p := ParseReply(s);
      ReplySuffix(s);
      SliceStep(s, n, p.result, p.rest);
      if !Fatal(p.result) {
        SliceSuffix(p.rest, n - 1);
        SuffixTransitive(ParseSlice(s, n).rest, p.rest, s);
      }
    }
  }

  // ---------- Self-delimiting ----------

  lemma {:induction false} LineLenKnown(u: bytes, a: bytes, b: bytes)
    requires a != [] && LineLen(u + a) <= |u|
    ensures LineLen(u + b) == LineLen(u + a)
  {
    if u != [] && u[0] != LF {
      assert (u + a)[1..] == u[1..] + a && (u + b)[1..] == u[1..] + b;
      LineLenKnown(u[1..], a, b);
    }
  }

  lemma SuffixDrop(u: bytes, a: bytes, rest: bytes)
    requires IsSuffix(rest, u + a) && |rest| >= |a|
    ensures var k := |u + a| - |rest|; k <= |u| && rest == u[k..] + a
  {
  }

  lemma FrameLine(u: bytes, a: bytes, b: bytes)
    requires a != []
    requires var p := ReadLine(u + a); p.result.Ok? && |p.rest| >= |a|
    ensures var k := LineLen(u + a);
      k <= |u| &&
      ReadLine(u + a) == Parsed(ReadLine(u + a).result, u[k..] + a) &&
      ReadLine(u + b) == Parsed(ReadLine(u + a).result, u[k..] + b)
  {
    hide LineLen, Strip, IsSuffix;
    var k := LineLen(u + a);
    LineLenKnown(u, a, b);
    assert (u + a)[..k] == u[..k];
    assert (u + b)[..k] == u[..k];
    assert (u + a)[k..] == u[k..] + a;
    assert (u + b)[k..] == u[k..] + b;
  }

  lemma FrameBulk(header: bytes, u: bytes, a: bytes, b: bytes)
    requires a != [] && ParseBulk(header, u + a).rest == a
    ensures ParseBulk(header, u + b) == Parsed(ParseBulk(header, u + a).result, b)
  {
    var n := ParseUsize(header);
    if header == NIL_TAIL || n.None? || n.value + 2 > USIZE_MAX {
      EmptyPrefix(u, a, b);
    } else {
      var k := n.value + 2;
      assert k == |u|;
      assert (u + a)[..k] == u == (u + b)[..k];
      assert (u + b)[k..] == b;
    }
  }

  lemma EmptyPrefix(u: bytes, a: bytes, b: bytes)
    requires u + a == a
    ensures u + b == b
  {
    assert |u| == 0;
  }

  /** A parse that stops in front of `a` stops there whatever follows: the bytes consumed
      decide the result, for values, nil and errors alike. */
  lemma {:induction false} Frame(u: bytes, a: bytes, b: bytes)
    requires a != [] && ParseReply(u + a).rest == a && ParseReply(u + a).result != Err(TOO_LONG)
    ensures ParseReply(u + b) == Parsed(ParseReply(u + a).result, b)
    decreases |u|, 0, 1
  {
    var line := ReadLine(u + a);
    if line.result.Ok? {
      FrameLine(u, a, b);
      var k := LineLen(u + a);
      var body := line.result.value;
      if body == [] {
        EmptyPrefix(u[k..], a, b);
      } else {
        FrameDispatch(body[0], body[1..], u[k..], a, b);
      }
    }
  }

  lemma {:induction false} FrameDispatch(first: byte, body: bytes, u: bytes, a: bytes, b: bytes)
    requires a != []
    requires Dispatch(first, body, u + a).rest == a && Dispatch(first, body, u + a).result != Err(TOO_LONG)
    ensures Dispatch(first, body, u + b) == Parsed(Dispatch(first, body, u + a).result, b)
    decreases |u| + 1, 0, 0
  {
    if first == DOLLAR {
      FrameBulk(body, u, a, b);
    } else if first == STAR && body != NIL_TAIL && ParseI64(body).Some? {
      FrameSlice(ParseI64(body).value, u, a, b);
    } else {
      EmptyPrefix(u, a, b);
    }
  }

  lemma {:induction false} FrameSlice(n: int, u: bytes, a: bytes, b: bytes)
    requires a != []
    requires ParseSlice(u + a, n).rest == a && ParseSlice(u + a, n).result != Err(TOO_LONG)
    ensures ParseSlice(u + b, n) == Parsed(ParseSlice(u + a, n).result, b)
    decreases |u|, if n < 0 then 0 else n, 0
  {
    hide ParseReply, ParseSlice, IsSuffix, AsElement;
    if n <= 0 {
      SliceDone(u + a, n);
      SliceDone(u + b, n);
      EmptyPrefix(u, a, b);
    } else {
      var p := ParseReply(u + a);
      SliceStep(u + a, n, p.result, p.rest);
      var k := FrameFirst(u, a, b);
      SliceStep(u + b, n, p.result, u[k..] + b);
      if Fatal(p.result) {
        EmptyPrefix(u[k..], a, b);
      } else {
        FrameSlice(n - 1, u[k..], a, b);
      }
    }
  }

  /** The first element alone is a frame, `k` bytes long. */
  lemma {:induction false} FrameFirst(u: bytes, a: bytes, b: bytes) returns (k: nat)
    requires a != []
    requires var p := ParseReply(u + a); |p.rest| >= |a| && p.result != Err(TOO_LONG)
    ensures k <= |u|
    ensures ParseReply(u + a) == Parsed(ParseReply(u + a).result, u[k..] + a)
    ensures ParseReply(u + b) == Parsed(ParseReply(u + a).result, u[k..] + b)
    decreases |u|, 0, 2
  {
    hide ParseReply, IsSuffix;
    var p := ParseReply(u + a);
    ReplySuffix(u + a);
    SuffixDrop(u, a, p.rest);
    k := |u + a| - |p.rest|;
    assert u[..k] + (u[k..] + a) == u + a && u[..k] + (u[k..] + b) == u + b;
    Frame(u[..k], u[k..] + a, u[k..] + b);
  }

  /** The bytes consumed by a parse that leaves something unread, and their independence of it. */
  lemma {:induction false} SelfDelimiting(s: bytes, tail: bytes)
    requires var p := ParseReply(s); p.rest != [] && p.result != Err(TOO_LONG)
    ensures var p := ParseReply(s); var used := s[..|s| - |p.rest|];
      IsSuffix(p.rest, s) && ParseReply(used + tail) == Parsed(p.result, tail)
  {
    var p := ParseReply(s);
    ReplySuffix(s);
    SuffixSplit(p.rest, s);
    Frame(s[..|s| - |p.rest|], p.rest, tail);
  }
}
