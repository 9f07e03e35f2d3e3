/** Bytes, byte strings and the few sequence facts the protocol layers share. */
module Bytes {
  type byte = b: int | 0 <= b < 256

  type bytes = seq<byte>

  const CR: byte := 13
  const LF: byte := 10
  const CRLF: bytes := [CR, LF]
  const PLUS: byte := 43
  const MINUS: byte := 45
  const COLON: byte := 58
  const DOLLAR: byte := 36
  const STAR: byte := 42
  const ZERO: byte := 48

  datatype Option<+T> = None | Some(value: T)

  function UnwrapOr<T>(o: Option<T>, default: T): T {
    if o.Some? then o.value else default
  }

  /** All chunks joined, in order. */
  function Flatten<T>(chunks: seq<seq<T>>): seq<T> {
    if chunks == [] then [] else chunks[0] + Flatten(chunks[1..])
  }

  lemma {:induction false} FlattenAppend<T>(a: seq<seq<T>>, b: seq<seq<T>>)
    ensures Flatten(a + b) == Flatten(a) + Flatten(b)
  {
    if a == [] {
      assert a + b == b;
    } else {
      assert (a + b)[1..] == a[1..] + b;
      FlattenAppend(a[1..], b);
      Assoc(a[0], Flatten(a[1..]), Flatten(b));
    }
  }

  lemma Assoc<T>(a: seq<T>, b: seq<T>, c: seq<T>)
    ensures (a + b) + c == a + (b + c)
  {
  }

  ghost predicate IsSuffix<T>(tail: seq<T>, s: seq<T>) {
    |tail| <= |s| && s[|s| - |tail|..] == tail
  }

  lemma SuffixOfItself<T>(s: seq<T>)
    ensures IsSuffix(s, s)
  {
  }

  lemma SuffixTransitive<T>(a: seq<T>, b: seq<T>, c: seq<T>)
    requires IsSuffix(a, b) && IsSuffix(b, c)
    ensures IsSuffix(a, c)
  {
    assert c[|c| - |a|..] == c[|c| - |b|..][|b| - |a|..];
  }

  lemma SuffixSplit<T>(tail: seq<T>, s: seq<T>)
    requires IsSuffix(tail, s)
    ensures s == s[..|s| - |tail|] + tail
  {
  }
}
