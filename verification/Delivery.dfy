/** When the pieces a socket delivers end where the replies end, an exchange reads exactly those
    pieces: its buffer is empty again, and whatever is still to come has not been touched. */
module Delivery {
  import opened Bytes
  import opened Values
  import opened Resp
  import opened Reader
  import opened Exchange
  import P = Parser

  /** No reply's outcome is that of a line that is too long. */
  lemma {:induction false} NeverTooLong(r: Reply)
    ensures Outcome(r) != Err(TOO_LONG)
    decreases r, 0
  {
    if r.Array? { NeverTooLongAll(r.elements); }
  }

  lemma {:induction false} NeverTooLongAll(rs: seq<Reply>)
    ensures Elements(rs) != Err(TOO_LONG)
    decreases rs, 0
  {
    if rs != [] {
      hide Outcome, Onto;
      NeverTooLong(rs[0]);
      NeverTooLongAll(rs[1..]);
    }
  }

  /** What was read ends where the delivered pieces end. */
  lemma ReadToTheEnd<T>(arrivals: seq<bytes>, text: bytes, later: seq<bytes>, p: Parsed<T>, r: Result<T>,
      buf: bytes, after: seq<bytes>)
    requires Delivered([], arrivals, text, later) && p.rest == Flatten(later) && p.result != Err(TOO_LONG)
    requires Agrees(p, Flatten(arrivals), r, buf + Flatten(after))
    requires r != Err(TOO_LONG) ==> Lazy(arrivals, |buf + Flatten(after)|, after)
    requires forall i :: 0 <= i < |after| ==> after[i] != []
    ensures r == p.result && buf == [] && after == later
  {
    hide Lazy, Flatten;
    Drained(arrivals, text, later, buf, after);
  }

  /** What a reading operation promises: it agrees with the flat parser, and is lazy. */
  ghost predicate Honest<T>(was: bytes, arrivals: seq<bytes>, p: Parsed<T>, r: Result<T>, buf: bytes, after: seq<bytes>) {
    Agrees(p, was + Flatten(arrivals), r, buf + Flatten(after)) &&
    (r != Err(TOO_LONG) ==> Lazy(arrivals, |buf + Flatten(after)|, after)) &&
    forall i :: 0 <= i < |after| ==> after[i] != []
  }

  /** For whatever one reply the next pieces hold: it is the result, and they are all that was read. */
  ghost predicate OneWhole(was: bytes, arrivals: seq<bytes>, r: Result<Value>, buf: bytes, after: seq<bytes>) {
    forall reply, later ::
      Sendable(reply) && Leftover(reply) == [] && Delivered(was, arrivals, Encode(reply), later) ==>
      r == Outcome(reply) && buf == [] && after == later
  }

  /** For whatever `n` successful replies they hold. */
  ghost predicate AllWhole(was: bytes, arrivals: seq<bytes>, n: nat, r: Result<seq<Value>>, buf: bytes, after: seq<bytes>) {
    forall replies, later ::
      |replies| == n && AllSendable(replies) && AllSucceed(replies) &&
      Delivered(was, arrivals, EncodeAll(replies), later) ==>
      r == Ok(ValuesOf(replies)) && buf == [] && after == later
  }

  /** For whatever reply to EXEC they hold behind the acknowledgements of `n` commands. */
  ghost predicate ExecWhole(was: bytes, arrivals: seq<bytes>, n: nat, r: Result<seq<Value>>, buf: bytes, after: seq<bytes>) {
    forall exec, later ::
      Sendable(exec) && Leftover(exec) == [] && Delivered(was, arrivals, EncodeAll(Acks(n) + [exec]), later) ==>
      r == Classify(Outcome(exec)) && buf == [] && after == later
  }

  lemma OneIsWhole(was: bytes, arrivals: seq<bytes>, r: Result<Value>, buf: bytes, after: seq<bytes>)
    requires Honest(was, arrivals, P.ParseReply(was + Flatten(arrivals)), r, buf, after)
    ensures OneWhole(was, arrivals, r, buf, after)
  {
    hide P.ParseReply, Outcome, Encode, Sendable, Leftover, Flatten, Lazy, Agrees, IsSuffix;
    assert [] + Flatten(arrivals) == Flatten(arrivals);
    forall reply, later | Sendable(reply) && Leftover(reply) == [] && Delivered(was, arrivals, Encode(reply), later)
      ensures r == Outcome(reply) && buf == [] && after == later
    {
      RoundTrip(reply, Flatten(later));
      assert [] + Flatten(later) == Flatten(later);
      NeverTooLong(reply);
      ReadToTheEnd(arrivals, Encode(reply), later, P.ParseReply(Flatten(arrivals)), r, buf, after);
    }
  }

  lemma AllAreWhole(was: bytes, arrivals: seq<bytes>, n: nat, r: Result<seq<Value>>, buf: bytes, after: seq<bytes>)
    requires Honest(was, arrivals, ReadReplies(was + Flatten(arrivals), n), r, buf, after)
    ensures AllWhole(was, arrivals, n, r, buf, after)
  {
    hide ReadReplies, EncodeAll, AllSendable, Flatten, Lazy, Agrees, IsSuffix;
    assert [] + Flatten(arrivals) == Flatten(arrivals);
    forall replies, later | |replies| == n && AllSendable(replies) && AllSucceed(replies) &&
        Delivered(was, arrivals, EncodeAll(replies), later)
      ensures r == Ok(ValuesOf(replies)) && buf == [] && after == later
    {
      RepliesInOrder(replies, Flatten(later));
      ReadToTheEnd(arrivals, EncodeAll(replies), later, ReadReplies(Flatten(arrivals), n), r, buf, after);
    }
  }

  lemma ExecIsWhole(was: bytes, arrivals: seq<bytes>, n: nat, r: Result<seq<Value>>, buf: bytes, after: seq<bytes>)
    requires Honest(was, arrivals, ReadTransaction(was + Flatten(arrivals), n), r, buf, after)
    ensures ExecWhole(was, arrivals, n, r, buf, after)
  {
    hide ReadTransaction, EncodeAll, AllSendable, AllSucceed, Acks, Outcome, Leftover, Flatten, Lazy, Agrees, IsSuffix;
    assert [] + Flatten(arrivals) == Flatten(arrivals);
    forall exec, later | Sendable(exec) && Leftover(exec) == [] &&
        Delivered(was, arrivals, EncodeAll(Acks(n) + [exec]), later)
      ensures r == Classify(Outcome(exec)) && buf == [] && after == later
    {
      AcksSucceed(n);
      TransactionOutcome(Acks(n), exec, Flatten(later));
      assert [] + Flatten(later) == Flatten(later);
      NeverTooLong(exec);
      var text := EncodeAll(Acks(n) + [exec]);
      ReadToTheEnd(arrivals, text, later, ReadTransaction(Flatten(arrivals), n), r, buf, after);
    }
  }
}
