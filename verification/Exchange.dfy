/** What batches of commands and replies look like on the wire. */
module Exchange {
  import opened Bytes
  import opened Characters
  import opened Utf8
  import opened Values
  import opened Resp
  import opened Commands
  import opened Decode
  import P = Parser

  function AsIs(v: Value): Result<Value> {
    Ok(v)
  }

  /** `n` replies, read until the first nil or error. */
  function ReadReplies(s: bytes, n: nat): Parsed<seq<Value>> {
    StreamEach(s, n, AsIs)
  }

  /** One reply of a batch. */
  lemma ReadStep(s: bytes, n: nat)
    requires n > 0
    ensures var p := P.ParseReply(s);
      ReadReplies(s, n) ==
      if p.result.Err? then Parsed(Err(p.result.error), p.rest)
      else P.Collected([p.result.value], ReadReplies(p.rest, n - 1))
  {
    hide P.ParseReply, P.Collected;
    StreamStep(s, n, AsIs);
  }

  lemma ReadDone(s: bytes)
    ensures ReadReplies(s, 0) == Parsed(Ok([]), s)
  {
  }

  /** How EXEC's own reply is reported. */
  function Classify(exec: Result<Value>): Result<seq<Value>> {
    match exec
    case Ok(Array(items)) => if items == [] then Err(TxFailed) else Ok(items)
    case Ok(v) => if v.Nil? then Err(TxFailed) else Err(Other)
    case Err(e) => if e.Nil? then Err(TxFailed) else Err(e)
  }

  /** A transaction's replies: those to MULTI and the `n` queued commands, then EXEC's. */
  function ReadTransaction(s: bytes, n: nat): Parsed<seq<Value>> {
    match ReadReplies(s, n + 1)
    case Parsed(Err(e), rest) => Parsed(Err(e), rest)
    case Parsed(Ok(_), rest) =>
      var exec := P.ParseReply(rest);
      Parsed(Classify(exec.result), exec.rest)
  }

  // ---------- Replies ----------

  predicate Succeeds(r: Reply) {
    Outcome(r).Ok?
  }

  ghost predicate AllSucceed(rs: seq<Reply>) {
    forall i :: 0 <= i < |rs| ==> Succeeds(rs[i])
  }

  function ValuesOf(rs: seq<Reply>): (vs: seq<Value>)
    requires forall i :: 0 <= i < |rs| ==> Succeeds(rs[i])
    ensures |vs| == |rs|
    ensures forall i :: 0 <= i < |rs| ==> Outcome(rs[i]) == Ok(vs[i])
  {
    if rs == [] then [] else assert Succeeds(rs[0]); [Outcome(rs[0]).value] + ValuesOf(rs[1..])
  }

  /** The replies that come back are those sent, in order, and nothing more is consumed. */
  lemma {:induction false} RepliesInOrder(rs: seq<Reply>, tail: bytes)
    requires AllSendable(rs) && AllSucceed(rs)
    ensures ReadReplies(EncodeAll(rs) + tail, |rs|) == Parsed(Ok(ValuesOf(rs)), tail)
  {
    hide P.ParseReply, Encode, Outcome, Leftover, Sendable;
    if rs == [] {
      assert EncodeAll(rs) + tail == tail;
    } else {
      var more := EncodeAll(rs[1..]) + tail;
      assert Succeeds(rs[0]);
      LeftoverSplit(rs, tail);
      NoLeftover(rs[0]);
      RoundTrip(rs[0], more);
      assert [] + more == more;
      RepliesInOrder(rs[1..], tail);
    }
  }

  /** The first nil or error ends the batch: the replies before it are consumed, those behind
      it, and what is left of it, are not. */
  lemma {:induction false} FirstFailureEnds(rs: seq<Reply>, k: nat, n: nat, tail: bytes)
    requires AllSendable(rs) && k < |rs| && k < n && AllSucceed(rs[..k]) && !Succeeds(rs[k])
    ensures ReadReplies(EncodeAll(rs) + tail, n) ==
      Parsed(Err(Outcome(rs[k]).error), Leftover(rs[k]) + (EncodeAll(rs[k + 1..]) + tail))
    decreases k
  {
    hide P.ParseReply, Encode, Outcome, Leftover, Sendable, EncodeAll;
    var more := EncodeAll(rs[1..]) + tail;
    LeftoverSplit(rs, tail);
    RoundTrip(rs[0], more);
    if k > 0 {
      assert Succeeds(rs[..k][0]);
      NoLeftover(rs[0]);
      assert [] + more == more;
      assert rs[1..][..k - 1] == rs[..k][1..];
      assert rs[1..][k..] == rs[k + 1..];
      FirstFailureEnds(rs[1..], k - 1, n - 1, tail);
    }
  }

  // ---------- Commands ----------

  /** What a command parses to. */
  function CommandValue(args: Command): Value {
    Value.Array(seq(|args|, i requires 0 <= i < |args| => BulkString(args[i])))
  }

  lemma {:induction false} BulksMean(args: Command)
    requires ArgsStorable(args)
    ensures AllSendable(Bulks(args)) && Elements(Bulks(args)) == Ok(CommandValue(args).items)
  {
    if args != [] {
      BulksMean(args[1..]);
      assert Bulks(args)[1..] == Bulks(args[1..]);
      assert CommandValue(args).items == [BulkString(args[0])] + CommandValue(args[1..]).items;
    } else {
      assert CommandValue(args).items == [];
    }
  }

  lemma CommandMeans(args: Command)
    requires Storable(args)
    ensures Sendable(AsReply(args)) && Outcome(AsReply(args)) == Ok(CommandValue(args))
  {
    BulksMean(args);
  }

  lemma {:induction false} CommandsMean(cmds: seq<Command>)
    requires AllStorable(cmds)
    ensures AllSendable(AsReplies(cmds)) && AllSucceed(AsReplies(cmds))
    ensures ValuesOf(AsReplies(cmds)) == seq(|cmds|, i requires 0 <= i < |cmds| => CommandValue(cmds[i]))
  {
    hide Sendable, Outcome, AsReply, CommandValue, Storable;
    if cmds != [] {
      CommandMeans(cmds[0]);
      CommandsMean(cmds[1..]);
      var rs := AsReplies(cmds);
      assert rs[1..] == AsReplies(cmds[1..]);
      forall i | 0 <= i < |rs|
        ensures Succeeds(rs[i])
      {
        if i > 0 { assert rs[i] == rs[1..][i - 1]; }
      }
    }
  }

  /** A server reading the text of several commands gets exactly those commands, in order. */
  lemma CommandsDecode(cmds: seq<Command>, tail: bytes)
    requires AllStorable(cmds)
    ensures ReadReplies(WireAll(cmds) + tail, |cmds|) ==
      Parsed(Ok(seq(|cmds|, i requires 0 <= i < |cmds| => CommandValue(cmds[i]))), tail)
  {
    hide ReadReplies;
    CommandsMean(cmds);
    RepliesInOrder(AsReplies(cmds), tail);
  }

  // ---------- Transactions ----------

  /** With every command accepted for queueing, EXEC's reply decides, and all frames up to it
      are consumed. */
  lemma {:induction false} TransactionOutcome(acks: seq<Reply>, exec: Reply, tail: bytes)
    requires acks != [] && AllSendable(acks) && AllSucceed(acks) && Sendable(exec)
    ensures ReadTransaction(EncodeAll(acks + [exec]) + tail, |acks| - 1) ==
      Parsed(Classify(Outcome(exec)), Leftover(exec) + tail)
  {
    hide P.ParseReply, Encode, EncodeAll, Outcome, Leftover, Sendable, ReadReplies, AllSendable, AllSucceed;
    EncodeAllAppend(acks, [exec]);
    OneReply(exec);
    Assoc(EncodeAll(acks), Encode(exec), tail);
    RepliesInOrder(acks, Encode(exec) + tail);
    RoundTrip(exec, tail);
  }

  lemma OneReply(r: Reply)
    ensures EncodeAll([r]) == Encode(r)
  {
    assert EncodeAll([r]) == Encode(r) + EncodeAll([]);
  }

  /** OK to MULTI and QUEUED to each of `n` commands. */
  function Acks(n: nat): (rs: seq<Reply>)
    ensures |rs| == n + 1
  {
    if n == 0 then [SimpleString(Ascii("OK"))] else Acks(n - 1) + [SimpleString(Ascii("QUEUED"))]
  }

  lemma {:induction false} AcksSucceed(n: nat)
    ensures AllSendable(Acks(n)) && AllSucceed(Acks(n))
  {
    if n == 0 {
      assert Acks(0)[1..] == [];
    } else {
      AcksSucceed(n - 1);
      AckAppend(Acks(n - 1));
    }
  }

  lemma {:induction false} AckAppend(rs: seq<Reply>)
    requires AllSendable(rs)
    ensures AllSendable(rs + [SimpleString(Ascii("QUEUED"))])
  {
    var all := rs + [SimpleString(Ascii("QUEUED"))];
    if rs != [] {
      assert all[1..] == rs[1..] + [SimpleString(Ascii("QUEUED"))];
      AckAppend(rs[1..]);
    } else {
      assert all[1..] == [];
    }
  }

  /** Against a server that queues all `n` commands, and answers EXEC with their `n` results, none
      an error, when it committed and with a null when it did not: the caller gets the results
      exactly when it committed and `TxFailed` otherwise, and all `n + 2` replies are consumed. */
  lemma CommittedIff(n: nat, exec: Reply, tail: bytes)
    requires n > 0 && Sendable(exec)
    requires exec.NullArray? || exec.NullBulk? || (exec.Array? && |exec.elements| == n && Elements(exec.elements).Ok?)
    ensures ReadTransaction(EncodeAll(Acks(n) + [exec]) + tail, n) ==
      Parsed(if exec.Array? then Elements(exec.elements) else Err(TxFailed), tail)
  {
    hide ReadTransaction, EncodeAll, Acks, Sendable;
    AcksSucceed(n);
    TransactionOutcome(Acks(n), exec, tail);
    NoLeftover(exec);
    assert [] + tail == tail;
  }

  /** What the caller gets for each kind of reply to EXEC. */
  lemma ExecMeans(n: nat, exec: Reply, tail: bytes)
    requires Sendable(exec)
    ensures var r := ReadTransaction(EncodeAll(Acks(n) + [exec]) + tail, n).result;
      (exec.NullBulk? || exec.NullArray? ==> r == Err(TxFailed)) &&
      (exec == Reply.Array([]) ==> r == Err(TxFailed)) &&
      (exec.Array? && exec.elements != [] ==> r == Elements(exec.elements)) &&
      (exec.SimpleString? || exec.Integer? ==> r == Err(Other)) &&
      (exec.SimpleError? ==> r == Err(Redis(Server(Lossy(exec.message))))) &&
      (exec.Bulk? ==> r == Err(if Valid(exec.payload) then Other else Redis(InvalidUtf8)))
  {
    hide ReadTransaction, EncodeAll, Acks, AllSendable, AllSucceed, Lossy, Valid;
    AcksSucceed(n);
    TransactionOutcome(Acks(n), exec, tail);
    if exec.Array? && Elements(exec.elements).Ok? {
      assert |Elements(exec.elements).value| == |exec.elements|;
    }
  }

  /** A command refused while queueing, the `k`-th reply to fail: the caller gets that error, and
      everything behind it, EXEC's reply included, stays unread. */
  lemma RefusedWhileQueueing(acks: seq<Reply>, exec: Reply, k: nat, tail: bytes)
    requires k < |acks| && AllSendable(acks) && Sendable(exec)
    requires AllSucceed(acks[..k]) && !Succeeds(acks[k])
    ensures ReadTransaction(EncodeAll(acks + [exec]) + tail, |acks| - 1) ==
      Parsed(Err(Outcome(acks[k]).error), Leftover(acks[k]) + (EncodeAll(acks[k + 1..]) + (Encode(exec) + tail)))
  {
    hide P.ParseReply, Encode, EncodeAll, Outcome, Leftover, Sendable, ReadReplies, AllSendable, AllSucceed;
    EncodeAllAppend(acks, [exec]);
    OneReply(exec);
    Assoc(EncodeAll(acks), Encode(exec), tail);
    FirstFailureEnds(acks, k, |acks|, Encode(exec) + tail);
  }

  /** An error among the results hides a commit: the caller gets that error, and everything
      behind it stays unread. */
  lemma ErrorAmongResults(n: nat, exec: Reply, tail: bytes)
    requires Sendable(exec) && exec.Array? && Elements(exec.elements).Err?
    ensures ReadTransaction(EncodeAll(Acks(n) + [exec]) + tail, n) ==
      Parsed(Err(Elements(exec.elements).error), Leftover(exec) + tail)
  {
    hide ReadTransaction, EncodeAll, Acks, Sendable;
    AcksSucceed(n);
    TransactionOutcome(Acks(n), exec, tail);
  }
}
