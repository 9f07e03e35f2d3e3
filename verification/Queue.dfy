/** The command queue of a pipeline or a transaction, shared by tasks that push to it, take it
    to execute it, or clear it, in any order: each such call holds the queue's lock once. */
module Queue {
  import opened Bytes
  import opened Commands

  datatype Call = Push(cmd: Command) | Take | Clear

  /** Commands that left the queue together, to be executed or dropped. */
  datatype Batch = Batch(cmds: seq<Command>, executed: bool)

  datatype Shared = Shared(queue: seq<Command>, batches: seq<Batch>)

  function Step(s: Shared, call: Call): Shared {
    match call
    case Push(cmd) => s.(queue := s.queue + [cmd])
    case Take => Shared([], s.batches + [Batch(s.queue, true)])
    case Clear => Shared([], s.batches + [Batch(s.queue, false)])
  }

  function Run(calls: seq<Call>): Shared {
    if calls == [] then Shared([], []) else Step(Run(calls[..|calls| - 1]), calls[|calls| - 1])
  }

  function Pushed(calls: seq<Call>): seq<Command> {
    if calls == [] then []
    else Pushed(calls[..|calls| - 1]) + if calls[|calls| - 1].Push? then [calls[|calls| - 1].cmd] else []
  }

  function Parts(batches: seq<Batch>): (parts: seq<seq<Command>>)
    ensures |parts| == |batches|
    ensures forall i :: 0 <= i < |parts| ==> parts[i] == batches[i].cmds
  {
    if batches == [] then [] else [batches[0].cmds] + Parts(batches[1..])
  }

  /** A push queues its command last; taking and clearing empty the queue, to execute its
      commands or to drop them. */
  lemma CallMeans(calls: seq<Call>, call: Call)
    ensures var s := Run(calls); var t := Run(calls + [call]);
      (call.Push? ==> t.queue == s.queue + [call.cmd] && t.batches == s.batches) &&
      (call.Take? ==> t.queue == [] && t.batches == s.batches + [Batch(s.queue, true)]) &&
      (call.Clear? ==> t.queue == [] && t.batches == s.batches + [Batch(s.queue, false)])
  {
    assert (calls + [call])[..|calls|] == calls;
  }

  lemma OneBatch(cmds: seq<Command>)
    ensures Flatten([cmds]) == cmds
  {
    assert Flatten([cmds]) == cmds + Flatten([]);
  }

  lemma NothingTaken()
    ensures Flatten<Command>(Parts([])) == []
  {
  }

  /** Nothing is lost, repeated or reordered: the batches taken, one after the other, and what is
      still queued are the commands pushed. So each is executed at most once, in push order. */
  lemma {:induction false} TakenOnce(calls: seq<Call>)
    ensures var s := Run(calls); Flatten(Parts(s.batches)) + s.queue == Pushed(calls)
  {
    hide Flatten;
    if calls == [] {
      NothingTaken();
    } else {
      var k := |calls| - 1;
      TakenOnce(calls[..k]);
      var s := Run(calls[..k]);
      var t := Run(calls);
      if calls[k].Push? {
        Assoc(Flatten(Parts(s.batches)), s.queue, [calls[k].cmd]);
      } else {
        assert Parts(t.batches) == Parts(s.batches) + [s.queue];
        FlattenAppend(Parts(s.batches), [s.queue]);
        OneBatch(s.queue);
      }
    }
  }
}
