/** Connections change hands clean, so every caller reads the replies to its own commands. */
module Reuse {
  import opened Bytes
  import opened Values
  import opened Resp
  import opened IdleStack
  import opened Pool
  import opened Ownership
  import P = Parser

  /** The bytes a guard has yet to read, in terms of what it exchanged: exactly the replies owed,
      as long as each reply was read whole; after a reply that was not, at least one more. */
  ghost predicate Accounted(use: Use, unread: bytes) {
    exists qs :: Pays(use, unread, qs)
  }

  ghost predicate Pays(use: Use, unread: bytes, qs: seq<Reply>) {
    AllSendable(qs) && unread == EncodeAll(qs) &&
    if use.torn then |qs| > |use.owed| else qs == use.owed
  }

  /** What the bytes of a connection must be, given where it is: nothing while it waits to be
      reused; whole replies, accounted for, while a guard uses it. */
  ghost predicate WireAt(s: State, at: Place) {
    match Claim(s, at)
    case None => true
    case Some(c) =>
      c < |s.wires| &&
      if at.With? then Accounted(s.getters[at.getter].use, s.wires[c].Unread()) else s.wires[c].Unread() == []
  }

  ghost predicate WiresMatch(s: State) {
    forall at :: WireAt(s, at)
  }

  /** A guard is dropped with bytes in its buffer, or after reading one whole reply for each
      command it sent. */
  ghost predicate Polite(s: State, step: Step) {
    step.Get? && step.act.Drop? && UsesConn(s, step.g) ==>
      s.wires[s.getters[step.g].conn].buf != [] ||
      (s.getters[step.g].use.owed == [] && !s.getters[step.g].use.torn)
  }

  ghost predicate PoliteRun(cfg: Config, s: State, steps: seq<Step>)
    decreases |steps|
  {
    steps == [] ||
    (Enabled(cfg, s, steps[0]) && Polite(s, steps[0]) && PoliteRun(cfg, Apply(cfg, s, steps[0]), steps[1..]))
  }

  // ---------- One exchange ----------

  lemma EncodeOne(owed: seq<Reply>, answer: Reply)
    requires AllSendable(owed) && Sendable(answer)
    ensures EncodeAll(owed + [answer]) == EncodeAll(owed) + Encode(answer)
    ensures AllSendable(owed + [answer])
  {
    hide Encode, Sendable;
    EncodeAllAppend(owed, [answer]);
    assert AllSendable([answer][1..]);
    assert AllSendable([answer]);
    assert EncodeAll([answer]) == Encode(answer) + EncodeAll([]);
  }

  /** The next reply parsed is the one owed to the oldest unanswered command. */
  lemma {:induction false} NextReply(owed: seq<Reply>)
    requires owed != [] && AllSendable(owed)
    ensures P.ParseReply(EncodeAll(owed)) == Parsed(Outcome(owed[0]), Leftover(owed[0]) + EncodeAll(owed[1..]))
    ensures AllSendable(owed[1..])
  {
    hide P.ParseReply, Encode, Outcome, Leftover;
    RoundTrip(owed[0], EncodeAll(owed[1..]));
  }

  lemma SendPays(use: Use, unread: bytes, answer: Reply)
    requires Accounted(use, unread) && Sendable(answer)
    ensures Accounted(use.(owed := use.owed + [answer]), unread + Encode(answer))
  {
    hide Encode, Sendable, EncodeAll, AllSendable;
    var qs :| Pays(use, unread, qs);
    EncodeOne(qs, answer);
    assert Pays(use.(owed := use.owed + [answer]), unread + Encode(answer), qs + [answer]);
  }

  /** Reading one reply uses up one; what it strands comes back in front. */
  lemma ReceivePays(use: Use, unread: bytes)
    requires Accounted(use, unread) && use.owed != []
    ensures Accounted(Use(use.owed[1..], use.torn || Leftover(use.owed[0]) != []), P.ParseReply(unread).rest)
  {
    hide Encode, EncodeAll, AllSendable, Outcome, Leftover, Stranded, P.ParseReply;
    var qs :| Pays(use, unread, qs);
    NextReply(qs);
    StrandedText(qs[0]);
    EncodeAllAppend(Stranded(qs[0]), qs[1..]);
    FirstSendable(qs);
    NothingOwed();
    var left := Stranded(qs[0]) + qs[1..];
    if !use.torn && Leftover(use.owed[0]) == [] {
      TextIffReplies(Stranded(qs[0]));
      assert left == use.owed[1..];
    } else if !use.torn {
      assert Stranded(qs[0]) != [];
    }
    assert Pays(Use(use.owed[1..], use.torn || Leftover(use.owed[0]) != []), P.ParseReply(unread).rest, left);
  }

  lemma FirstSendable(qs: seq<Reply>)
    requires qs != [] && AllSendable(qs)
    ensures Sendable(qs[0]) && AllSendable(qs[1..])
  {
  }

  lemma TextIffReplies(rs: seq<Reply>)
    ensures EncodeAll(rs) == [] <==> rs == []
  {
  }

  lemma NothingOwed()
    ensures EncodeAll([]) == [] && AllSendable([])
  {
  }

  lemma SendWire(s: State, g: nat, answer: Reply)
    requires UsesConn(s, g) && Sendable(answer) && WireAt(s, With(g))
    ensures WireAt(ApplySend(s, g, answer), With(g))
  {
    hide Encode, Sendable, Accounted;
    var x := s.getters[g];
    var w := s.wires[x.conn];
    SendPays(x.use, w.Unread(), answer);
    Assoc(w.buf, w.net, Encode(answer));
  }

  lemma ReceiveWire(cfg: Config, s: State, g: nat, buffered: nat)
    requires GetEnabled(cfg, s, g, Receive(buffered)) && WireAt(s, With(g))
    ensures WireAt(ApplyReceive(s, g, buffered), With(g))
  {
    hide Leftover, P.ParseReply, Accounted;
    ReceivePays(s.getters[g].use, Unread(s, g));
    var rest := P.ParseReply(Unread(s, g)).rest;
    assert rest[..buffered] + rest[buffered..] == rest;
  }

  // ---------- Steps ----------

  /** Another place keeps its connection and its bytes. */
  lemma Elsewhere(s: State, t: State, g: nat, at: Place)
    requires Owned(s) && WireAt(s, at) && UsesConn(s, g) && at != With(g)
    requires Claim(t, at) == Claim(s, at) && |t.wires| == |s.wires|
    requires forall c :: 0 <= c < |s.wires| && c != s.getters[g].conn ==> t.wires[c] == s.wires[c]
    requires at.With? && Claim(s, at).Some? ==> at.getter < |t.getters| && t.getters[at.getter] == s.getters[at.getter]
    ensures WireAt(t, at)
  {
    hide Owned, Accounted;
    if Claim(s, at).Some? && Claim(s, at) == Some(s.getters[g].conn) {
      OneOwner(s, at, With(g));
    }
  }

  lemma ExchangeWires(cfg: Config, s: State, g: nat, act: Act)
    requires Owned(s) && WiresMatch(s) && GetEnabled(cfg, s, g, act) && (act.Send? || act.Receive?)
    ensures WiresMatch(GetApply(cfg, s, g, act))
  {
    hide Owned, Encode, Accounted, Sendable, Leftover, P.ParseReply, WireAt;
    var t := GetApply(cfg, s, g, act);
    match act {
      case Send(answer) => SendWire(s, g, answer);
      case Receive(buffered) => ReceiveWire(cfg, s, g, buffered);
    }
    forall at | at != With(g)
      ensures WireAt(t, at)
    {
      Elsewhere(s, t, g, at);
    }
  }

  /** Where a pop leaves connections: all but the popped one stay. */
  lemma PopClaims(cfg: Config, s: State, g: nat)
    requires GetEnabled(cfg, s, g, Pop)
    ensures var t := ApplyPop(cfg, s, g);
      t.wires == s.wires && |t.getters| == |s.getters| &&
      (forall h :: 0 <= h < |s.getters| && h != g ==> t.getters[h] == s.getters[h]) &&
      (forall at :: at != With(g) && Claim(t, at).Some? ==> Claim(t, at) == Claim(s, at))
  {
    hide Expired, Pending;
  }

  /** The getter has got the top of the stack, on which nothing has been asked yet. */
  lemma PopTakes(cfg: Config, s: State, g: nat)
    requires GetEnabled(cfg, s, g, Pop)
    ensures var t := ApplyPop(cfg, s, g);
      Claim(t, With(g)).Some? ==>
        s.idle != [] && Claim(t, With(g)) == Claim(s, InStack(|s.idle| - 1)) && t.getters[g].use == UNUSED
  {
    hide Expired, Pending;
  }

  lemma PopWires(cfg: Config, s: State, g: nat)
    requires WiresMatch(s) && GetEnabled(cfg, s, g, Pop)
    ensures WiresMatch(ApplyPop(cfg, s, g))
  {
    hide ApplyPop, Accounted, Claim;
    FreshAccounted();
    PopClaims(cfg, s, g);
    PopTakes(cfg, s, g);
    var t := ApplyPop(cfg, s, g);
    forall at
      ensures WireAt(t, at)
    {
      assert WireAt(s, at);
      if at == With(g) && Claim(t, at).Some? {
        assert WireAt(s, InStack(|s.idle| - 1));
      }
      if at.With? && at != With(g) && Claim(t, at).Some? {
        ClaimIndex(s, at);
      }
    }
  }

  lemma ClaimIndex(s: State, at: Place)
    requires at.With? && Claim(s, at).Some?
    ensures at.getter < |s.getters|
  {
  }

  /** A connection with nothing to read is accounted for before anything is asked on it. */
  lemma FreshAccounted()
    ensures Accounted(UNUSED, [])
  {
    NothingOwed();
    assert Pays(UNUSED, [], []);
  }

  /** Nothing is left to read exactly when every reply was read, each of them whole. */
  lemma CleanIff(use: Use, unread: bytes)
    requires Accounted(use, unread)
    ensures unread == [] <==> use.owed == [] && !use.torn
  {
    hide AllSendable, EncodeAll;
    var qs :| Pays(use, unread, qs);
    TextIffReplies(qs);
  }

  lemma DropWires(s: State, g: nat)
    requires WiresMatch(s) && UsesConn(s, g) && Polite(s, Get(g, Drop))
    ensures WiresMatch(ApplyDrop(s, g))
  {
    hide Accounted;
    var t := ApplyDrop(s, g);
    assert WireAt(s, With(g));
    CleanIff(s.getters[g].use, s.wires[s.getters[g].conn].Unread());
    forall at
      ensures WireAt(t, at)
    {
      assert WireAt(s, at);
    }
  }

  /** The other getter steps touch no bytes: a connection stays put, arrives new, or leaves. */
  lemma QuietWires(cfg: Config, s: State, g: nat, act: Act)
    requires WiresMatch(s) && GetEnabled(cfg, s, g, act)
    requires !act.Send? && !act.Receive? && !act.Pop? && !act.Drop?
    ensures WiresMatch(GetApply(cfg, s, g, act))
  {
    hide ApplySend, ApplyReceive, ApplyPop, ApplyDrop, Sendable, P.ParseReply, Accounted;
    FreshAccounted();
    assert Wire([], []).Unread() == [];
    var t := GetApply(cfg, s, g, act);
    forall at
      ensures WireAt(t, at)
    {
      assert WireAt(s, at);
    }
  }

  lemma PutWires(s: State, p: nat, act: PutAct)
    requires WiresMatch(s) && PutEnabled(s, p, act)
    ensures WiresMatch(PutApply(s, p, act))
  {
    hide Accounted;
    var t := PutApply(s, p, act);
    assert WireAt(s, Returning(p));
    forall at
      ensures WireAt(t, at)
    {
      assert WireAt(s, at);
    }
  }

  lemma OtherWires(cfg: Config, s: State, step: Step)
    requires WiresMatch(s) && Enabled(cfg, s, step) && !step.Get? && !step.PutBack?
    ensures WiresMatch(Apply(cfg, s, step))
  {
    hide Accounted, GetEnabled, PutEnabled, Unstacked;
    var t := Apply(cfg, s, step);
    forall at
      ensures WireAt(t, at)
    {
      assert WireAt(s, at);
    }
  }

  lemma WiresStep(cfg: Config, s: State, step: Step)
    requires Owned(s) && WiresMatch(s) && Enabled(cfg, s, step) && Polite(s, step)
    ensures WiresMatch(Apply(cfg, s, step))
  {
    hide Owned, WiresMatch, ApplyPop, ApplyDrop, ApplySend, ApplyReceive, PutEnabled, PutApply, CloseEnabled, CloseApply;
    match step
    case Get(g, act) =>
      if act.Send? || act.Receive? {
        ExchangeWires(cfg, s, g, act);
      } else if act.Pop? {
        PopWires(cfg, s, g);
      } else if act.Drop? {
        DropWires(s, g);
      } else {
        QuietWires(cfg, s, g, act);
      }
    case PutBack(p, act) => PutWires(s, p, act);
    case _ => OtherWires(cfg, s, step);
  }

  // ---------- Runs ----------

  lemma InitMatches(cfg: Config)
    ensures Owned(Init(cfg)) && WiresMatch(Init(cfg))
  {
    forall at
      ensures Claim(Init(cfg), at) == None
    {
    }
  }

  lemma {:induction false} RunKeeps(cfg: Config, s: State, steps: seq<Step>, t: State)
    requires Owned(s) && WiresMatch(s) && Reaches(cfg, s, steps, t) && PoliteRun(cfg, s, steps)
    ensures Owned(t) && WiresMatch(t)
    decreases |steps|
  {
    hide Enabled, Apply, Owned, WiresMatch, Polite;
    if steps != [] {
      OwnedStep(cfg, s, steps[0]);
      WiresStep(cfg, s, steps[0]);
      RunKeeps(cfg, Apply(cfg, s, steps[0]), steps[1..], t);
    }
  }

  /** Reuse is safe: in every polite run, whatever waits for reuse has nothing to read, and the
      next reply a guard parses, having read only whole replies, is the server's answer to its
      own oldest unanswered command. */
  lemma ReuseIsSafe(cfg: Config, steps: seq<Step>, t: State)
    requires Reaches(cfg, Init(cfg), steps, t) && PoliteRun(cfg, Init(cfg), steps)
    ensures forall k :: 0 <= k < |t.idle| ==> t.idle[k].conn < |t.wires| && t.wires[t.idle[k].conn].Unread() == []
    ensures forall p :: 0 <= p < |t.puts| && Pending(t.puts[p]) ==>
      t.puts[p].conn < |t.wires| && t.wires[t.puts[p].conn].Unread() == []
    ensures forall g: nat :: UsesConn(t, g) && !t.getters[g].use.torn && t.getters[g].use.owed != [] ==>
      var owed := t.getters[g].use.owed;
      P.ParseReply(Unread(t, g)) == Parsed(Outcome(owed[0]), Leftover(owed[0]) + EncodeAll(owed[1..]))
  {
    hide Reaches, PoliteRun, Enabled, Apply, Owned, EncodeAll, AllSendable, Outcome, Leftover, P.ParseReply;
    InitMatches(cfg);
    RunKeeps(cfg, Init(cfg), steps, t);
    forall k | 0 <= k < |t.idle|
      ensures t.idle[k].conn < |t.wires| && t.wires[t.idle[k].conn].Unread() == []
    {
      assert WireAt(t, InStack(k));
    }
    forall p | 0 <= p < |t.puts| && Pending(t.puts[p])
      ensures t.puts[p].conn < |t.wires| && t.wires[t.puts[p].conn].Unread() == []
    {
      assert WireAt(t, Returning(p));
    }
    forall g: nat | UsesConn(t, g) && !t.getters[g].use.torn && t.getters[g].use.owed != []
      ensures var owed := t.getters[g].use.owed;
        P.ParseReply(Unread(t, g)) == Parsed(Outcome(owed[0]), Leftover(owed[0]) + EncodeAll(owed[1..]))
    {
      assert WireAt(t, With(g));
      NextReply(t.getters[g].use.owed);
    }
  }

  /** A guard dropped with an empty buffer returns its connection clean exactly when it read a
      reply to every command it sent, each of them whole. */
  lemma DropIsCleanIff(s: State, g: nat)
    requires WiresMatch(s) && UsesConn(s, g) && s.getters[g].Holding?
    requires s.wires[s.getters[g].conn].buf == []
    ensures var t := ApplyDrop(s, g); var p := |s.puts|; var use := s.getters[g].use;
      p < |t.puts| && t.puts[p] == Starting(s.getters[g].conn) &&
      (t.wires[t.puts[p].conn].Unread() == [] <==> use.owed == [] && !use.torn)
  {
    hide Accounted;
    assert WireAt(s, With(g));
    CleanIff(s.getters[g].use, s.wires[s.getters[g].conn].Unread());
  }

  /** A run stays polite with any step that drops no guard, and with the drop of one that has
      bytes in its buffer or read a whole reply to every command. */
  lemma {:induction false} StaysPolite(cfg: Config, s: State, steps: seq<Step>, mid: State, step: Step)
    requires Reaches(cfg, s, steps, mid) && (steps == [] || PoliteRun(cfg, s, steps)) && Enabled(cfg, mid, step)
    requires step.Get? && step.act.Drop? && UsesConn(mid, step.g) ==>
      var x := mid.getters[step.g];
      mid.wires[x.conn].buf != [] || (x.use.owed == [] && !x.use.torn)
    ensures PoliteRun(cfg, s, steps + [step])
    decreases |steps|
  {
    hide Enabled, Apply, UsesConn;
    if steps == [] {
      assert [step][1..] == [];
    } else {
      assert (steps + [step])[1..] == steps[1..] + [step];
      StaysPolite(cfg, Apply(cfg, s, steps[0]), steps[1..], mid, step);
    }
  }

  /** Politeness asks for no more than is needed: whatever polite run led here, dropping a guard
      now is polite exactly when it leaves no connection waiting for reuse with bytes to read. */
  lemma PoliteIff(cfg: Config, steps: seq<Step>, s: State, g: nat)
    requires Reaches(cfg, Init(cfg), steps, s) && PoliteRun(cfg, Init(cfg), steps)
    requires UsesConn(s, g) && s.getters[g].Holding?
    ensures Polite(s, Get(g, Drop)) <==>
      var t := ApplyDrop(s, g);
      forall p :: 0 <= p < |t.puts| && Pending(t.puts[p]) ==>
        t.puts[p].conn < |t.wires| && t.wires[t.puts[p].conn].Unread() == []
  {
    hide Reaches, PoliteRun, Enabled, Apply, Owned, Accounted;
    InitMatches(cfg);
    RunKeeps(cfg, Init(cfg), steps, s);
    var t := ApplyDrop(s, g);
    forall p | 0 <= p < |s.puts| && Pending(s.puts[p])
      ensures s.puts[p].conn < |s.wires| && s.wires[s.puts[p].conn].Unread() == []
    {
      assert WireAt(s, Returning(p));
    }
    if s.wires[s.getters[g].conn].buf == [] {
      DropIsCleanIff(s, g);
      assert Pending(t.puts[|s.puts|]);
    }
  }
}
