/** Runs that show why the theorems on runs need their hypotheses. */
module Witnesses {
  import opened Bytes
  import opened Utf8
  import opened Values
  import opened Resp
  import opened IdleStack
  import opened Pool
  import opened PoolInvariants
  import opened Capacity
  import P = Parser
  import U = Undisturbed

  /** One connection, one other task at most; `held` permits are taken. */
  function Stage(cfg: Config, held: nat, idle: seq<Pooled<nat>>, getters: seq<Getter>, puts: seq<Put>,
      net: bytes, at: Place): State
    requires held <= cfg.poolSize
  {
    var issued := |getters|;
    State(cfg.poolSize - held, false, None, idle, getters, puts, [], 0, [Wire([], net)], [at], issued, 0, false)
  }

  /** A first caller dials. */
  lemma Dialed(cfg: Config) returns (steps: seq<Step>, s: State)
    requires cfg.poolSize > 0
    ensures Reaches(cfg, Init(cfg), steps, s) && s == Stage(cfg, 1, [], [Holding(0, UNUSED)], [], [], With(0))
  {
    hide Reaches, P.ParseReply, Encode, Sendable, Leftover, ApplySend, ApplyReceive, ApplyDrop;
    hide PutApply, CloseApply;
    steps, s := [], Init(cfg);
    NoSteps(cfg, s);
    steps, s := Go(cfg, Init(cfg), steps, s, NewGetter);
    steps, s := Go(cfg, Init(cfg), steps, s, Get(0, Check));
    steps, s := Go(cfg, Init(cfg), steps, s, Get(0, Acquire));
    steps, s := Go(cfg, Init(cfg), steps, s, Get(0, Pop));
    steps, s := Go(cfg, Init(cfg), steps, s, Get(0, DialOk));
    steps, s := Go(cfg, Init(cfg), steps, s, Get(0, InitDone));
  }

  // ---------- A reply to somebody else ----------

  /** It sends two commands. */
  lemma Asked(cfg: Config, message: bytes, late: Reply) returns (steps: seq<Step>, s: State)
    requires cfg.poolSize > 0 && Sendable(SimpleError(message)) && Sendable(late)
    ensures Reaches(cfg, Init(cfg), steps, s)
    ensures var failure := SimpleError(message);
      s == Stage(cfg, 1, [], [Holding(0, Use([failure, late], false))], [], Encode(failure) + Encode(late), With(0))
  {
    hide Reaches, P.ParseReply, Encode, Sendable, Leftover, ApplyReceive, ApplyPop, ApplyDrop, ApplyDialOk;
    hide PutApply, CloseApply;
    var failure := SimpleError(message);
    steps, s := Dialed(cfg);
    steps, s := Go(cfg, Init(cfg), steps, s, Get(0, Send(failure)));
    assert s.wires[0].net == Encode(failure);
    steps, s := Go(cfg, Init(cfg), steps, s, Get(0, Send(late)));
    assert s.getters[0].use.owed == [failure, late];
    assert s.wires == [Wire([], Encode(failure) + Encode(late))];
  }

  /** It reads its first reply, and has nothing more in its buffer then. */
  lemma {:induction false} Receives(cfg: Config, before: seq<Step>, held: State, r: Reply, owed: seq<Reply>,
      net: bytes, rest: bytes) returns (steps: seq<Step>, s: State)
    requires cfg.poolSize > 0 && Reaches(cfg, Init(cfg), before, held)
    requires held == Stage(cfg, 1, [], [Holding(0, Use([r] + owed, false))], [], net, With(0))
    requires P.ParseReply(net) == Parsed(Outcome(r), rest) && Outcome(r) != Err(Redis(UnexpectedEof))
    ensures Reaches(cfg, Init(cfg), steps, s)
    ensures s == Stage(cfg, 1, [], [Holding(0, Use(owed, Leftover(r) != []))], [], rest, With(0))
  {
    hide Reaches, P.ParseReply, Encode, Sendable, Leftover, Outcome, ApplySend, ApplyPop, ApplyDrop, ApplyDialOk;
    hide PutApply, CloseApply;
    assert [] + net == net;
    assert Unread(held, 0) == net;
    assert ([r] + owed)[1..] == owed;
    assert rest[..0] == [] && rest[0..] == rest;
    steps, s := Go(cfg, Init(cfg), before, held, Get(0, Receive(0)));
  }

  /** It reads the first reply, an error, before the second arrives. */
  lemma {:induction false} Stopped(cfg: Config, message: bytes, late: Reply) returns (steps: seq<Step>, s: State)
    requires cfg.poolSize > 0 && Sendable(SimpleError(message)) && Sendable(late)
    ensures Reaches(cfg, Init(cfg), steps, s)
    ensures s == Stage(cfg, 1, [], [Holding(0, Use([late], false))], [], Encode(late), With(0))
  {
    hide Reaches, P.ParseReply, Encode, Sendable;
    var failure := SimpleError(message);
    steps, s := Asked(cfg, message, late);
    FlatRoundTrip(failure, Encode(late));
    assert [failure] + [late] == [failure, late];
    steps, s := Receives(cfg, steps, s, failure, [late], Encode(failure) + Encode(late), Encode(late));
  }

  /** A guard is dropped with an empty buffer, and its connection returns to the stack. */
  lemma {:induction false} Restacked(cfg: Config, before: seq<Step>, held: State, use: Use, net: bytes)
    returns (steps: seq<Step>, s: State)
    requires cfg.poolSize > 0 && Reaches(cfg, Init(cfg), before, held)
    requires held == Stage(cfg, 1, [], [Holding(0, use)], [], net, With(0))
    ensures Reaches(cfg, Init(cfg), steps, s)
    ensures s == Stage(cfg, 0, [Pooled(0, 0)], [Finished], [Returned], net, InStack(0))
  {
    hide Reaches, P.ParseReply, Encode, Sendable, Leftover, ApplySend, ApplyReceive, ApplyPop, ApplyDialOk, CloseApply;
    steps, s := Go(cfg, Init(cfg), before, held, Get(0, Drop));
    steps, s := Go(cfg, Init(cfg), steps, s, Get(0, Release));
    steps, s := Go(cfg, Init(cfg), steps, s, PutBack(0, Start));
    steps, s := Go(cfg, Init(cfg), steps, s, PutBack(0, Lock));
    steps, s := Go(cfg, Init(cfg), steps, s, PutBack(0, Push));
    steps, s := Go(cfg, Init(cfg), steps, s, PutBack(0, Unlock));
  }

  /** The next caller reuses it, sends one command, and reads what came late for the first. */
  lemma {:induction false} NextReads(cfg: Config, before: seq<Step>, idle: State, late: Reply, own: Reply)
    returns (steps: seq<Step>, t: State)
    requires cfg.poolSize > 0 && Sendable(late) && Sendable(own) && Reaches(cfg, Init(cfg), before, idle)
    requires idle == Stage(cfg, 0, [Pooled(0, 0)], [Finished], [Returned], Encode(late), InStack(0))
    ensures Reaches(cfg, Init(cfg), steps, t)
    ensures UsesConn(t, 1) && t.getters[1].use == Use([own], false)
    ensures P.ParseReply(Unread(t, 1)).result == Outcome(late)
  {
    hide Reaches, P.ParseReply, Encode, Sendable, Leftover, ApplyReceive, ApplyDrop, ApplyDialOk;
    hide PutApply, CloseApply;
    steps, t := Enters(cfg, before, idle);
    steps, t := Go(cfg, Init(cfg), steps, t, Get(1, Pop));
    steps, t := Go(cfg, Init(cfg), steps, t, Get(1, Send(own)));
    assert Unread(t, 1) == Encode(late) + Encode(own);
    RoundTrip(late, Encode(own));
  }

  /** A pipeline that stops at an error while a later reply is still on its way gives its
      connection back with an empty buffer; the next caller reuses it, sends one command, and
      reads the late reply instead of its own. */
  lemma {:induction false} StaleReply(cfg: Config, message: bytes, late: Reply, own: Reply)
    returns (steps: seq<Step>, t: State)
    requires cfg.poolSize > 0 && Sendable(SimpleError(message)) && Sendable(late) && Sendable(own)
    ensures Reaches(cfg, Init(cfg), steps, t)
    ensures UsesConn(t, 1) && t.getters[1].use == Use([own], false)
    ensures P.ParseReply(Unread(t, 1)).result == Outcome(late)
  {
    hide Reaches, P.ParseReply, Encode, Sendable, Outcome, UsesConn, Unread;
    steps, t := Stopped(cfg, message, late);
    steps, t := Restacked(cfg, steps, t, Use([late], false), Encode(late));
    steps, t := NextReads(cfg, steps, t, late, own);
  }

  lemma TornArray(message: bytes, late: Reply)
    requires Sendable(SimpleError(message)) && Sendable(late)
    ensures var torn := Reply.Array([SimpleError(message), late]);
      Sendable(torn) && Leftover(torn) == Encode(late) &&
      P.ParseReply(Encode(torn)) == Parsed(Outcome(torn), Encode(late)) &&
      Outcome(torn) == Err(Redis(Server(Lossy(message))))
  {
    hide P.ParseReply, Encode, Sendable, Lossy;
    var rs := [SimpleError(message), late];
    assert rs[1..] == [late] && [late][1..] == [];
    assert EncodeAll([late]) == Encode(late) + EncodeAll([]);
    assert Fatal(Outcome(rs[0]));
    assert LeftoverAll(rs) == [] + EncodeAll(rs[1..]);
    ArraySendable(rs);
    RoundTrip(Reply.Array(rs), []);
    assert Encode(Reply.Array(rs)) + [] == Encode(Reply.Array(rs));
  }

  lemma ArraySendable(rs: seq<Reply>)
    requires |rs| == 2 && Sendable(rs[0]) && Sendable(rs[1])
    ensures Sendable(Reply.Array(rs))
  {
    assert AllSendable(rs[1..][1..]) && AllSendable(rs[1..]);
  }

  /** The one command's reply is an array whose first element is an error; the rest of the array
      has not arrived. */
  lemma {:induction false} Torn(cfg: Config, message: bytes, late: Reply) returns (steps: seq<Step>, s: State)
    requires cfg.poolSize > 0 && Sendable(SimpleError(message)) && Sendable(late)
    ensures Reaches(cfg, Init(cfg), steps, s)
    ensures s == Stage(cfg, 1, [], [Holding(0, Use([], true))], [], Encode(late), With(0))
  {
    hide Reaches, P.ParseReply, Encode, Sendable, Leftover, Outcome, ApplyReceive, ApplyPop, ApplyDrop, ApplyDialOk;
    hide PutApply, CloseApply;
    var torn := Reply.Array([SimpleError(message), late]);
    TornArray(message, late);
    steps, s := Dialed(cfg);
    steps, s := Go(cfg, Init(cfg), steps, s, Get(0, Send(torn)));
    assert [] + Encode(torn) == Encode(torn);
    assert s.wires[0].net == Encode(torn) && s.getters[0].use.owed == [torn] + [];
    steps, s := Receives(cfg, steps, s, torn, [], Encode(torn), Encode(late));
  }

  /** One command is enough: an error nested in its reply, as in that of EXEC, leaves the rest of
      the array to the next caller, who reads an element of it instead of its own reply. */
  lemma {:induction false} TornReply(cfg: Config, message: bytes, late: Reply, own: Reply)
    returns (steps: seq<Step>, t: State)
    requires cfg.poolSize > 0 && Sendable(SimpleError(message)) && Sendable(late) && Sendable(own)
    ensures Reaches(cfg, Init(cfg), steps, t)
    ensures UsesConn(t, 1) && t.getters[1].use == Use([own], false)
    ensures P.ParseReply(Unread(t, 1)).result == Outcome(late)
  {
    hide Reaches, P.ParseReply, Encode, Sendable, Outcome, UsesConn, Unread;
    steps, t := Torn(cfg, message, late);
    steps, t := Restacked(cfg, steps, t, Use([], true), Encode(late));
    steps, t := NextReads(cfg, steps, t, late, own);
  }

  // ---------- More connections than the pool size ----------

  /** An open pool with nothing idle: `held` connections are with getters, `pending` on their way
      back, and `over` dials have overtaken a return. */
  ghost predicate Busy(cfg: Config, s: State, held: nat, pending: nat, over: nat) {
    s.permits + held == cfg.poolSize && !s.closed && s.closedLock.None? && s.idle == [] &&
    |s.places| == |s.wires| && Count(s.getters, Live) == held && Count(s.puts, Pending) == pending && s.overtaking == over
  }

  /** The newest getter holds a connection that has nothing in its buffer. */
  ghost predicate LastHolds(s: State) {
    s.getters != [] &&
    var g := |s.getters| - 1;
    UsesConn(s, g) && s.getters[g].Holding? && s.wires[s.getters[g].conn].buf == []
  }

  lemma LastUpdated<T>(s: seq<T>, x: T, y: T)
    ensures (s + [x])[|s| := y] == s + [y]
  {
  }

  /** A new caller takes a free permit. */
  lemma Enters(cfg: Config, before: seq<Step>, s: State) returns (steps: seq<Step>, t: State)
    requires Reaches(cfg, Init(cfg), before, s) && s.permits > 0 && !s.closed && s.closedLock.None?
    ensures Reaches(cfg, Init(cfg), steps, t)
    ensures t == s.(getters := s.getters + [Popping], permits := s.permits - 1)
  {
    hide Reaches, ApplySend, ApplyReceive, ApplyDrop, ApplyPop, ApplyDialOk, PutApply, CloseApply;
    var g := |s.getters|;
    steps, t := Go(cfg, Init(cfg), before, s, NewGetter);
    LastUpdated(s.getters, Checking, Acquiring);
    steps, t := Go(cfg, Init(cfg), steps, t, Get(g, Check));
    LastUpdated(s.getters, Acquiring, Popping);
    steps, t := Go(cfg, Init(cfg), steps, t, Get(g, Acquire));
  }

  /** With nothing idle, it dials. */
  lemma {:induction false} DialsOne(cfg: Config, before: seq<Step>, s: State, held: nat, pending: nat, over: nat)
    returns (steps: seq<Step>, t: State)
    requires Reaches(cfg, Init(cfg), before, s) && Busy(cfg, s, held, pending, over) && held < cfg.poolSize
    ensures Reaches(cfg, Init(cfg), steps, t) && LastHolds(t)
    ensures Busy(cfg, t, held + 1, pending, over + if pending > 0 then 1 else 0)
  {
    hide Reaches, Count, P.ParseReply, Encode, Sendable, ApplySend, ApplyReceive, ApplyDrop, PutApply, CloseApply;
    var all, conn := s.getters, |s.wires|;
    var g := |all|;
    CountNone(s.puts, Pending);
    steps, t := Enters(cfg, before, s);
    LastUpdated(all, Popping, Dialing);
    steps, t := Go(cfg, Init(cfg), steps, t, Get(g, Pop));
    assert t.getters == all + [Dialing];
    LastUpdated(all, Dialing, Initialising(conn, UNUSED));
    steps, t := Go(cfg, Init(cfg), steps, t, Get(g, DialOk));
    LastUpdated(all, Initialising(conn, UNUSED), Holding(conn, UNUSED));
    steps, t := Go(cfg, Init(cfg), steps, t, Get(g, InitDone));
    CountAppend(all, Holding(conn, UNUSED), Live);
  }

  /** Its guard is dropped, and its permit free, before its connection is back. */
  lemma {:induction false} DropsOne(cfg: Config, before: seq<Step>, s: State, held: nat, pending: nat, over: nat)
    returns (steps: seq<Step>, t: State)
    requires Reaches(cfg, Init(cfg), before, s) && Busy(cfg, s, held, pending, over) && held > 0 && LastHolds(s)
    ensures Reaches(cfg, Init(cfg), steps, t) && Busy(cfg, t, held - 1, pending + 1, over)
  {
    hide Reaches, Count, P.ParseReply, Encode, Sendable;
    var g := |s.getters| - 1;
    steps, t := U.Departs(cfg, Init(cfg), before, s, g);
    CountUpdate(s.getters, g, Finished, Live);
    CountAppend(s.puts, Starting(s.getters[g].conn), Pending);
  }

  lemma {:induction false} Filled(cfg: Config, held: nat) returns (steps: seq<Step>, t: State)
    requires held <= cfg.poolSize
    ensures Reaches(cfg, Init(cfg), steps, t) && Busy(cfg, t, held, 0, 0) && (held > 0 ==> LastHolds(t))
  {
    hide Reaches, LastHolds;
    if held == 0 {
      steps, t := [], Init(cfg);
      NoSteps(cfg, t);
    } else {
      steps, t := Filled(cfg, held - 1);
      steps, t := DialsOne(cfg, steps, t, held - 1, 0, 0);
    }
  }

  /** A dropped guard's permit is free before its connection is back, so the next caller dials,
      again and again: the bound on live connections is met, for every pool and any number of
      such dials. */
  lemma {:induction false} Overtaken(cfg: Config, k: nat) returns (steps: seq<Step>, t: State)
    requires cfg.poolSize > 0
    ensures Reaches(cfg, Init(cfg), steps, t) && t.overtaking == k && LiveConns(t) == cfg.poolSize + k
    ensures Busy(cfg, t, cfg.poolSize, k, k) && LastHolds(t)
  {
    hide Reaches, LastHolds;
    if k == 0 {
      steps, t := Filled(cfg, cfg.poolSize);
    } else {
      steps, t := Overtaken(cfg, k - 1);
      steps, t := DropsOne(cfg, steps, t, cfg.poolSize, k - 1, k - 1);
      steps, t := DialsOne(cfg, steps, t, cfg.poolSize - 1, k, k - 1);
    }
  }

  // ---------- A stack out of order ----------

  /** Two callers have dialed. */
  lemma TwoHeld(cfg: Config) returns (steps: seq<Step>, s: State)
    requires cfg.poolSize > 1
    ensures Reaches(cfg, Init(cfg), steps, s) && !s.closed && s.closedLock.None? && s.clock == 0
    ensures s.getters == [Holding(0, UNUSED), Holding(1, UNUSED)] && s.idle == [] && s.puts == []
    ensures s.wires == [Wire([], []), Wire([], [])] && |s.places| == 2
  {
    hide Reaches, P.ParseReply, Encode, Sendable, ApplySend, ApplyReceive, ApplyDrop, PutApply, CloseApply;
    steps, s := Dialed(cfg);
    var first := s;
    steps, s := Enters(cfg, steps, s);
    steps, s := Go(cfg, Init(cfg), steps, s, Get(1, Pop));
    assert s.getters == [Holding(0, UNUSED), Dialing];
    steps, s := Go(cfg, Init(cfg), steps, s, Get(1, DialOk));
    assert s.getters == [Holding(0, UNUSED), Initialising(1, UNUSED)];
    steps, s := Go(cfg, Init(cfg), steps, s, Get(1, InitDone));
  }

  /** Both have dropped their guards, and neither put has started. */
  lemma TwoPuts(cfg: Config) returns (steps: seq<Step>, s: State)
    requires cfg.poolSize > 1
    ensures Reaches(cfg, Init(cfg), steps, s) && !s.closed && s.closedLock.None? && s.clock == 0
    ensures s.puts == [Starting(0), Starting(1)] && s.idle == []
    ensures s.wires == [Wire([], []), Wire([], [])] && |s.places| == 2
  {
    hide Reaches, P.ParseReply, Encode, Sendable;
    steps, s := TwoHeld(cfg);
    steps, s := U.Departs(cfg, Init(cfg), steps, s, 0);
    steps, s := U.Departs(cfg, Init(cfg), steps, s, 1);
  }

  /** Stamps are taken before the lock: a put stamped first and pushed last leaves an older
      connection above a newer one. */
  lemma Disordered(cfg: Config) returns (steps: seq<Step>, t: State)
    requires cfg.poolSize > 1
    ensures Reaches(cfg, Init(cfg), steps, t) && t.idle == [Pooled(1, 1), Pooled(0, 0)]
    ensures !OldestFirst(t.idle, t.clock)
  {
    hide Reaches, P.ParseReply, Encode, Sendable, GetEnabled, GetApply, CloseApply;
    steps, t := TwoPuts(cfg);
    steps, t := Go(cfg, Init(cfg), steps, t, PutBack(0, Start));
    steps, t := Go(cfg, Init(cfg), steps, t, Tick(1));
    steps, t := Go(cfg, Init(cfg), steps, t, PutBack(1, Start));
    steps, t := Go(cfg, Init(cfg), steps, t, PutBack(1, Lock));
    steps, t := Go(cfg, Init(cfg), steps, t, PutBack(1, Push));
    steps, t := Go(cfg, Init(cfg), steps, t, PutBack(1, Unlock));
    steps, t := Go(cfg, Init(cfg), steps, t, PutBack(0, Lock));
    steps, t := Go(cfg, Init(cfg), steps, t, PutBack(0, Push));
    assert t.idle[0].usedAt > t.idle[1].usedAt;
  }
}
