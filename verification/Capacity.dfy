/** How many live connections the pool can have, how the stack is ordered, and that the pool's
    own steps never all wait for each other. */
module Capacity {
  import opened Resp
  import opened IdleStack
  import opened Pool
  import opened PoolInvariants
  import opened Closing
  import P = Parser

  predicate Live(x: Getter) {
    x.Dialing? || HasConn(x)
  }

  /** Connections held, being dialed, pending return or idle. */
  ghost function LiveConns(s: State): nat {
    Count(s.getters, Live) + Count(s.puts, Pending) + |s.idle|
  }

  ghost predicate LiveBounded(cfg: Config, s: State) {
    PermitsConserved(cfg, s) && LiveConns(s) <= cfg.poolSize + s.overtaking
  }

  /** What a getter step does to the live connections: only a dial adds one, and a dial that
      begins while a return is pending is counted as overtaking it. */
  lemma GetLive(cfg: Config, s: State, g: nat, act: Act)
    requires GetEnabled(cfg, s, g, act)
    ensures var t := GetApply(cfg, s, g, act);
      g < |s.getters| == |t.getters| &&
      if t.getters[g].Dialing? then
        s.idle == [] == t.idle && t.puts == s.puts
        && t.overtaking == s.overtaking + if exists x <- s.puts :: Pending(x) then 1 else 0
      else
        t.overtaking == s.overtaking &&
        (if Live(t.getters[g]) then 1 else 0) + Count(t.puts, Pending) + |t.idle|
        <= (if Live(s.getters[g]) then 1 else 0) + Count(s.puts, Pending) + |s.idle|
  {
    hide P.ParseReply, Encode, Sendable, Leftover, Count, ApplyPop, ApplyDrop;
    match act
    case Pop => PopLive(cfg, s, g);
    case Drop => DropLive(s, g);
    case _ =>
  }

  lemma PopLive(cfg: Config, s: State, g: nat)
    requires GetEnabled(cfg, s, g, Pop)
    ensures var t := ApplyPop(cfg, s, g);
      |s.getters| == |t.getters| && t.puts == s.puts &&
      if t.getters[g].Dialing? then
        s.idle == [] == t.idle && t.overtaking == s.overtaking + if exists x <- s.puts :: Pending(x) then 1 else 0
      else
        t.overtaking == s.overtaking && (if Live(t.getters[g]) then 1 else 0) + |t.idle| <= |s.idle|
  {
    hide Expired;
  }

  lemma DropLive(s: State, g: nat)
    requires UsesConn(s, g) && s.getters[g].Holding?
    ensures var t := ApplyDrop(s, g);
      |s.getters| == |t.getters| && t.idle == s.idle && t.overtaking == s.overtaking && !Live(t.getters[g])
      && !t.getters[g].Dialing? && Count(t.puts, Pending) <= Count(s.puts, Pending) + 1
  {
    hide Count;
    CountAppend(s.puts, Starting(s.getters[g].conn), Pending);
  }

  lemma PutLive(s: State, p: nat, act: PutAct)
    requires PutEnabled(s, p, act)
    ensures var t := PutApply(s, p, act);
      t.getters == s.getters && t.overtaking == s.overtaking && t.permits == s.permits
      && Count(t.puts, Pending) + |t.idle| <= Count(s.puts, Pending) + |s.idle|
  {
    hide Count;
    var t := PutApply(s, p, act);
    CountUpdate(s.puts, p, t.puts[p], Pending);
  }

  lemma LiveStep(cfg: Config, s: State, step: Step)
    requires LiveBounded(cfg, s) && Enabled(cfg, s, step)
    ensures LiveBounded(cfg, Apply(cfg, s, step))
  {
    hide GetEnabled, GetApply, PutEnabled, PutApply, Count, Unstacked;
    var t := Apply(cfg, s, step);
    PermitsStep(cfg, s, step);
    CountAfter(cfg, s, step, Live);
    match step
    case Get(g, act) =>
      GetLive(cfg, s, g, act);
      CountNone(s.puts, Pending);
      CountLess(t.getters, Live, HasPermit);
    case PutBack(p, act) => PutLive(s, p, act);
    case _ =>
  }

  /** In every run, live connections exceed the pool size by at most the dials that overtook a
      return; in a run without such dials, never. */
  lemma {:induction false} LiveRun(cfg: Config, s: State, steps: seq<Step>, t: State)
    requires LiveBounded(cfg, s) && Reaches(cfg, s, steps, t)
    ensures LiveBounded(cfg, t)
    decreases |steps|
  {
    hide Enabled, Apply, LiveBounded;
    if steps != [] {
      LiveStep(cfg, s, steps[0]);
      LiveRun(cfg, Apply(cfg, s, steps[0]), steps[1..], t);
    }
  }

  /** Has a permit and no connection, nor one on its way. */
  predicate Unbacked(x: Getter) {
    HasPermit(x) && !Live(x)
  }

  lemma {:induction false} PermitsSplit(xs: seq<Getter>)
    ensures Count(xs, HasPermit) == Count(xs, Live) + Count(xs, Unbacked)
  {
    if xs != [] {
      PermitsSplit(xs[..|xs| - 1]);
    }
  }

  /** Live connections exceed the pool size exactly when there are more connections without a
      permit than permits without a connection. */
  lemma ExceedsIff(cfg: Config, s: State)
    requires PermitsConserved(cfg, s)
    ensures LiveConns(s) > cfg.poolSize <==>
      Count(s.puts, Pending) + |s.idle| > s.permits + Count(s.getters, Unbacked)
  {
    hide Count;
    PermitsSplit(s.getters);
  }

  // ---------- Expiry ----------

  /** In numbers: a pop gives the top of the stack, unless there is a timeout and the top is older. */
  lemma PopMeans(cfg: Config, s: State, g: nat)
    requires GetEnabled(cfg, s, g, Pop) && s.idle != []
    ensures var t := GetApply(cfg, s, g, Pop); var k := |s.idle| - 1;
      g < |s.getters| == |t.getters| && t.idle == s.idle[..k] &&
      t.getters[g] ==
        if cfg.idleTimeout.Some? && s.clock - s.idle[k].usedAt > cfg.idleTimeout.value then Evicting
        else Holding(s.idle[k].conn, Use([], false))
  {
    hide Pending;
  }

  /** A put is stamped when it starts, and pushes that stamp however late it comes to push. */
  lemma StampMeans(s: State, p: nat, act: PutAct)
    requires PutEnabled(s, p, act)
    ensures var t := PutApply(s, p, act);
      (act.Start? && t.puts[p] != Returned ==> t.puts[p] == Locking(s.puts[p].conn, s.clock)) &&
      (act.Lock? && t.puts[p] != Returned ==> t.puts[p] == Pushing(s.puts[p].conn, s.puts[p].usedAt)) &&
      (act.Push? ==> t.idle == s.idle + [Pooled(s.puts[p].conn, s.puts[p].usedAt)]) &&
      (!act.Push? ==> t.idle == s.idle)
  {
  }

  // ---------- Order of the stack ----------

  /** Stamped, not yet pushed. */
  predicate Stamped(x: Put) {
    x.Locking? || x.Pushing?
  }

  /** A put is stamped only when no other stamped put is still on its way. */
  ghost predicate NoOverlap(s: State, step: Step) {
    step.PutBack? && step.putAct.Start? ==> forall x <- s.puts :: !Stamped(x)
  }

  /** Oldest first, no stamp in the future, and at most one put on its way, newer than all. */
  ghost predicate Ordered(s: State) {
    OldestFirst(s.idle, s.clock) &&
    (forall p :: 0 <= p < |s.puts| && Stamped(s.puts[p]) ==>
      s.puts[p].usedAt <= s.clock && OldestFirst(s.idle, s.puts[p].usedAt)) &&
    (forall p, q :: 0 <= p < |s.puts| && 0 <= q < |s.puts| && Stamped(s.puts[p]) && Stamped(s.puts[q]) ==> p == q)
  }

  lemma PutOrdered(s: State, p: nat, act: PutAct)
    requires Ordered(s) && PutEnabled(s, p, act) && (act.Start? ==> forall x <- s.puts :: !Stamped(x))
    ensures Ordered(PutApply(s, p, act))
  {
    hide PutUsesConn;
  }

  lemma {:induction false} OrderedStep(cfg: Config, s: State, step: Step)
    requires Ordered(s) && Enabled(cfg, s, step) && NoOverlap(s, step)
    ensures Ordered(Apply(cfg, s, step))
  {
    hide GetEnabled, GetApply, PutEnabled, PutApply, Unstacked;
    match step
    case Get(g, act) =>
      GetLeaves(cfg, s, g, act);
      GetIdle(cfg, s, g, act);
      GetPuts(cfg, s, g, act);
    case PutBack(p, act) => PutOrdered(s, p, act);
    case _ =>
  }

  lemma {:induction false} OrderedRun(cfg: Config, s: State, steps: seq<Step>, t: State)
    requires Ordered(s) && Reaches(cfg, s, steps, t) && NeverOverlaps(cfg, s, steps)
    ensures Ordered(t)
    decreases |steps|
  {
    hide Enabled, Apply, Ordered, NoOverlap;
    if steps != [] {
      OrderedStep(cfg, s, steps[0]);
      OrderedRun(cfg, Apply(cfg, s, steps[0]), steps[1..], t);
    }
  }

  ghost predicate NeverOverlaps(cfg: Config, s: State, steps: seq<Step>)
    decreases |steps|
  {
    steps == [] ||
    (Enabled(cfg, s, steps[0]) && NoOverlap(s, steps[0]) && NeverOverlaps(cfg, Apply(cfg, s, steps[0]), steps[1..]))
  }

  /** Only a put that is stamped while another is between its stamp and its push overlaps. */
  lemma {:induction false} StillNoOverlap(cfg: Config, s: State, steps: seq<Step>, mid: State, step: Step)
    requires Reaches(cfg, s, steps, mid) && (steps == [] || NeverOverlaps(cfg, s, steps)) && Enabled(cfg, mid, step)
    requires step.PutBack? && step.putAct.Start? ==> forall x <- mid.puts :: !x.Locking? && !x.Pushing?
    ensures NeverOverlaps(cfg, s, steps + [step])
    decreases |steps|
  {
    hide Enabled, Apply;
    if steps == [] {
      assert [step][1..] == [];
    } else {
      assert (steps + [step])[1..] == steps[1..] + [step];
      StillNoOverlap(cfg, Apply(cfg, s, steps[0]), steps[1..], mid, step);
    }
  }
}
