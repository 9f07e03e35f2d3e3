/** Every run of the pool, from its creation on. */
module PoolRuns {
  import opened Bytes
  import opened IdleStack
  import opened Pool
  import opened PoolInvariants
  import opened Ownership
  import opened Closing
  import opened Capacity
  import opened Progress

  ghost predicate Sound(s: State) {
    Owned(s) && CloseSafe(s)
  }

  lemma InitSound(cfg: Config)
    ensures Sound(Init(cfg)) && LiveBounded(cfg, Init(cfg))
  {
    forall at
      ensures Claim(Init(cfg), at) == None
    {
    }
  }

  lemma {:induction false} RunKeepsSound(cfg: Config, s: State, steps: seq<Step>, t: State)
    requires Sound(s) && Reaches(cfg, s, steps, t)
    ensures Sound(t)
    decreases |steps|
  {
    hide Enabled, Apply, Owned, CloseSafe;
    if steps != [] {
      OwnedStep(cfg, s, steps[0]);
      CloseSafeStep(cfg, s, steps[0]);
      RunKeepsSound(cfg, Apply(cfg, s, steps[0]), steps[1..], t);
    }
  }

  /** In every reachable state: permits are conserved, live connections are bounded by the pool
      size and the dials that overtook a return, every dialed connection is in exactly one place,
      and an emptied closed pool stays empty. */
  lemma EveryRun(cfg: Config, steps: seq<Step>, t: State)
    requires Reaches(cfg, Init(cfg), steps, t)
    ensures t.permits + Count(t.getters, HasPermit) == cfg.poolSize
    ensures LiveConns(t) <= cfg.poolSize + t.overtaking
    ensures |t.places| == |t.wires|
    ensures forall a, b :: Claim(t, a).Some? && Claim(t, a) == Claim(t, b) ==> a == b
    ensures forall c :: 0 <= c < |t.places| ==> OutOfPool(t.places[c]) || Claim(t, t.places[c]) == Some(c)
    ensures t.cleared ==> t.closed && t.idle == []
    ensures WorkLeft(t) && !CanMove(cfg, t) ==> t.permits == 0 && Count(t.getters, Outside) == cfg.poolSize
    ensures WorkLeft(t) && !CanMove(cfg, t) ==>
      forall x <- t.getters ::
        x.Acquiring? || x.Dialing? || x.Initialising? || x.Holding? || x.Finished? || x.RefusedClosed?
  {
    hide Enabled, Apply, Count, Claim, LiveConns, WorkLeft, CanMove;
    InitSound(cfg);
    RunKeepsSound(cfg, Init(cfg), steps, t);
    LiveRun(cfg, Init(cfg), steps, t);
    if WorkLeft(t) && !CanMove(cfg, t) {
      NoDeadlock(cfg, t);
    }
  }

  /** From the state in which the stack was emptied after closing, over any further run: the
      stack stays empty, and a getter that holds one of the connections dialed before held it
      then already. */
  lemma AfterClose(cfg: Config, before: seq<Step>, s: State, after: seq<Step>, t: State)
    requires Reaches(cfg, Init(cfg), before, s) && s.cleared && Reaches(cfg, s, after, t)
    ensures t.idle == []
    ensures forall g: nat :: UsesConn(t, g) && t.getters[g].conn < |s.places| ==>
      UsesConn(s, g) && s.getters[g].conn == t.getters[g].conn
  {
    hide Enabled, Apply, LiveBounded, CloseSafe;
    InitSound(cfg);
    RunKeepsSound(cfg, Init(cfg), before, s);
    RunKeepsSound(cfg, s, after, t);
    CloseIsFinal(cfg, s, after, t);
    forall g: nat | UsesConn(t, g) && t.getters[g].conn < |s.places|
      ensures UsesConn(s, g) && s.getters[g].conn == t.getters[g].conn
    {
      assert Claim(t, With(g)) == Some(t.getters[g].conn);
      assert s.places[t.getters[g].conn] == With(g);
    }
  }

  /** A run in which no dial begins while a return is pending keeps to the pool size. */
  lemma WithoutOvertaking(cfg: Config, steps: seq<Step>, t: State)
    requires Reaches(cfg, Init(cfg), steps, t) && t.overtaking == 0
    ensures LiveConns(t) <= cfg.poolSize
  {
    hide Reaches, LiveConns;
    EveryRun(cfg, steps, t);
  }

  /** When a single dial makes one connection too many: exactly when more returns are pending than
      there are permits, free or held, that have no connection. */
  lemma DialExceedsIff(cfg: Config, steps: seq<Step>, s: State, g: nat)
    requires Reaches(cfg, Init(cfg), steps, s) && GetEnabled(cfg, s, g, Pop) && s.idle == []
    ensures var t := GetApply(cfg, s, g, Pop);
      t.getters == s.getters[g := Dialing] &&
      (LiveConns(t) > cfg.poolSize <==> Count(s.puts, Pending) > s.permits + Count(t.getters, Unbacked))
  {
    hide Reaches, Count, LiveConns, Apply;
    InitSound(cfg);
    LiveRun(cfg, Init(cfg), steps, s);
    var t := GetApply(cfg, s, g, Pop);
    DialKeepsPermits(cfg, s, g);
    ExceedsIff(cfg, t);
  }

  lemma DialKeepsPermits(cfg: Config, s: State, g: nat)
    requires LiveBounded(cfg, s) && GetEnabled(cfg, s, g, Pop) && s.idle == []
    ensures var t := GetApply(cfg, s, g, Pop);
      PermitsConserved(cfg, t) && t.idle == [] && t.puts == s.puts && t.permits == s.permits
  {
    hide Count, LiveConns, Pending;
    PermitsStep(cfg, s, Get(g, Pop));
  }

  lemma InitOrdered(cfg: Config)
    ensures Ordered(Init(cfg))
  {
  }

  /** In a run whose puts never overlap the stack is ordered by age, so once its top has expired
      everything in it has. */
  lemma ExpiryFromTheTop(cfg: Config, steps: seq<Step>, t: State)
    requires Reaches(cfg, Init(cfg), steps, t) && NeverOverlaps(cfg, Init(cfg), steps)
    ensures OldestFirst(t.idle, t.clock)
    ensures t.idle != [] && Expired(cfg.idleTimeout, t.idle[|t.idle| - 1], t.clock) ==>
      forall i :: 0 <= i < |t.idle| ==> Expired(cfg.idleTimeout, t.idle[i], t.clock)
  {
    hide Reaches, NeverOverlaps, Expired, OldestFirst;
    InitOrdered(cfg);
    OrderedRun(cfg, Init(cfg), steps, t);
    if t.idle != [] && Expired(cfg.idleTimeout, t.idle[|t.idle| - 1], t.clock) {
      ExpiredTop(cfg.idleTimeout, t.idle, t.clock, t.clock);
    }
  }
}
