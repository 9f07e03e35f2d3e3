/** The pool as a class refines the interleaving: what `get`, `put` and `close` do there is what
    they do in the transition system when nobody else takes a step. */
module Undisturbed {
  import opened Bytes
  import opened Values
  import opened IdleStack
  import opened Pool
  import opened PoolInvariants
  import opened Ownership
  import opened Resp
  import O = PoolObject
  import P = Parser

  /** Time passes, and only getter `g` moves. */
  ghost predicate OnlyGetter(steps: seq<Step>, g: nat) {
    forall i :: 0 <= i < |steps| ==> steps[i].Tick? || (steps[i].Get? && steps[i].g == g)
  }

  /** Time passes, and only getter `g` and the put `p` of its guard move. */
  ghost predicate OnlyGuard(steps: seq<Step>, g: nat, p: nat) {
    forall i :: 0 <= i < |steps| ==>
      steps[i].Tick? || (steps[i].Get? && steps[i].g == g) || (steps[i].PutBack? && steps[i].p == p)
  }

  ghost predicate Advances(clock: nat -> int) {
    forall i: nat, j: nat :: i <= j ==> clock(i) <= clock(j)
  }

  // ---------- get ----------

  /** The tasks and flags that a search of the stack leaves alone. */
  ghost predicate SameElse(s: State, t: State) {
    t.closed == s.closed && t.closedLock == s.closedLock && t.puts == s.puts && t.closers == s.closers &&
    t.wires == s.wires && |t.getters| == |s.getters|
  }

  lemma Searching(cfg: Config, from: State, steps: seq<Step>, s: State, g: nat, act: Act)
    returns (more: seq<Step>, t: State)
    requires Reaches(cfg, from, steps, s) && GetEnabled(cfg, s, g, act) && Owned(s) && OnlyGetter(steps, g)
    ensures Reaches(cfg, from, more, t) && t == GetApply(cfg, s, g, act) && Owned(t) && OnlyGetter(more, g)
  {
    hide Reaches, GetEnabled, GetApply, Owned;
    OwnedStep(cfg, s, Get(g, act));
    more, t := Go(cfg, from, steps, s, Get(g, act));
  }

  /** On to the stack: past the check, with a permit. */
  lemma {:induction false} Arrives(cfg: Config, s: State, g: nat, now: int) returns (steps: seq<Step>, t: State)
    requires Owned(s) && g < |s.getters| && s.getters[g].Checking? && s.closedLock.None? && !s.closed
    requires s.permits > 0 && s.clock <= now
    ensures Reaches(cfg, s, steps, t) && OnlyGetter(steps, g) && Owned(t)
    ensures t == s.(clock := now, getters := s.getters[g := Popping], permits := s.permits - 1)
  {
    hide Reaches, Owned, ApplyPop, ApplySend, ApplyReceive, ApplyDrop, ApplyDialOk, PutApply, CloseApply;
    NoSteps(cfg, s);
    steps, t := Go(cfg, s, [], s, Tick(now - s.clock));
    OwnedStep(cfg, s, Tick(now - s.clock));
    steps, t := Searching(cfg, s, steps, t, g, Check);
    steps, t := Searching(cfg, s, steps, t, g, Acquire);
  }

  /** One look at the stack at time `now`, up to and including the pop. */
  lemma {:induction false} Look(cfg: Config, s: State, g: nat, now: int) returns (steps: seq<Step>, t: State)
    requires Owned(s) && g < |s.getters| && s.getters[g].Checking? && s.closedLock.None? && !s.closed
    requires s.permits > 0 && s.clock <= now
    ensures Reaches(cfg, s, steps, t) && OnlyGetter(steps, g) && Owned(t) && SameElse(s, t)
    ensures t.clock == now && t.permits == s.permits - 1
    ensures if s.idle == [] then t.idle == [] && t.getters == s.getters[g := Dialing]
      else
        var k := |s.idle| - 1;
        t.idle == s.idle[..k] &&
        var popped := if Expired(cfg.idleTimeout, s.idle[k], now) then Evicting else Holding(s.idle[k].conn, UNUSED);
        t.getters == s.getters[g := popped]
  {
    hide Reaches, Owned, Expired, Pending, ApplySend, ApplyReceive, ApplyDrop, ApplyDialOk;
    steps, t := Arrives(cfg, s, g, now);
    TopOwned(t);
    steps, t := Searching(cfg, s, steps, t, g, Pop);
  }

  /** The way back to the check from an expired connection. */
  lemma Evicts(cfg: Config, from: State, steps: seq<Step>, s: State, g: nat) returns (more: seq<Step>, t: State)
    requires Reaches(cfg, from, steps, s) && OnlyGetter(steps, g) && Owned(s) && g < |s.getters| && s.getters[g].Evicting?
    ensures Reaches(cfg, from, more, t) && OnlyGetter(more, g) && Owned(t) && SameElse(s, t)
    ensures t.idle == s.idle && t.clock == s.clock && t.permits == s.permits + 1
    ensures t.getters == s.getters[g := Checking]
  {
    hide Reaches, Owned, ApplySend, ApplyReceive, ApplyPop, ApplyDrop, ApplyDialOk;
    more, t := Searching(cfg, from, steps, s, g, Evict);
  }

  lemma TopOwned(s: State)
    requires Owned(s)
    ensures s.idle != [] ==> s.idle[|s.idle| - 1].conn < |s.places|
  {
    if s.idle != [] {
      assert Claim(s, InStack(|s.idle| - 1)).Some?;
    }
  }

  /** What an undisturbed search comes to. */
  ghost predicate Found(s: State, g: nat, kept: nat, reused: bool, t: State)
    requires g < |s.getters| && kept <= |s.idle| && (reused ==> kept < |s.idle|)
  {
    t.idle == s.idle[..kept] && t.permits == s.permits - 1 && SameElse(s, t) &&
    t.getters == s.getters[g := if reused then Holding(s.idle[kept].conn, UNUSED) else Dialing]
  }

  /** Every search of an open pool is an undisturbed run of its caller. */
  lemma {:induction false} SearchRuns(cfg: Config, s: State, g: nat, clock: nat -> int, kept: nat, reused: bool, looks: nat)
    returns (steps: seq<Step>, t: State)
    requires Owned(s) && g < |s.getters| && s.getters[g].Checking? && s.closedLock.None? && !s.closed && s.permits > 0
    requires Search(cfg.idleTimeout, s.idle, clock, kept, reused, looks)
    requires s.clock <= clock(0) && Advances(clock)
    ensures Reaches(cfg, s, steps, t) && OnlyGetter(steps, g) && Found(s, g, kept, reused, t) && Owned(t)
    decreases |s.idle|
  {
    hide Reaches, Owned, Expired, Passed, GetEnabled, GetApply;
    steps, t := Look(cfg, s, g, clock(0));
    var k := |s.idle| - 1;
    if s.idle != [] {
      TopLook(cfg.idleTimeout, s.idle, clock, kept, reused, looks);
    }
    if s.idle != [] && !(reused && kept == k) {
      var first, mid := Evicts(cfg, s, steps, t, g);
      var later := (i: nat) => clock(i + 1);
      NextLook(cfg.idleTimeout, s.idle, clock, kept, reused, looks, later);
      var rest;
      rest, t := SearchRuns(cfg, mid, g, later, kept, reused, looks - 1);
      Through(cfg, s, first, mid, rest, t);
      steps := first + rest;
      assert s.idle[..k][..kept] == s.idle[..kept];
    }
  }

  /** The first look is at the top. */
  lemma TopLook<C>(timeout: Option<nat>, idle: seq<Pooled<C>>, clock: nat -> int, kept: nat, reused: bool, looks: nat)
    requires idle != [] && Search(timeout, idle, clock, kept, reused, looks)
    ensures Expired(timeout, idle[|idle| - 1], clock(0)) <==> !(reused && kept == |idle| - 1)
  {
  }

  /** Behind an expired top the search goes on with the rest of the stack. */
  lemma NextLook<C>(timeout: Option<nat>, idle: seq<Pooled<C>>, clock: nat -> int, kept: nat, reused: bool, looks: nat,
      later: nat -> int)
    requires idle != [] && Search(timeout, idle, clock, kept, reused, looks) && !(reused && kept == |idle| - 1)
    requires forall i: nat :: later(i) == clock(i + 1)
    ensures looks > 0 && Search(timeout, idle[..|idle| - 1], later, kept, reused, looks - 1)
  {
    var rest := idle[..|idle| - 1];
    var bottom := if reused then kept + 1 else 0;
    forall i | bottom <= i < |rest|
      ensures Expired(timeout, rest[i], later(|rest| - 1 - i))
    {
      assert later(|rest| - 1 - i) == clock(|idle| - 1 - i);
      assert rest[i] == idle[i];
    }
    if reused {
      assert later(looks - 2) == clock(looks - 1);
    }
  }

  /** What the caller of `get` has become. */
  function Caller(s: State, kept: nat, reused: bool, dialed: bool): Getter
    requires reused ==> kept < |s.idle|
  {
    if s.closed then RefusedClosed
    else if reused then Holding(s.idle[kept].conn, UNUSED)
    else if dialed then Holding(|s.wires|, UNUSED)
    else Finished
  }

  /** Every call of `get` is an undisturbed run of its caller: refused at the check, or a search
      and, if that found nothing, a dial. */
  lemma {:induction false} GetRuns(cfg: Config, s: State, g: nat, clock: nat -> int, kept: nat, reused: bool, looks: nat,
      dialed: bool) returns (steps: seq<Step>, t: State)
    requires Owned(s) && g < |s.getters| && s.getters[g].Checking? && s.closedLock.None?
    requires if s.closed then kept == |s.idle| && !reused
      else s.permits > 0 && Search(cfg.idleTimeout, s.idle, clock, kept, reused, looks)
    requires s.clock <= clock(0) && Advances(clock)
    ensures Reaches(cfg, s, steps, t) && OnlyGetter(steps, g) && kept <= |s.idle| && (reused ==> kept < |s.idle|)
    ensures t.idle == s.idle[..kept] && t.closed == s.closed && t.closedLock == s.closedLock
    ensures t.getters == s.getters[g := Caller(s, kept, reused, dialed)]
    ensures t.permits == if t.getters[g].Holding? then s.permits - 1 else s.permits
  {
    hide Reaches, Owned, Search;
    NoSteps(cfg, s);
    if s.closed {
      steps, t := Go(cfg, s, [], s, Get(g, Check));
    } else {
      KeptWithin(cfg.idleTimeout, s.idle, clock, kept, reused, looks);
      steps, t := SearchRuns(cfg, s, g, clock, kept, reused, looks);
      if !reused {
        steps, t := Dials(cfg, s, steps, t, g, dialed);
      }
    }
  }

  lemma KeptWithin<C>(timeout: Option<nat>, idle: seq<Pooled<C>>, clock: nat -> int, kept: nat, reused: bool, looks: nat)
    requires Search(timeout, idle, clock, kept, reused, looks)
    ensures kept <= |idle| && (reused ==> kept < |idle|)
  {
  }

  lemma Dials(cfg: Config, from: State, before: seq<Step>, s: State, g: nat, dialed: bool)
    returns (steps: seq<Step>, t: State)
    requires Reaches(cfg, from, before, s) && OnlyGetter(before, g) && Owned(s)
    requires g < |s.getters| && s.getters[g].Dialing?
    ensures Reaches(cfg, from, steps, t) && OnlyGetter(steps, g)
    ensures t.idle == s.idle && t.closed == s.closed && t.closedLock == s.closedLock
    ensures t.getters == s.getters[g := if dialed then Holding(|s.wires|, UNUSED) else Finished]
    ensures t.permits == if dialed then s.permits else s.permits + 1
  {
    hide Reaches, ApplySend, ApplyReceive, ApplyPop, ApplyDrop;
    if dialed {
      steps, t := Go(cfg, from, before, s, Get(g, DialOk));
      steps, t := Go(cfg, from, steps, t, Get(g, InitDone));
    } else {
      steps, t := Go(cfg, from, before, s, Get(g, DialFail));
      steps, t := Go(cfg, from, steps, t, Get(g, Release));
    }
  }

  // ---------- Dropping a guard ----------

  /** A drop that spawns a put, and the release of the permit. */
  lemma Departs(cfg: Config, from: State, before: seq<Step>, s: State, g: nat) returns (steps: seq<Step>, t: State)
    requires Reaches(cfg, from, before, s) && UsesConn(s, g) && s.getters[g].Holding?
    requires s.wires[s.getters[g].conn].buf == []
    ensures steps == before + [Get(g, Drop), Get(g, Release)] && Reaches(cfg, from, steps, t)
    ensures var c := s.getters[g].conn;
      t == s.(getters := s.getters[g := Finished], permits := s.permits + 1, puts := s.puts + [Starting(c)],
              places := s.places[c := Returning(|s.puts|)])
  {
    hide Reaches, P.ParseReply, Sendable, ApplySend, ApplyReceive, ApplyPop, ApplyDialOk, PutApply, CloseApply;
    steps, t := Go(cfg, from, before, s, Get(g, Drop));
    steps, t := Go(cfg, from, steps, t, Get(g, Release));
    assert t.getters == s.getters[g := Finished];
  }

  /** A drop that discards, and the release of the permit. */
  lemma DepartsAlone(cfg: Config, from: State, before: seq<Step>, s: State, g: nat) returns (steps: seq<Step>, t: State)
    requires Reaches(cfg, from, before, s) && UsesConn(s, g) && s.getters[g].Holding?
    requires s.wires[s.getters[g].conn].buf != []
    ensures steps == before + [Get(g, Drop), Get(g, Release)] && Reaches(cfg, from, steps, t)
    ensures t == s.(getters := s.getters[g := Finished], permits := s.permits + 1,
                    places := s.places[s.getters[g].conn := Discarded])
  {
    hide Reaches, P.ParseReply, Sendable, ApplySend, ApplyReceive, ApplyPop, ApplyDialOk, PutApply, CloseApply;
    steps, t := Go(cfg, from, before, s, Get(g, Drop));
    steps, t := Go(cfg, from, steps, t, Get(g, Release));
    assert t.getters == s.getters[g := Finished];
  }

  /** Every drop, with the put it spawns, is an undisturbed run of the two. */
  lemma {:induction false} DropRuns(cfg: Config, s: State, g: nat, now: int) returns (steps: seq<Step>, t: State)
    requires UsesConn(s, g) && s.getters[g].Holding? && s.closedLock.None? && s.clock <= now
    ensures Reaches(cfg, s, steps, t) && OnlyGuard(steps, g, |s.puts|)
    ensures var c := s.getters[g].conn;
      t.idle == Restacked(s.idle, c, s.wires[c].buf == [], s.closed, now)
    ensures t.permits == s.permits + 1 && t.getters == s.getters[g := Finished]
    ensures t.closed == s.closed && t.closedLock == s.closedLock
  {
    hide Reaches, ApplySend, ApplyReceive, ApplyPop, ApplyDialOk, Restacked;
    var wait := Tick(now - s.clock);
    NoSteps(cfg, s);
    if s.wires[s.getters[g].conn].buf == [] {
      steps, t := Departs(cfg, s, [], s, g);
      steps, t := Go(cfg, s, steps, t, wait);
      steps, t := PutRuns(cfg, s, steps, t, g, |s.puts|);
    } else {
      steps, t := DepartsAlone(cfg, s, [], s, g);
      steps, t := Go(cfg, s, steps, t, wait);
      NotClean(s.idle, s.getters[g].conn, s.closed, now);
    }
  }

  lemma NotClean<C>(idle: seq<Pooled<C>>, conn: C, closed: bool, now: int)
    ensures Restacked(idle, conn, false, closed, now) == idle
  {
  }

  lemma {:induction false} PutRuns(cfg: Config, from: State, before: seq<Step>, s: State, g: nat, p: nat)
    returns (steps: seq<Step>, t: State)
    requires Reaches(cfg, from, before, s) && OnlyGuard(before, g, p)
    requires PutUsesConn(s, p) && s.puts[p].Starting? && s.wires[s.puts[p].conn].buf == [] && s.closedLock.None?
    ensures Reaches(cfg, from, steps, t) && OnlyGuard(steps, g, p)
    ensures t.idle == Restacked(s.idle, s.puts[p].conn, true, s.closed, s.clock)
    ensures t.permits == s.permits && t.getters == s.getters && t.closed == s.closed && t.closedLock == s.closedLock
  {
    hide Reaches, GetEnabled, GetApply, CloseEnabled, CloseApply;
    steps, t := Go(cfg, from, before, s, PutBack(p, Start));
    steps, t := Go(cfg, from, steps, t, PutBack(p, Lock));
    if !s.closed {
      steps, t := Go(cfg, from, steps, t, PutBack(p, Push));
      steps, t := Go(cfg, from, steps, t, PutBack(p, Unlock));
    }
  }

  // ---------- close ----------

  /** Every close is an undisturbed run of its caller. */
  lemma {:induction false} CloseRuns(cfg: Config, s: State, c: nat) returns (steps: seq<Step>, t: State)
    requires c < |s.closers| && s.closers[c].Asking? && s.closedLock.None?
    ensures Reaches(cfg, s, steps, t) && forall i :: 0 <= i < |steps| ==> steps[i].Close? && steps[i].c == c
    ensures t.closed && t.idle == if s.closed then s.idle else []
    ensures t.permits == s.permits && t.getters == s.getters && t.closedLock == s.closedLock
  {
    hide Reaches, GetEnabled, GetApply, PutEnabled, PutApply;
    NoSteps(cfg, s);
    steps, t := Go(cfg, s, [], s, Close(c, Flag));
    if !s.closed {
      steps, t := Go(cfg, s, steps, t, Close(c, Clear));
    }
  }

  // ---------- The class ----------

  ghost predicate SameAges<C, D>(a: seq<Pooled<C>>, b: seq<Pooled<D>>) {
    |a| == |b| && forall i :: 0 <= i < |a| ==> a[i].usedAt == b[i].usedAt
  }

  /** The pool object and the transition system are in the same state. */
  ghost predicate Mirrors(pool: O.ConnPool, cfg: Config, s: State)
    reads pool
  {
    cfg.poolSize == pool.poolSize && cfg.idleTimeout == pool.idleTimeout && s.permits == pool.permits &&
    s.closed == pool.closed && s.closedLock.None? && SameAges(pool.idle, s.idle)
  }

  /** They start out in the same state. */
  lemma MirrorsAtFirst(pool: O.ConnPool, cfg: Config)
    requires cfg.poolSize == pool.poolSize && cfg.idleTimeout == pool.idleTimeout
    requires pool.permits == pool.poolSize && !pool.closed && pool.idle == []
    ensures Mirrors(pool, cfg, Init(cfg)) && Owned(Init(cfg))
  {
    forall at
      ensures Claim(Init(cfg), at) == None
    {
    }
  }

  /** A search depends on the ages only. */
  lemma SearchByAge<C, D>(timeout: Option<nat>, a: seq<Pooled<C>>, b: seq<Pooled<D>>, clock: nat -> int,
      kept: nat, reused: bool, looks: nat)
    requires SameAges(a, b) && Search(timeout, a, clock, kept, reused, looks)
    ensures Search(timeout, b, clock, kept, reused, looks)
  {
  }

  lemma OldConns(s: State)
    requires Owned(s)
    ensures forall k :: 0 <= k < |s.idle| ==> s.idle[k].conn < |s.wires|
  {
    forall k | 0 <= k < |s.idle|
      ensures s.idle[k].conn < |s.wires|
    {
      assert Claim(s, InStack(k)).Some?;
    }
  }

  /** `get` of the class, and the run of the transition system that does the same. */
  method GetBoth(pool: O.ConnPool, clock: nat -> int, dial: O.Dial, ghost cfg: Config, ghost s: State, ghost g: nat)
    returns (r: Result<O.PoolGuard>, ghost steps: seq<Step>, ghost t: State, ghost kept: nat)
    requires pool.Valid() && (pool.closed || pool.permits > 0)
    requires dial.Dialed? ==> dial.conn.Valid() && pool.Separate(dial.conn)
    requires Mirrors(pool, cfg, s) && Owned(s) && g < |s.getters| && s.getters[g].Checking?
    requires s.clock <= clock(0) && Advances(clock)
    modifies pool`permits, pool`idle
    ensures pool.Valid() && Mirrors(pool, cfg, t) && Reaches(cfg, s, steps, t) && OnlyGetter(steps, g)
    ensures |t.getters| == |s.getters| && t.getters == s.getters[g := t.getters[g]]
    ensures if r.Ok? then t.getters[g].Holding?
      else if pool.closed then r == Err(Closed) && t.getters[g].RefusedClosed?
      else dial == O.DialFailed(r.error) && t.getters[g].Finished?
    ensures kept <= |s.idle| && pool.idle == old(pool.idle)[..kept] && t.idle == s.idle[..kept]
    ensures r.Ok? ==>
      if kept < |s.idle| && t.getters[g].conn == s.idle[kept].conn then r.value.conn == old(pool.idle)[kept].conn
      else kept == 0 && t.getters[g].conn == |s.wires| && dial.Dialed? && r.value.conn == dial.conn
  {
    hide Reaches, Search, Owned, O.ConnPool.StackValid;
    ghost var before := pool.idle;
    var got, looks, at, reused := pool.Get(clock, dial);
    r, kept := got, at;
    OldConns(s);
    ghost var was := reused && !pool.closed;
    if !pool.closed {
      SearchByAge(cfg.idleTimeout, before, s.idle, clock, kept, reused, looks);
    }
    steps, t := GetRuns(cfg, s, g, clock, kept, was, looks, dial.Dialed?);
  }

  /** Dropping a guard of the class, and the run that does the same. */
  method DropBoth(guard: O.PoolGuard, now: int, ghost cfg: Config, ghost s: State, ghost g: nat)
    returns (ghost steps: seq<Step>, ghost t: State)
    requires guard.pool.Valid() && guard.pool.permits < guard.pool.poolSize
    requires guard.conn != null && guard.conn.Valid() && guard.pool.Separate(guard.conn)
    requires Mirrors(guard.pool, cfg, s) && UsesConn(s, g) && s.getters[g].Holding? && s.clock <= now
    requires guard.conn.stream.buf == s.wires[s.getters[g].conn].buf
    modifies guard`conn, guard.pool`permits, guard.pool`idle
    ensures guard.pool.Valid() && Mirrors(guard.pool, cfg, t)
    ensures Reaches(cfg, s, steps, t) && OnlyGuard(steps, g, |s.puts|) && t.getters == s.getters[g := Finished]
  {
    hide Reaches, O.ConnPool.StackValid;
    guard.Drop(now);
    steps, t := DropRuns(cfg, s, g, now);
  }

  /** Closing the pool object, and the run that does the same. */
  method CloseBoth(pool: O.ConnPool, ghost cfg: Config, ghost s: State, ghost c: nat)
    returns (ghost steps: seq<Step>, ghost t: State)
    requires pool.Valid() && Mirrors(pool, cfg, s) && c < |s.closers| && s.closers[c].Asking?
    modifies pool`closed, pool`idle
    ensures pool.Valid() && pool.closed && Mirrors(pool, cfg, t)
    ensures Reaches(cfg, s, steps, t) && forall i :: 0 <= i < |steps| ==> steps[i].Close? && steps[i].c == c
  {
    hide Reaches, O.ConnPool.StackValid;
    pool.Close();
    steps, t := CloseRuns(cfg, s, c);
  }
}
