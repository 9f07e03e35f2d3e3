/** The pool never blocks itself: unfinished work always has a next step, unless every permit is
    with a caller outside the pool's control. */
module Progress {
  import opened Bytes
  import opened Pool
  import opened PoolInvariants
  import opened Ownership
  import opened Closing

  /** Waiting for the network or for its user. */
  predicate Outside(x: Getter) {
    x.Dialing? || HasConn(x)
  }

  /** Work the pool owes: neither finished nor outside. */
  predicate Owing(x: Getter) {
    !Outside(x) && !x.Finished? && !x.RefusedClosed?
  }

  ghost predicate WorkLeft(s: State) {
    (exists g :: 0 <= g < |s.getters| && Owing(s.getters[g])) ||
    (exists p :: 0 <= p < |s.puts| && !s.puts[p].Returned?) ||
    (exists c :: 0 <= c < |s.closers| && !s.closers[c].Gone?)
  }

  /** A step of the pool itself is possible. */
  ghost predicate CanMove(cfg: Config, s: State) {
    (exists g: nat, act ::
      GetEnabled(cfg, s, g, act) && (act.Check? || act.Acquire? || act.Pop? || act.Evict? || act.Release?)) ||
    (exists p: nat, act :: PutEnabled(s, p, act)) ||
    (exists c: nat, act :: CloseEnabled(s, c, act))
  }

  lemma PutConn(s: State, p: nat)
    requires Owned(s) && p < |s.puts| && Pending(s.puts[p])
    ensures PutUsesConn(s, p)
  {
    assert Claim(s, Returning(p)) == Some(s.puts[p].conn);
  }

  /** Unless it waits for the lock, an unfinished put or closer can move. */
  lemma PutMoves(s: State, p: nat)
    requires Owned(s) && p < |s.puts| && !s.puts[p].Returned?
    requires s.puts[p].Locking? ==> s.closedLock.None?
    ensures exists act :: PutEnabled(s, p, act)
  {
    if Pending(s.puts[p]) { PutConn(s, p); }
    var act := match s.puts[p]
      case Starting(_) => Start
      case Locking(_, _) => Lock
      case Pushing(_, _) => Push
      case _ => Unlock;
    assert PutEnabled(s, p, act);
  }

  lemma CloserMoves(s: State, c: nat)
    requires c < |s.closers| && !s.closers[c].Gone?
    requires s.closers[c].Asking? ==> s.closedLock.None?
    ensures exists act :: CloseEnabled(s, c, act)
  {
    assert CloseEnabled(s, c, if s.closers[c].Asking? then Flag else Clear);
  }

  /** Unless it waits for the lock or a permit, a getter that owes work can move. */
  lemma GetterMoves(cfg: Config, s: State, g: nat)
    requires Owned(s) && g < |s.getters| && Owing(s.getters[g])
    requires s.getters[g].Checking? ==> s.closedLock.None?
    requires s.getters[g].Acquiring? ==> s.permits > 0
    ensures exists act ::
      GetEnabled(cfg, s, g, act) && (act.Check? || act.Acquire? || act.Pop? || act.Evict? || act.Release?)
  {
    if s.idle != [] {
      assert Claim(s, InStack(|s.idle| - 1)) == Some(s.idle[|s.idle| - 1].conn);
    }
    var act := match s.getters[g]
      case Checking => Check
      case Acquiring => Acquire
      case Popping => Pop
      case Evicting => Evict
      case _ => Release;
    assert GetEnabled(cfg, s, g, act);
  }

  /** No deadlock: when work is left and nothing of the pool can move, every permit is held by a
      dial, an initialisation or a guard in use, and all the work left is callers waiting for one. */
  lemma NoDeadlock(cfg: Config, s: State)
    requires Owned(s) && CloseSafe(s) && PermitsConserved(cfg, s)
    requires WorkLeft(s) && !CanMove(cfg, s)
    ensures s.permits == 0 && Count(s.getters, Outside) == cfg.poolSize
    ensures forall x <- s.getters ::
      x.Acquiring? || x.Dialing? || x.Initialising? || x.Holding? || x.Finished? || x.RefusedClosed?
    ensures forall p :: 0 <= p < |s.puts| ==> s.puts[p].Returned?
    ensures forall c :: 0 <= c < |s.closers| ==> s.closers[c].Gone?
  {
    hide Owned, GetEnabled, PutEnabled, CloseEnabled, Count;
    LockIsFree(cfg, s);
    forall p | 0 <= p < |s.puts|
      ensures s.puts[p].Returned?
    {
      if !s.puts[p].Returned? { PutMoves(s, p); }
    }
    forall c | 0 <= c < |s.closers|
      ensures s.closers[c].Gone?
    {
      if !s.closers[c].Gone? { CloserMoves(s, c); }
    }
    forall g | 0 <= g < |s.getters| && Owing(s.getters[g])
      ensures s.getters[g].Acquiring? && s.permits == 0
    {
      if !(s.getters[g].Acquiring? && s.permits == 0) { GetterMoves(cfg, s, g); }
    }
    forall x <- s.getters
      ensures x.Acquiring? || x.Dialing? || x.Initialising? || x.Holding? || x.Finished? || x.RefusedClosed?
    {
      var g :| 0 <= g < |s.getters| && s.getters[g] == x;
      assert Owing(s.getters[g]) ==> s.getters[g].Acquiring?;
    }
    SameCount(s.getters, HasPermit, Outside);
  }

  /** Only what is work of the pool moves in that sense; the rest is up to the network and the callers. */
  lemma OnlyWorkMoves(cfg: Config, s: State)
    requires CanMove(cfg, s)
    ensures WorkLeft(s)
  {
    if g: nat, act :|
      GetEnabled(cfg, s, g, act) && (act.Check? || act.Acquire? || act.Pop? || act.Evict? || act.Release?) {
      assert Owing(s.getters[g]);
    } else if p: nat, act :| PutEnabled(s, p, act) {
      assert !s.puts[p].Returned?;
    } else {
      var c: nat, act :| CloseEnabled(s, c, act);
      assert !s.closers[c].Gone?;
    }
  }

  /** The lock's holder can always move, so here nobody holds it. */
  lemma LockIsFree(cfg: Config, s: State)
    requires Owned(s) && CloseSafe(s) && !CanMove(cfg, s)
    ensures s.closedLock.None?
  {
    hide Owned, PutEnabled, GetEnabled, CloseEnabled;
    if s.closedLock.Some? {
      PutMoves(s, s.closedLock.value);
    }
  }

  lemma {:induction false} SameCount<T>(s: seq<T>, p: T -> bool, q: T -> bool)
    requires forall i :: 0 <= i < |s| ==> p(s[i]) == q(s[i])
    ensures Count(s, p) == Count(s, q)
  {
    if s != [] {
      SameCount(s[..|s| - 1], p, q);
    }
  }
}
