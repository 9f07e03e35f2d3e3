/** Closing the pool: who holds the lock, why nothing is stacked afterwards, and how many
    guards can still be handed out. */
module Closing {
  import opened Bytes
  import opened Resp
  import opened IdleStack
  import opened Pool
  import opened PoolInvariants
  import P = Parser

  /** The lock on `closed` is held by the one put that is about to push or has pushed. */
  ghost predicate Locked(s: State) {
    (forall p :: 0 <= p < |s.puts| && OwnsLock(s.puts[p]) ==> s.closedLock == Some(p)) &&
    (s.closedLock.Some? ==> s.closedLock.value < |s.puts| && OwnsLock(s.puts[s.closedLock.value]))
  }

  /** A put only pushes into an open pool, and a cleared stack stays empty. */
  ghost predicate CloseSafe(s: State) {
    Locked(s) &&
    (s.closed ==> forall p :: 0 <= p < |s.puts| ==> !s.puts[p].Pushing?) &&
    (forall c :: 0 <= c < |s.closers| && s.closers[c].Clearing? ==> s.closed) &&
    (s.cleared ==> s.closed && s.idle == [])
  }

  /** Getter steps leave the clock, the lock and the flag alone. */
  lemma GetLeaves(cfg: Config, s: State, g: nat, act: Act)
    requires GetEnabled(cfg, s, g, act)
    ensures var t := GetApply(cfg, s, g, act);
      t.closed == s.closed && t.cleared == s.cleared && t.closedLock == s.closedLock
      && t.closers == s.closers && t.clock == s.clock
  {
    hide P.ParseReply, Sendable, ApplyPop, ApplyDrop, ApplySend, ApplyReceive, ApplyDialOk;
  }

  /** They push nothing. */
  lemma GetIdle(cfg: Config, s: State, g: nat, act: Act)
    requires GetEnabled(cfg, s, g, act)
    ensures GetApply(cfg, s, g, act).idle <= s.idle
  {
    hide P.ParseReply, Encode, Sendable, Leftover, Expired, Pending, ApplyDialOk, ApplySend, ApplyReceive, ApplyDrop;
    var t := GetApply(cfg, s, g, act);
    if act.Pop? && s.idle != [] {
      assert t.idle == s.idle[..|s.idle| - 1];
    } else {
      QuietIdle(cfg, s, g, act);
    }
  }

  lemma QuietIdle(cfg: Config, s: State, g: nat, act: Act)
    requires GetEnabled(cfg, s, g, act) && (act.Pop? ==> s.idle == [])
    ensures GetApply(cfg, s, g, act).idle == s.idle
  {
    hide P.ParseReply, Encode, Sendable, Leftover, Expired, Pending;
  }

  /** They lock nothing: a drop at most spawns a put. */
  lemma GetPuts(cfg: Config, s: State, g: nat, act: Act)
    requires GetEnabled(cfg, s, g, act)
    ensures var t := GetApply(cfg, s, g, act);
      t.puts == s.puts || (HasConn(s.getters[g]) && t.puts == s.puts + [Starting(s.getters[g].conn)])
  {
    hide P.ParseReply, Encode, Sendable, Leftover, Expired, Pending;
  }

  lemma PutSafe(s: State, p: nat, act: PutAct)
    requires CloseSafe(s) && PutEnabled(s, p, act)
    ensures CloseSafe(PutApply(s, p, act))
  {
    hide PutUsesConn, Pending;
  }

  lemma {:induction false} CloseSafeStep(cfg: Config, s: State, step: Step)
    requires CloseSafe(s) && Enabled(cfg, s, step)
    ensures CloseSafe(Apply(cfg, s, step))
  {
    hide GetEnabled, GetApply, PutEnabled, PutApply, Unstacked;
    match step
    case Get(g, act) =>
      GetLeaves(cfg, s, g, act);
      GetIdle(cfg, s, g, act);
      GetPuts(cfg, s, g, act);
    case PutBack(p, act) => PutSafe(s, p, act);
    case _ =>
  }

  /** From the moment the closer that set the flag has emptied the stack: it stays empty, and a
      connection that a getter holds later was with it already or was dialed since. */
  lemma {:induction false} ClearedStep(cfg: Config, s: State, step: Step)
    requires CloseSafe(s) && s.cleared && Enabled(cfg, s, step)
    ensures var t := Apply(cfg, s, step);
      t.cleared && t.idle == [] && |s.places| <= |t.places|
      && forall c, g :: 0 <= c < |s.places| && t.places[c] == With(g) ==> s.places[c] == With(g)
  {
    hide GetEnabled, GetApply;
    match step
    case Get(g, act) =>
      GetLeaves(cfg, s, g, act);
      GetIdle(cfg, s, g, act);
      GetPlaces(cfg, s, g, act);
    case _ =>
  }

  /** With an empty stack, a getter step gives no getter a connection that existed before. */
  lemma GetPlaces(cfg: Config, s: State, g: nat, act: Act)
    requires s.idle == [] && GetEnabled(cfg, s, g, act)
    ensures var t := GetApply(cfg, s, g, act);
      |s.places| <= |t.places|
      && forall c, h :: 0 <= c < |s.places| && t.places[c] == With(h) ==> s.places[c] == With(h)
  {
    hide P.ParseReply, Encode, Sendable, Leftover, Expired, Pending;
  }

  lemma {:induction false} CloseIsFinal(cfg: Config, s: State, steps: seq<Step>, t: State)
    requires CloseSafe(s) && s.cleared && Reaches(cfg, s, steps, t)
    ensures t.cleared && t.idle == [] && |s.places| <= |t.places|
    ensures forall c, g :: 0 <= c < |s.places| && t.places[c] == With(g) ==> s.places[c] == With(g)
    decreases |steps|
  {
    hide Enabled, Apply, CloseSafe;
    if steps != [] {
      var mid := Apply(cfg, s, steps[0]);
      ClearedStep(cfg, s, steps[0]);
      CloseSafeStep(cfg, s, steps[0]);
      CloseIsFinal(cfg, mid, steps[1..], t);
    } else {
      EmptyStack(s);
    }
  }

  lemma EmptyStack(s: State)
    requires CloseSafe(s) && s.cleared
    ensures s.idle == []
  {
  }

  // ---------- Guards handed out after closing ----------

  /** Past the closed check and without a guard yet. */
  predicate PastCheck(x: Getter) {
    x.Acquiring? || x.Popping? || x.Dialing? || x.Initialising?
  }

  lemma GetPast(cfg: Config, s: State, g: nat, act: Act)
    requires s.closed && GetEnabled(cfg, s, g, act)
    ensures var t := GetApply(cfg, s, g, act);
      g < |s.getters| == |t.getters| && t.closed &&
      t.issued + (if PastCheck(t.getters[g]) then 1 else 0) <= s.issued + (if PastCheck(s.getters[g]) then 1 else 0)
  {
    hide P.ParseReply, Encode, Sendable, Leftover, Expired, Pending;
  }

  lemma PastStep(cfg: Config, s: State, step: Step)
    requires s.closed && Enabled(cfg, s, step)
    ensures var t := Apply(cfg, s, step);
      t.closed && t.issued + Count(t.getters, PastCheck) <= s.issued + Count(s.getters, PastCheck)
  {
    hide GetEnabled, GetApply, Count, Unstacked, PutUsesConn;
    CountAfter(cfg, s, step, PastCheck);
    match step
    case Get(g, act) => GetPast(cfg, s, g, act);
    case _ =>
  }

  /** Once the pool is closed, the guards still handed out, together with the callers that may
      yet get one, never exceed the callers that were past the check when it closed. */
  lemma {:induction false} BoundedHandOut(cfg: Config, s: State, steps: seq<Step>, t: State)
    requires s.closed && Reaches(cfg, s, steps, t)
    ensures t.closed && (t.issued - s.issued) + Count(t.getters, PastCheck) <= Count(s.getters, PastCheck)
    decreases |steps|
  {
    hide Enabled, Apply, Count;
    if steps != [] {
      PastStep(cfg, s, steps[0]);
      BoundedHandOut(cfg, Apply(cfg, s, steps[0]), steps[1..], t);
    }
  }

  /** A caller not past the check when the pool is closed: at its start, or sent back to it by
      an expired connection, or already refused. */
  predicate TooLate(x: Getter) {
    x.Checking? || x.Evicting? || x.RefusedClosed?
  }

  lemma GetTooLate(cfg: Config, s: State, g: nat, act: Act)
    requires s.closed && GetEnabled(cfg, s, g, act) && TooLate(s.getters[g])
    ensures TooLate(GetApply(cfg, s, g, act).getters[g])
  {
    hide P.ParseReply, Encode, Sendable, Leftover, Expired, ApplyDrop, ApplyReceive, ApplySend, ApplyPop;
  }

  lemma {:induction false} TooLateStep(cfg: Config, s: State, step: Step, g: nat)
    requires s.closed && Enabled(cfg, s, step) && g < |s.getters| && TooLate(s.getters[g])
    ensures var t := Apply(cfg, s, step); t.closed && g < |t.getters| && TooLate(t.getters[g])
  {
    hide GetEnabled, GetApply, Unstacked, PutUsesConn, TooLate;
    match step
    case Get(h, act) =>
      GetLeaves(cfg, s, h, act);
      GetMoves(cfg, s, h, act);
      if h == g { GetTooLate(cfg, s, g, act); }
    case _ =>
  }

  /** Such a caller never gets a connection: refusal is its only way out. */
  lemma {:induction false} LateCallersAreRefused(cfg: Config, s: State, steps: seq<Step>, t: State, g: nat)
    requires s.closed && Reaches(cfg, s, steps, t) && g < |s.getters|
    requires s.getters[g].Checking? || s.getters[g].Evicting? || s.getters[g].RefusedClosed?
    ensures g < |t.getters|
    ensures t.getters[g].Checking? || t.getters[g].Evicting? || t.getters[g].RefusedClosed?
    decreases |steps|
  {
    hide Enabled, Apply;
    if steps != [] {
      TooLateStep(cfg, s, steps[0], g);
      LateCallersAreRefused(cfg, Apply(cfg, s, steps[0]), steps[1..], t, g);
    }
  }
}
