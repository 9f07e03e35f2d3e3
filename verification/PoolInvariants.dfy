/** What every step of the pool keeps, and so every run. */
module PoolInvariants {
  import opened Bytes
  import opened Values
  import opened Resp
  import opened Pool
  import P = Parser

  // ---------- Counting ----------

  function Count<T>(s: seq<T>, p: T -> bool): nat {
    if s == [] then 0 else Count(s[..|s| - 1], p) + if p(s[|s| - 1]) then 1 else 0
  }

  lemma {:induction false} CountUpdate<T>(s: seq<T>, i: nat, x: T, p: T -> bool)
    requires i < |s|
    ensures Count(s[i := x], p) == Count(s, p) - (if p(s[i]) then 1 else 0) + (if p(x) then 1 else 0)
  {
    var k := |s| - 1;
    if i < k {
      assert s[i := x][..k] == s[..k][i := x];
      CountUpdate(s[..k], i, x, p);
    } else {
      assert s[i := x][..k] == s[..k];
    }
  }

  lemma CountAppend<T>(s: seq<T>, x: T, p: T -> bool)
    ensures Count(s + [x], p) == Count(s, p) + if p(x) then 1 else 0
  {
    assert (s + [x])[..|s|] == s;
  }

  lemma {:induction false} CountNone<T>(s: seq<T>, p: T -> bool)
    ensures Count(s, p) == 0 <==> forall i :: 0 <= i < |s| ==> !p(s[i])
  {
    if s != [] {
      CountNone(s[..|s| - 1], p);
      assert s == s[..|s| - 1] + [s[|s| - 1]];
    }
  }

  lemma {:induction false} CountLess<T>(s: seq<T>, p: T -> bool, q: T -> bool)
    requires forall x :: p(x) ==> q(x)
    ensures Count(s, p) <= Count(s, q)
  {
    if s != [] {
      CountLess(s[..|s| - 1], p, q);
    }
  }

  // ---------- Runs ----------

  lemma NoSteps(cfg: Config, s: State)
    ensures Reaches(cfg, s, [], s)
  {
  }

  lemma {:induction false} OneMoreStep(cfg: Config, s: State, steps: seq<Step>, mid: State, step: Step)
    requires Reaches(cfg, s, steps, mid) && Enabled(cfg, mid, step)
    ensures Reaches(cfg, s, steps + [step], Apply(cfg, mid, step))
    decreases |steps|
  {
    hide Enabled, Apply;
    if steps == [] {
      assert [step][1..] == [];
    } else {
      assert (steps + [step])[1..] == steps[1..] + [step];
      OneMoreStep(cfg, Apply(cfg, s, steps[0]), steps[1..], mid, step);
    }
  }

  /** Extends a run by one step. */
  lemma Go(cfg: Config, from: State, steps: seq<Step>, s: State, step: Step) returns (more: seq<Step>, t: State)
    requires Reaches(cfg, from, steps, s) && Enabled(cfg, s, step)
    ensures more == steps + [step] && Reaches(cfg, from, more, t) && t == Apply(cfg, s, step)
  {
    hide Enabled, Apply;
    OneMoreStep(cfg, from, steps, s, step);
    more, t := steps + [step], Apply(cfg, s, step);
  }

  lemma {:induction false} Through(cfg: Config, s: State, a: seq<Step>, mid: State, b: seq<Step>, t: State)
    requires Reaches(cfg, s, a, mid) && Reaches(cfg, mid, b, t)
    ensures Reaches(cfg, s, a + b, t)
    decreases |a|
  {
    hide Enabled, Apply;
    if a == [] {
      assert a + b == b;
    } else {
      assert (a + b)[1..] == a[1..] + b;
      Through(cfg, Apply(cfg, s, a[0]), a[1..], mid, b, t);
    }
  }

  // ---------- What each task may do ----------

  /** Task by task: what a caller of `get`, and the guard it holds, may do next. */
  lemma GetterMay(cfg: Config, s: State, g: nat, act: Act)
    requires g < |s.getters| && (HasConn(s.getters[g]) ==> UsesConn(s, g))
    requires s.idle != [] ==> s.idle[|s.idle| - 1].conn < |s.places|
    ensures var x := s.getters[g]; var may := GetEnabled(cfg, s, g, act);
      (x.Checking? ==> (may <==> act.Check? && s.closedLock == None)) &&
      (x.Acquiring? ==> (may <==> act.Acquire? && s.permits > 0)) &&
      (x.Popping? ==> (may <==> act.Pop?)) &&
      (x.Evicting? ==> (may <==> act.Evict?)) &&
      (x.Dialing? ==> (may <==> act.DialOk? || act.DialFail?)) &&
      (x.Initialising? && !cfg.hasInit ==> (may <==> act.InitDone?)) &&
      (x.Initialising? && cfg.hasInit ==>
        (may <==> act.InitDone? || act.InitFail? || MayExchange(s, g, act))) &&
      (x.Holding? ==> (may <==> act.Drop? || act.Remove? || MayExchange(s, g, act))) &&
      (x.Releasing? ==> (may <==> act.Release?)) &&
      (x.Finished? || x.RefusedClosed? ==> !may)
  {
    hide P.ParseReply, Sendable;
  }

  /** Sending anything that gets a conforming answer, and reading the next reply once it has come. */
  ghost predicate MayExchange(s: State, g: nat, act: Act)
    requires UsesConn(s, g)
  {
    (act.Send? && Sendable(act.answer)) ||
    (act.Receive? && s.getters[g].use.owed != [] &&
     P.ParseReply(Unread(s, g)).result != Err(Redis(UnexpectedEof)) &&
     act.buffered <= |P.ParseReply(Unread(s, g)).rest|)
  }

  /** What a put task and a closer may do next; only the lock on `closed` makes them wait. */
  lemma OthersMay(s: State, i: nat, putAct: PutAct, closeAct: CloseAct)
    ensures i < |s.puts| && (Pending(s.puts[i]) ==> PutUsesConn(s, i)) ==>
      var x := s.puts[i]; var may := PutEnabled(s, i, putAct);
      (x.Starting? ==> (may <==> putAct.Start?)) && (x.Locking? ==> (may <==> putAct.Lock? && s.closedLock == None)) &&
      (x.Pushing? ==> (may <==> putAct.Push?)) && (x.Unlocking? ==> (may <==> putAct.Unlock?)) && (x.Returned? ==> !may)
    ensures i < |s.closers| ==>
      var x := s.closers[i]; var may := CloseEnabled(s, i, closeAct);
      (x.Asking? ==> (may <==> closeAct.Flag? && s.closedLock == None)) && (x.Clearing? ==> (may <==> closeAct.Clear?)) &&
      (x.Gone? ==> !may)
  {
  }

  /** The closer that sets the flag goes on to empty the stack; any later one returns at once. */
  lemma CloserDoes(s: State, c: nat, act: CloseAct)
    requires CloseEnabled(s, c, act)
    ensures var t := CloseApply(s, c, act);
      (act.Flag? ==> t.closed && t.idle == s.idle && t.closers == s.closers[c := if s.closed then Gone else Clearing]) &&
      (act.Clear? ==> t.closed == s.closed && t.idle == [] && t.closers == s.closers[c := Gone])
  {
  }

  /** The history counts what it says: guards handed out, dials begun while a put was on its way,
      and whether the stack was emptied after closing. */
  lemma HistoryMeans(cfg: Config, s: State, step: Step)
    requires Enabled(cfg, s, step)
    ensures var t := Apply(cfg, s, step);
      t.issued == s.issued + (if step.Get? && Issues(s, t, step.g) then 1 else 0) &&
      t.overtaking == s.overtaking + (if step.Get? && Overtakes(s, t, step.g) then 1 else 0) &&
      (t.cleared <==> s.cleared || (step.Close? && step.closeAct.Clear?))
  {
    hide GetEnabled, GetApply, Unstacked, PutUsesConn, Issues, Overtakes;
    if step.Get? {
      GetterHistory(cfg, s, step.g, step.act);
    }
  }

  predicate Issues(s: State, t: State, g: nat) {
    g < |s.getters| == |t.getters| && !s.getters[g].Holding? && t.getters[g].Holding?
  }

  predicate Overtakes(s: State, t: State, g: nat) {
    g < |s.getters| == |t.getters| && !s.getters[g].Dialing? && t.getters[g].Dialing? &&
    exists x <- s.puts :: x.Starting? || x.Locking? || x.Pushing?
  }

  lemma GetterHistory(cfg: Config, s: State, g: nat, act: Act)
    requires GetEnabled(cfg, s, g, act)
    ensures var t := GetApply(cfg, s, g, act);
      t.issued == s.issued + (if Issues(s, t, g) then 1 else 0) &&
      t.overtaking == s.overtaking + (if Overtakes(s, t, g) then 1 else 0) &&
      t.cleared == s.cleared
  {
    hide P.ParseReply, Sendable, Encode, Leftover;
    if act.Pop? {
      PopHistory(cfg, s, g);
    } else {
      GetMoves(cfg, s, g, act);
    }
  }

  lemma PopHistory(cfg: Config, s: State, g: nat)
    requires GetEnabled(cfg, s, g, Pop)
    ensures var t := ApplyPop(cfg, s, g);
      t.issued == s.issued + (if Issues(s, t, g) then 1 else 0) &&
      t.overtaking == s.overtaking + (if Overtakes(s, t, g) then 1 else 0)
  {
    assert (exists x <- s.puts :: Pending(x)) <==> exists x <- s.puts :: x.Starting? || x.Locking? || x.Pushing?;
  }

  // ---------- Permits ----------

  ghost predicate PermitsConserved(cfg: Config, s: State) {
    s.permits + Count(s.getters, HasPermit) == cfg.poolSize
  }

  /** A getter's step changes one getter. */
  lemma GetMoves(cfg: Config, s: State, g: nat, act: Act)
    requires GetEnabled(cfg, s, g, act)
    ensures var t := GetApply(cfg, s, g, act);
      g < |s.getters| == |t.getters| && t.getters == s.getters[g := t.getters[g]]
  {
    hide P.ParseReply, Sendable, ApplyPop, ApplyDrop, ApplySend, ApplyReceive, ApplyDialOk;
  }

  /** A permit moves between that getter and the semaphore. */
  lemma GetPermit(cfg: Config, s: State, g: nat, act: Act)
    requires GetEnabled(cfg, s, g, act)
    ensures var t := GetApply(cfg, s, g, act);
      g < |s.getters| == |t.getters| &&
      t.permits + (if HasPermit(t.getters[g]) then 1 else 0) == s.permits + (if HasPermit(s.getters[g]) then 1 else 0)
  {
    hide P.ParseReply, Sendable, ApplyPop, ApplyDrop, ApplySend, ApplyReceive, ApplyDialOk;
  }

  lemma OtherStep(cfg: Config, s: State, step: Step)
    requires Enabled(cfg, s, step) && !step.Get?
    ensures var t := Apply(cfg, s, step);
      t.permits == s.permits && t.getters == if step.NewGetter? then s.getters + [Checking] else s.getters
  {
    hide GetEnabled, GetApply, Unstacked, PutUsesConn;
  }

  lemma CountAfter(cfg: Config, s: State, step: Step, p: Getter -> bool)
    requires Enabled(cfg, s, step) && !p(Checking)
    ensures var t := Apply(cfg, s, step);
      match step
      case Get(g, _) => g < |s.getters| == |t.getters|
        && Count(t.getters, p) ==
           Count(s.getters, p) - (if p(s.getters[g]) then 1 else 0) + (if p(t.getters[g]) then 1 else 0)
      case _ => Count(t.getters, p) == Count(s.getters, p)
  {
    hide GetEnabled, GetApply, PutEnabled, PutApply, CloseEnabled, CloseApply, Count;
    var t := Apply(cfg, s, step);
    match step
    case Get(g, act) =>
      GetMoves(cfg, s, g, act);
      CountUpdate(s.getters, g, t.getters[g], p);
    case _ =>
      OtherStep(cfg, s, step);
      CountAppend(s.getters, Checking, p);
  }

  /** Free permits and permit holders add up to the pool size, whatever happens. */
  lemma PermitsStep(cfg: Config, s: State, step: Step)
    requires PermitsConserved(cfg, s) && Enabled(cfg, s, step)
    ensures PermitsConserved(cfg, Apply(cfg, s, step))
  {
    hide GetEnabled, GetApply, PutEnabled, PutApply, CloseEnabled, CloseApply, Count;
    CountAfter(cfg, s, step, HasPermit);
    match step
    case Get(g, act) => GetPermit(cfg, s, g, act);
    case _ => OtherStep(cfg, s, step);
  }
}
