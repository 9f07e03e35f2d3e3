/** Every dialed connection is in one place, and every place knows its connection. */
module Ownership {
  import opened Bytes
  import opened Resp
  import opened IdleStack
  import opened Pool
  import P = Parser

  /** The connection the tasks and the stack put at a place. */
  function Claim(s: State, at: Place): Option<nat> {
    match at
    case With(g) => if g < |s.getters| && HasConn(s.getters[g]) then Some(s.getters[g].conn) else None
    case Returning(p) => if p < |s.puts| && Pending(s.puts[p]) then Some(s.puts[p].conn) else None
    case InStack(k) => if k < |s.idle| then Some(s.idle[k].conn) else None
    case Removed => None
    case Discarded => None
  }

  predicate OutOfPool(at: Place) {
    at.Removed? || at.Discarded?
  }

  /** The recorded places and the claims agree, both ways. */
  ghost predicate Owned(s: State) {
    |s.places| == |s.wires| &&
    (forall at :: Claim(s, at).Some? ==> Claim(s, at).value < |s.places| && s.places[Claim(s, at).value] == at) &&
    (forall c :: 0 <= c < |s.places| ==> OutOfPool(s.places[c]) || Claim(s, s.places[c]) == Some(c))
  }

  /** Nothing moves. */
  lemma Stays(s: State, t: State)
    requires Owned(s) && t.places == s.places && |t.wires| == |s.wires|
    requires forall at :: Claim(t, at) == Claim(s, at)
    ensures Owned(t)
  {
    hide Claim;
  }

  /** One connection moves from one place to another that was free. */
  lemma Moves(s: State, t: State, c: nat, from: Place, to: Place)
    requires Owned(s) && |t.wires| == |s.wires| && from != to
    requires Claim(s, from) == Some(c) && Claim(t, from) == None
    requires t.places == s.places[c := to]
    requires if OutOfPool(to) then Claim(t, to) == None else Claim(s, to) == None && Claim(t, to) == Some(c)
    requires forall at :: at != from && at != to ==> Claim(t, at) == Claim(s, at)
    ensures Owned(t)
  {
    hide Claim;
  }

  /** Acts that leave every connection where it is. */
  predicate Still(act: Act) {
    act.Check? || act.Acquire? || act.Evict? || act.DialFail? || act.InitDone? || act.Send? || act.Receive? || act.Release?
  }

  lemma StillGetter(cfg: Config, s: State, g: nat, act: Act)
    requires GetEnabled(cfg, s, g, act) && Still(act)
    ensures var t := GetApply(cfg, s, g, act);
      t.puts == s.puts && t.idle == s.idle && t.places == s.places && |t.wires| == |s.wires| &&
      g < |s.getters| == |t.getters| && t.getters == s.getters[g := t.getters[g]] &&
      Claim(t, With(g)) == Claim(s, With(g))
  {
    hide P.ParseReply, Encode, Sendable, Leftover, Expired, ApplyPop, ApplyDrop, ApplyDialOk;
  }

  lemma GetOwned(cfg: Config, s: State, g: nat, act: Act)
    requires Owned(s) && GetEnabled(cfg, s, g, act)
    ensures Owned(GetApply(cfg, s, g, act))
  {
    hide P.ParseReply, Encode, Sendable, Owned, ApplyPop, ApplyDrop, ApplyDialOk, ApplySend, ApplyReceive;
    var t := GetApply(cfg, s, g, act);
    if Still(act) {
      StillGetter(cfg, s, g, act);
      StillStays(s, t, g);
    } else if act.Pop? {
      PopOwned(cfg, s, g);
    } else if act.Drop? {
      DropOwned(s, g);
    } else if act.DialOk? {
      DialOwned(s, g);
    } else {
      Moves(s, t, s.getters[g].conn, With(g), if act.Remove? then Removed else Discarded);
    }
  }

  lemma StillStays(s: State, t: State, g: nat)
    requires Owned(s) && t.puts == s.puts && t.idle == s.idle && t.places == s.places && |t.wires| == |s.wires|
    requires g < |s.getters| == |t.getters| && t.getters == s.getters[g := t.getters[g]]
    requires Claim(t, With(g)) == Claim(s, With(g))
    ensures Owned(t)
  {
    hide Owned;
    Stays(s, t);
  }

  lemma PopOwned(cfg: Config, s: State, g: nat)
    requires Owned(s) && GetEnabled(cfg, s, g, Pop)
    ensures Owned(ApplyPop(cfg, s, g))
  {
    hide Expired, Owned;
    var t := ApplyPop(cfg, s, g);
    if s.idle == [] {
      Stays(s, t);
    } else {
      var k := |s.idle| - 1;
      Moves(s, t, s.idle[k].conn, InStack(k), if t.getters[g].Evicting? then Discarded else With(g));
    }
  }

  lemma DropOwned(s: State, g: nat)
    requires Owned(s) && UsesConn(s, g)
    ensures Owned(ApplyDrop(s, g))
  {
    hide Owned;
    var c := s.getters[g].conn;
    Moves(s, ApplyDrop(s, g), c, With(g), if s.wires[c].buf != [] then Discarded else Returning(|s.puts|));
  }

  lemma DialOwned(s: State, g: nat)
    requires Owned(s) && g < |s.getters| && s.getters[g].Dialing?
    ensures Owned(ApplyDialOk(s, g))
  {
    var t := ApplyDialOk(s, g);
    assert forall at :: at != With(g) ==> Claim(t, at) == Claim(s, at);
    assert Claim(t, With(g)) == Some(|s.places|);
    assert Claim(s, With(g)) == None;
    hide Claim;
  }

  lemma PutOwned(s: State, p: nat, act: PutAct)
    requires Owned(s) && PutEnabled(s, p, act)
    ensures Owned(PutApply(s, p, act))
  {
    hide Owned;
    var t := PutApply(s, p, act);
    if Pending(t.puts[p]) || act.Unlock? {
      Stays(s, t);
    } else {
      Moves(s, t, s.puts[p].conn, Returning(p), if act.Push? then InStack(|s.idle|) else Discarded);
    }
  }

  lemma CloseOwned(s: State, c: nat, act: CloseAct)
    requires Owned(s) && CloseEnabled(s, c, act)
    ensures Owned(CloseApply(s, c, act))
  {
    hide Unstacked;
    var t := CloseApply(s, c, act);
    assert forall at: Place :: !at.InStack? ==> Claim(t, at) == Claim(s, at);
    assert act.Flag? ==> forall at :: Claim(t, at) == Claim(s, at);
    assert act.Clear? ==> forall at: Place :: at.InStack? ==> Claim(t, at) == None;
    hide Claim;
  }

  /** Whatever happens, each connection stays in exactly one place. */
  lemma OwnedStep(cfg: Config, s: State, step: Step)
    requires Owned(s) && Enabled(cfg, s, step)
    ensures Owned(Apply(cfg, s, step))
  {
    hide GetEnabled, GetApply, PutEnabled, PutApply, CloseEnabled, CloseApply, Owned;
    var t := Apply(cfg, s, step);
    match step
    case Get(g, act) => GetOwned(cfg, s, g, act);
    case PutBack(p, act) => PutOwned(s, p, act);
    case Close(c, act) => CloseOwned(s, c, act);
    case _ => Stays(s, t);
  }

  /** Two places never hold the same connection: no two guards, no guard and the stack, no
      guard and a pending return, no connection twice in the stack. */
  lemma OneOwner(s: State, a: Place, b: Place)
    requires Owned(s) && Claim(s, a).Some? && Claim(s, a) == Claim(s, b)
    ensures a == b
  {
    hide Claim;
  }
}
