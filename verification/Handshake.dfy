/** What happens on a new connection before the pool hands it out: AUTH and SELECT, if asked for. */
module Handshake {
  import opened Bytes
  import opened Characters
  import opened Utf8
  import opened Decimal
  import opened Values
  import opened Reader
  import opened Commands
  import opened Connections
  import opened ReplyReader
  import Client
  import F = Frames
  import R = Resp
  import P = Parser

  const AUTH_TEXT: Str := Word("AUTH")
  const SELECT_TEXT: Str := Word("SELECT")

  /** OK in any mixture of cases. */
  predicate IsOk(s: bytes) {
    |s| == 2 && (s[0] == 79 || s[0] == 111) && (s[1] == 75 || s[1] == 107)
  }

  /** An error refuses, and so does a status other than OK; any other reply is taken for consent. */
  function Consent(o: Result<Value>): Result<()> {
    match o
    case Err(e) => Err(e)
    case Ok(v) => if v.Status? && !IsOk(v.text) then Err(Redis(Rejected(v.text))) else Ok(())
  }

  function DbText(db: nat): Str {
    AsciiValid(Digits(db));
    Digits(db)
  }

  /** The commands a new connection starts with. */
  function Greeting(password: Option<Str>, db: i64): seq<Command> {
    (if password.Some? then [[AUTH_TEXT, password.value]] else []) +
    (if db > 0 then [[SELECT_TEXT, DbText(db)]] else [])
  }

  /** Letter by letter: AUTH and the password, if there is one; SELECT and the database's number,
      if it is positive. */
  lemma GreetingSpelled(password: Option<Str>, db: i64)
    ensures var all := Greeting(password, db);
      |all| == (if password.Some? then 1 else 0) + (if db > 0 then 1 else 0) &&
      (password.Some? ==> |all[0]| == 2 && Spells(all[0][0], "AUTH") && all[0][1] == password.value) &&
      (db > 0 ==> var last := all[|all| - 1]; |last| == 2 && Spells(last[0], "SELECT") && Spells(last[1], Print(db)))
  {
    hide Digits, Print;
    if db > 0 { DigitsText(db); }
  }

  lemma {:induction false} CommandsTextAppend(cmds: seq<Command>, cmd: Command)
    ensures CommandsText(cmds + [cmd]) == CommandsText(cmds) + CommandText(cmd)
    ensures CommandsText([cmd]) == CommandText(cmd)
  {
    hide CommandText;
    assert CommandsText([cmd]) == CommandText(cmd) + CommandsText([]);
    if cmds == [] {
      assert cmds + [cmd] == [cmd];
    } else {
      assert (cmds + [cmd])[1..] == cmds[1..] + [cmd];
      CommandsTextAppend(cmds[1..], cmd);
      Assoc(CommandText(cmds[0]), CommandsText(cmds[1..]), CommandText(cmd));
    }
  }

  lemma NothingToSay()
    ensures CommandsText([]) == []
  {
  }

  /** The replies to `n` of them, read until one refuses. */
  function Greet(s: bytes, n: nat): Parsed<()>
    decreases n
  {
    if n == 0 then Parsed(Ok(()), s)
    else
      var p := P.ParseReply(s);
      match Consent(p.result)
      case Err(e) => Parsed(Err(e), p.rest)
      case Ok(_) => Greet(p.rest, n - 1)
  }

  lemma {:induction false} GreetMore(s: bytes, n: nat)
    ensures var p := Greet(s, n);
      Greet(s, n + 1) == if p.result.Err? then p else Greet(p.rest, 1)
    decreases n
  {
    if n > 0 && Consent(P.ParseReply(s).result).Ok? {
      GreetMore(P.ParseReply(s).rest, n - 1);
    }
  }

  lemma GreetOne(s: bytes)
    ensures Greet(s, 1) == Parsed(Consent(P.ParseReply(s).result), P.ParseReply(s).rest)
  {
  }

  /** Sends one command of the greeting and checks its reply. */
  method Ask(conn: Connection, args: Command) returns (r: Result<()>)
    requires conn.Valid()
    modifies conn`sent, conn.stream
    ensures conn.Valid() && conn.sent == old(conn.sent) + CommandText(args)
    ensures Agrees(Greet(old(conn.Unread()), 1), old(conn.Unread()), r, conn.Unread())
  {
    hide CommandText, P.ParseReply, Flatten, Greet, BufReader.Unread;
    GreetOne(conn.Unread());
    var v := Client.Call(conn, args);
    match v {
      case Err(e) => return Err(e);
      case Ok(value) =>
        if value.Status? && !IsOk(value.text) {
          return Err(Redis(Rejected(value.text)));
        }
        return Ok(());
    }
  }

  /** A second command's reply is read behind the first's, if that one was granted. */
  lemma GreetTwo(s: bytes, first: Result<()>, mid: bytes, r: Result<()>, rest: bytes)
    requires Agrees(Greet(s, 1), s, first, mid)
    requires if first.Err? then r == first && rest == mid else Agrees(Greet(mid, 1), mid, r, rest)
    ensures Agrees(Greet(s, 2), s, r, rest)
  {
    hide Greet, IsSuffix;
    GreetMore(s, 1);
    if first.Ok? {
      GreetOne(s);
      F.ReplySuffix(s);
      AgreesBehind(Greet(mid, 1), s, mid, r, rest);
    }
  }

  lemma NothingAsked(s: bytes)
    ensures Greet(s, 0) == Parsed(Ok(()), s)
  {
  }

  /** Authenticates and selects the database, each only if asked for, the second only once the
      first was granted. */
  method InitConn(conn: Connection, password: Option<Str>, db: i64) returns (r: Result<()>, ghost asked: nat)
    requires conn.Valid()
    modifies conn`sent, conn.stream
    ensures conn.Valid()
    ensures asked <= |Greeting(password, db)| && (r.Ok? ==> asked == |Greeting(password, db)|)
    ensures conn.sent == old(conn.sent) + CommandsText(Greeting(password, db)[..asked])
    ensures Agrees(Greet(old(conn.Unread()), |Greeting(password, db)|), old(conn.Unread()), r, conn.Unread())
    ensures r.Err? ==> asked > 0 && Greet(old(conn.Unread()), asked - 1).result.Ok?
  {
    hide CommandText, P.ParseReply, Flatten, Greet, BufReader.Unread, CommandsText, IsSuffix, Utf8.Valid, DbText;
    ghost var s, sent, all := conn.Unread(), conn.sent, Greeting(password, db);
    asked := 0;
    r := Ok(());
    NothingAsked(s);
    NothingToSay();
    assert all[..0] == [];
    if password.Some? {
      var args := [AUTH_TEXT, password.value];
      r := Ask(conn, args);
      asked := 1;
      assert all[..1] == [args];
      CommandsTextAppend([], args);
      if r.Err? {
        if db > 0 { GreetTwo(s, r, conn.Unread(), r, conn.Unread()); }
        return;
      }
    }
    if db > 0 {
      ghost var first, mid := r, conn.Unread();
      var args := [SELECT_TEXT, DbText(db)];
      r := Ask(conn, args);
      CommandsTextAppend([], args);
      CommandsTextAppend(all[..asked], args);
      assert all[..asked] + [args] == all[..asked + 1];
      Assoc(sent, CommandsText(all[..asked]), CommandText(args));
      if asked == 1 { GreetTwo(s, first, mid, r, conn.Unread()); }
      asked := asked + 1;
    }
  }

  // ---------- What it accepts ----------

  predicate Grants(r: R.Reply) {
    Consent(R.Outcome(r)).Ok?
  }

  /** A status grants only as OK, an error or a null never, and any other reply that parses does. */
  lemma WhatGrants(r: R.Reply)
    requires R.Sendable(r)
    ensures Grants(r) <==>
      match r {
        case SimpleString(text) => Spells(text, "OK") || Spells(text, "Ok") || Spells(text, "oK") || Spells(text, "ok")
        case SimpleError(_) => false
        case NullBulk => false
        case NullArray => false
        case Integer(_) => true
        case Bulk(payload) => Utf8.Valid(payload)
        case Array(elements) => R.Elements(elements).Ok?
      }
    ensures !Grants(r) && r.SimpleString? ==> Consent(R.Outcome(r)) == Err(Redis(Rejected(Lossy(r.text))))
    ensures !Grants(r) && r.SimpleError? ==> Consent(R.Outcome(r)) == Err(Redis(Server(Lossy(r.message))))
    ensures r.NullBulk? || r.NullArray? ==> Consent(R.Outcome(r)) == Err(Error.Nil)
    ensures !Grants(r) && r.Bulk? ==> Consent(R.Outcome(r)) == Err(Redis(InvalidUtf8))
    ensures !Grants(r) && r.Array? ==> Consent(R.Outcome(r)) == Err(R.Elements(r.elements).error)
  {
    hide Lossy, Utf8.Valid;
    if r.SimpleString? {
      if IsOk(r.text) { LossyOfAscii(r.text); }
      if IsOk(Lossy(r.text)) { AsciiFromLossy(r.text); }
    }
  }

  lemma LossyOfAscii(s: bytes)
    requires AllAscii(s)
    ensures Lossy(s) == s
  {
    AsciiValid(s);
    LossyOfValid(s);
  }

  /** The first answer that refuses decides the error, and those behind it stay unread. */
  lemma {:induction false} RefusedBy(rs: seq<R.Reply>, k: nat, tail: bytes)
    requires R.AllSendable(rs) && k < |rs| && !Grants(rs[k]) && forall i :: 0 <= i < k ==> Grants(rs[i])
    ensures Greet(R.EncodeAll(rs) + tail, |rs|) ==
      Parsed(Err(Consent(R.Outcome(rs[k])).error), R.Leftover(rs[k]) + (R.EncodeAll(rs[k + 1..]) + tail))
    decreases k
  {
    hide P.ParseReply, R.Encode, R.EncodeAll, R.Outcome, R.Leftover, R.Sendable, Consent;
    var more := R.EncodeAll(rs[1..]) + tail;
    R.LeftoverSplit(rs, tail);
    R.RoundTrip(rs[0], more);
    if k > 0 {
      GrantsWhole(rs[0]);
      assert [] + more == more;
      assert rs[1..][k - 1] == rs[k] && rs[1..][k..] == rs[k + 1..];
      RefusedBy(rs[1..], k - 1, tail);
    }
  }

  /** Against a server that answers each command, the connection is accepted exactly when every
      answer grants, and then all answers, and nothing more, have been read. */
  lemma {:induction false} AcceptedIff(rs: seq<R.Reply>, tail: bytes)
    requires R.AllSendable(rs)
    ensures var p := Greet(R.EncodeAll(rs) + tail, |rs|);
      (p.result.Ok? <==> forall i :: 0 <= i < |rs| ==> Grants(rs[i])) && (p.result.Ok? ==> p.rest == tail)
  {
    hide P.ParseReply, R.Encode, R.Outcome, R.Leftover, R.Sendable, Consent;
    if rs == [] {
      assert R.EncodeAll(rs) + tail == tail;
    } else {
      var more := R.EncodeAll(rs[1..]) + tail;
      R.LeftoverSplit(rs, tail);
      R.RoundTrip(rs[0], more);
      if Grants(rs[0]) {
        GrantsWhole(rs[0]);
        assert [] + more == more;
        AcceptedIff(rs[1..], tail);
        forall i | 0 < i < |rs|
          ensures rs[i] == rs[1..][i - 1]
        {
        }
      }
    }
  }

  lemma GrantsWhole(r: R.Reply)
    requires Grants(r)
    ensures R.Leftover(r) == []
  {
    hide R.Leftover, R.Outcome;
    R.NoLeftover(r);
  }
}
