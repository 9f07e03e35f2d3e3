/** Single commands, pipelines and transactions over a pool nobody else is using. */
module Client {
  import opened Bytes
  import opened Characters
  import Utf8
  import opened Values
  import opened Reader
  import opened Commands
  import opened Connections
  import opened Delivery
  import opened IdleStack
  import opened PoolObject
  import opened Exchange
  import opened ReplyReader
  import R = Resp
  import P = Parser

  /** What an exchange may touch: the pool, its idle connections, the one it would dial. */
  ghost function Reach(pool: ConnPool, dial: Dial): set<object>
    reads pool`idle
  {
    {pool} + pool.Conns() + pool.Streams() + if dial.Dialed? then {dial.conn, dial.conn.stream} else {}
  }

  ghost predicate Ready(pool: ConnPool, dial: Dial)
    reads pool, pool.Conns(), pool.Streams(), if dial.Dialed? then {dial.conn.stream} else {}
  {
    pool.Valid() && (pool.closed || pool.permits > 0) &&
    (dial.Dialed? ==> dial.conn.Valid() && pool.Separate(dial.conn))
  }

  /** A reply for each of `n` commands, in order; the first nil or error ends the reading. */
  method ReadAll(conn: Connection, n: nat) returns (r: Result<seq<Value>>)
    requires conn.Valid()
    modifies conn.stream
    ensures conn.Valid()
    ensures Agrees(ReadReplies(old(conn.Unread()), n), old(conn.Unread()), r, conn.Unread())
    ensures if r == Err(TOO_LONG) then conn.stream.buf != []
      else Lazy(old(conn.stream.arrivals), |conn.Unread()|, conn.stream.arrivals)
  {
    hide P.ParseReply, Flatten, IsSuffix, Onto, Agrees, Lazy, ReadReplies, Connection.Unread, BufReader.Valid;
    ghost var s, pieces := conn.Unread(), conn.stream.arrivals;
    LazyAtFirst(pieces, |s|);
    var results: seq<Value> := [];
    SuffixOfItself(s);
    NothingYet(ReadReplies(s, n).result);
    for i := 0 to n
      invariant conn.Valid() && IsSuffix(conn.Unread(), s)
      invariant Lazy(pieces, |conn.Unread()|, conn.stream.arrivals)
      invariant ReadReplies(s, n) == P.Collected(results, ReadReplies(conn.Unread(), n - i))
    {
      ghost var before, arrivals := conn.Unread(), conn.stream.arrivals;
      ReadStep(before, n - i);
      var v := conn.ParseReply();
      ReadOn(s, before, v, conn.Unread());
      if v != Err(TOO_LONG) { LazyThrough(pieces, |before|, arrivals, |conn.Unread()|, conn.stream.arrivals); }
      if v.Err? {
        GaveUp(s, before, v, conn.Unread(), ReadReplies(s, n));
        return Err(v.error);
      }
      OneMore(results, v.value, ReadReplies(conn.Unread(), n - i - 1).result);
      results := results + [v.value];
    }
    ReadDone(conn.Unread());
    Everything(results);
    Exactly(s, ReadReplies(s, n), Ok(results), conn.Unread());
    return Ok(results);
  }

  /** The sum of the estimates of all commands: their text and one byte more for each. */
  method EstimateAll(cmds: seq<Command>) returns (total: nat)
    ensures total == |WireAll(cmds)| + |cmds|
  {
    hide R.EncodeAll, R.Encode, AsReply, Wire;
    total := 0;
    NoCommands();
    for k := 0 to |cmds|
      invariant total == |WireAll(cmds[..k])| + k
    {
      var size := EstimateRespSize(cmds[k]);
      total := total + size;
      OneMoreCommand(cmds, k);
    }
    assert cmds[..|cmds|] == cmds;
  }

  method AppendAll(buf: Buffer, cmds: seq<Command>)
    modifies buf
    ensures buf.data == old(buf.data) + WireAll(cmds)
  {
    hide R.EncodeAll, R.Encode, AsReply, Wire;
    NoCommands();
    for k := 0 to |cmds|
      invariant buf.data == old(buf.data) + WireAll(cmds[..k])
    {
      ghost var sofar := buf.data;
      AppendArgs(buf, cmds[k]);
      OneMoreCommand(cmds, k);
      Assoc(old(buf.data), WireAll(cmds[..k]), Wire(cmds[k]));
    }
    assert cmds[..|cmds|] == cmds;
  }

  lemma NoCommands()
    ensures WireAll([]) == []
  {
  }

  lemma {:induction false} AsRepliesAppend(a: seq<Command>, b: seq<Command>)
    ensures AsReplies(a + b) == AsReplies(a) + AsReplies(b)
  {
    if a == [] {
      assert a + b == b;
    } else {
      assert (a + b)[1..] == a[1..] + b;
      AsRepliesAppend(a[1..], b);
    }
  }

  lemma OneMoreCommand(cmds: seq<Command>, k: nat)
    requires k < |cmds|
    ensures WireAll(cmds[..k + 1]) == WireAll(cmds[..k]) + Wire(cmds[k])
  {
    hide R.Encode, R.EncodeAll, AsReply;
    assert cmds[..k + 1] == cmds[..k] + [cmds[k]];
    AsRepliesAppend(cmds[..k], [cmds[k]]);
    assert AsReplies([cmds[k]]) == [AsReply(cmds[k])];
    R.EncodeAllAppend(AsReplies(cmds[..k]), [AsReply(cmds[k])]);
    OneReply(AsReply(cmds[k]));
  }

  lemma {:induction false} WireAllAppend(a: seq<Command>, b: seq<Command>)
    ensures WireAll(a + b) == WireAll(a) + WireAll(b)
  {
    hide R.Encode, R.EncodeAll, AsReply;
    AsRepliesAppend(a, b);
    R.EncodeAllAppend(AsReplies(a), AsReplies(b));
  }

  lemma OneCommand(cmd: Command)
    ensures WireAll([cmd]) == Wire(cmd)
  {
    hide R.Encode, R.EncodeAll, AsReply;
    assert AsReplies([cmd]) == [AsReply(cmd)];
    OneReply(AsReply(cmd));
  }

  // ---------- On one connection ----------

  /** Writes one command and reads one reply. */
  method Call(conn: Connection, args: Command) returns (r: Result<Value>)
    requires conn.Valid()
    modifies conn`sent, conn.stream
    ensures conn.Valid() && conn.sent == old(conn.sent) + CommandText(args)
    ensures Agrees(P.ParseReply(old(conn.Unread())), old(conn.Unread()), r, conn.Unread())
    ensures r == Err(TOO_LONG) ==> conn.stream.buf != []
    ensures OneWhole(old(conn.stream.buf), old(conn.stream.arrivals), r, conn.stream.buf, conn.stream.arrivals)
  {
    hide Wire, CommandText, Agrees, P.ParseReply, Flatten, Lazy, OneWhole;
    ghost var was, arrivals := conn.stream.buf, conn.stream.arrivals;
    var size := EstimateRespSize(args);
    var buf := new Buffer(size);
    AppendArgs(buf, args);
    assert [] + Wire(args) == Wire(args);
    conn.WriteAll(buf.data);
    r := conn.ParseReply();
    OneIsWhole(was, arrivals, r, conn.stream.buf, conn.stream.arrivals);
  }

  /** The text of all commands in a buffer sized beforehand: it never outgrows its capacity, and
      the slack is the number of commands. */
  method SerializeAll(cmds: seq<Command>) returns (buf: Buffer)
    ensures fresh(buf)
    ensures buf.data == WireAll(cmds) == CommandsText(cmds) && buf.capacity == |buf.data| + |cmds|
  {
    hide WireAll, CommandsText;
    WireAllAsText(cmds);
    var total := EstimateAll(cmds);
    buf := new Buffer(total);
    AppendAll(buf, cmds);
    assert [] + WireAll(cmds) == WireAll(cmds);
  }

  /** Writes all commands at once and reads a reply to each. */
  method CallAll(conn: Connection, cmds: seq<Command>) returns (r: Result<seq<Value>>)
    requires conn.Valid()
    modifies conn`sent, conn.stream
    ensures conn.Valid() && conn.sent == old(conn.sent) + CommandsText(cmds)
    ensures Agrees(ReadReplies(old(conn.Unread()), |cmds|), old(conn.Unread()), r, conn.Unread())
    ensures r == Err(TOO_LONG) ==> conn.stream.buf != []
    ensures AllWhole(old(conn.stream.buf), old(conn.stream.arrivals), |cmds|, r, conn.stream.buf, conn.stream.arrivals)
  {
    hide WireAll, CommandsText, Agrees, ReadReplies, Flatten, Lazy, AllWhole;
    ghost var was, arrivals := conn.stream.buf, conn.stream.arrivals;
    var buf := SerializeAll(cmds);
    conn.WriteAll(buf.data);
    r := ReadAll(conn, |cmds|);
    AllAreWhole(was, arrivals, |cmds|, r, conn.stream.buf, conn.stream.arrivals);
  }

  const MULTI: Command := OneWord("MULTI")
  const EXEC: Command := OneWord("EXEC")

  /** The two words, letter by letter. */
  lemma FrameWords()
    ensures |MULTI| == |EXEC| == 1 && Spells(MULTI[0], "MULTI") && Spells(EXEC[0], "EXEC")
  {
  }

  /** A transaction as it is written. */
  function Framed(cmds: seq<Command>): (all: seq<Command>)
    ensures |all| == |cmds| + 2
  {
    [MULTI] + cmds + [EXEC]
  }

  lemma OneWordStorable(word: string)
    requires IsAscii(word) && |word| < 10
    ensures Storable(OneWord(word))
  {
    assert OneWord(word)[1..] == [];
  }

  /** A server reading a transaction's text gets MULTI, the queued commands in order, and EXEC. */
  lemma TransactionDecodes(cmds: seq<Command>, tail: bytes)
    requires AllStorable(cmds)
    ensures ReadReplies(TransactionText(cmds) + tail, |cmds| + 2) ==
      Parsed(Ok([CommandValue(MULTI)] +
                seq(|cmds|, i requires 0 <= i < |cmds| => CommandValue(cmds[i])) +
                [CommandValue(EXEC)]), tail)
    ensures |MULTI| == |EXEC| == 1 && Spells(MULTI[0], "MULTI") && Spells(EXEC[0], "EXEC")
  {
    hide ReadReplies, WireAll, TransactionText, CommandValue, Storable, Utf8.Valid;
    OneWordStorable("MULTI");
    OneWordStorable("EXEC");
    var all := Framed(cmds);
    FramedAsText(cmds);
    FrameWords();
    CommandsDecode(all, tail);
    assert seq(|all|, i requires 0 <= i < |all| => CommandValue(all[i])) ==
      [CommandValue(MULTI)] + seq(|cmds|, i requires 0 <= i < |cmds| => CommandValue(cmds[i])) + [CommandValue(EXEC)];
  }

  /** MULTI, the commands in order, EXEC. */
  function TransactionText(cmds: seq<Command>): bytes {
    CommandText(MULTI) + CommandsText(cmds) + CommandText(EXEC)
  }

  lemma FramedAsText(cmds: seq<Command>)
    ensures WireAll(Framed(cmds)) == Wire(MULTI) + WireAll(cmds) + Wire(EXEC) == TransactionText(cmds)
  {
    hide WireAll, Wire, CommandText, CommandsText;
    WireAllAppend([MULTI] + cmds, [EXEC]);
    WireAllAppend([MULTI], cmds);
    OneCommand(MULTI);
    OneCommand(EXEC);
    WireAsText(MULTI);
    WireAsText(EXEC);
    WireAllAsText(cmds);
  }

  method SerializeTransaction(cmds: seq<Command>) returns (buf: Buffer)
    ensures fresh(buf)
    ensures buf.data == TransactionText(cmds) && buf.capacity == |buf.data| + |cmds| + 2
  {
    hide WireAll, Wire, TransactionText, CommandText;
    FramedAsText(cmds);
    var multi := EstimateRespSize(MULTI);
    var queued := EstimateAll(cmds);
    var exec := EstimateRespSize(EXEC);
    buf := new Buffer(multi + queued + exec);
    AppendArgs(buf, MULTI);
    assert [] + Wire(MULTI) == Wire(MULTI);
    AppendAll(buf, cmds);
    AppendArgs(buf, EXEC);
  }

  /** The reply to MULTI, one for each of `n` commands, and the classified reply to EXEC. */
  method ReadResults(conn: Connection, n: nat) returns (r: Result<seq<Value>>)
    requires conn.Valid()
    modifies conn.stream
    ensures conn.Valid()
    ensures Agrees(ReadTransaction(old(conn.Unread()), n), old(conn.Unread()), r, conn.Unread())
    ensures if r == Err(TOO_LONG) then conn.stream.buf != []
      else Lazy(old(conn.stream.arrivals), |conn.Unread()|, conn.stream.arrivals)
  {
    hide P.ParseReply, Flatten, IsSuffix, Onto, Agrees, Lazy, ReadReplies, Connection.Unread, BufReader.Valid;
    ghost var s, pieces := conn.Unread(), conn.stream.arrivals;
    ReadStep(s, n + 1);
    var multiOk := conn.ParseReply();
    SuffixOfItself(s);
    ReadOn(s, s, multiOk, conn.Unread());
    if multiOk.Err? {
      GaveUp(s, s, multiOk, conn.Unread(), ReadTransaction(s, n));
      return Err(multiOk.error);
    }
    ghost var seen := [multiOk.value];
    for i := 0 to n
      invariant conn.Valid() && IsSuffix(conn.Unread(), s)
      invariant Lazy(pieces, |conn.Unread()|, conn.stream.arrivals)
      invariant ReadReplies(s, n + 1) == P.Collected(seen, ReadReplies(conn.Unread(), n - i))
    {
      ghost var before, arrivals := conn.Unread(), conn.stream.arrivals;
      ReadStep(before, n - i);
      var queued := conn.ParseReply();
      ReadOn(s, before, queued, conn.Unread());
      if queued != Err(TOO_LONG) { LazyThrough(pieces, |before|, arrivals, |conn.Unread()|, conn.stream.arrivals); }
      if queued.Err? {
        GaveUp(s, before, queued, conn.Unread(), ReadTransaction(s, n));
        return Err(queued.error);
      }
      OneMore(seen, queued.value, ReadReplies(conn.Unread(), n - i - 1).result);
      seen := seen + [queued.value];
    }
    ghost var before, arrivals := conn.Unread(), conn.stream.arrivals;
    ReadDone(before);
    Everything(seen);
    var exec := conn.ParseReply();
    ReadOn(s, before, exec, conn.Unread());
    if exec != Err(TOO_LONG) { LazyThrough(pieces, |before|, arrivals, |conn.Unread()|, conn.stream.arrivals); }
    if exec.Err? {
      if exec.error.Nil? {
        Exactly(s, ReadTransaction(s, n), Err(TxFailed), conn.Unread());
        return Err(TxFailed);
      }
      GaveUp(s, before, exec, conn.Unread(), ReadTransaction(s, n));
      return Err(exec.error);
    }
    var outcome := match exec.value
      case Array(items) => if items == [] then Err(TxFailed) else Ok(items)
      case Nil => Err(TxFailed)
      case _ => Err(Other);
    Exactly(s, ReadTransaction(s, n), outcome, conn.Unread());
    return outcome;
  }

  method Transact(conn: Connection, cmds: seq<Command>) returns (r: Result<seq<Value>>)
    requires conn.Valid()
    modifies conn`sent, conn.stream
    ensures conn.Valid() && conn.sent == old(conn.sent) + TransactionText(cmds)
    ensures Agrees(ReadTransaction(old(conn.Unread()), |cmds|), old(conn.Unread()), r, conn.Unread())
    ensures r == Err(TOO_LONG) ==> conn.stream.buf != []
    ensures ExecWhole(old(conn.stream.buf), old(conn.stream.arrivals), |cmds|, r, conn.stream.buf, conn.stream.arrivals)
  {
    hide TransactionText, Agrees, ReadTransaction, Flatten, Lazy, ExecWhole;
    ghost var was, arrivals := conn.stream.buf, conn.stream.arrivals;
    var buf := SerializeTransaction(cmds);
    conn.WriteAll(buf.data);
    r := ReadResults(conn, |cmds|);
    ExecIsWhole(was, arrivals, |cmds|, r, conn.stream.buf, conn.stream.arrivals);
  }

  // ---------- Over the pool ----------

  /** How a connection was had: how many idle ones stayed below it, and whether it was one. */
  datatype Loan = Loan(conn: Connection, kept: nat, reused: bool)

  /** The idle connection on top of those kept, or the newly dialed one with none kept. */
  ghost predicate Lent(before: seq<PooledConnection>, dial: Dial, loan: Loan) {
    loan.kept <= |before| &&
    if loan.reused then loan.kept < |before| && loan.conn == before[loan.kept].conn
    else loan.kept == 0 && dial == Dialed(loan.conn)
  }

  /** The stack after the loan: what was kept, and on top the connection if its buffer is empty. */
  ghost function Returned(before: seq<PooledConnection>, loan: Loan, now: int): seq<PooledConnection>
    requires loan.kept <= |before|
    reads loan.conn.stream
  {
    before[..loan.kept] + if loan.conn.stream.buf == [] then [Pooled(loan.conn, now)] else []
  }

  /** Why there was no loan: the pool is closed, or nothing idle was fit and the dial failed. */
  ghost predicate Refused(pool: ConnPool, before: seq<PooledConnection>, dial: Dial, error: Error)
    reads pool
  {
    if pool.closed then error == Closed && pool.idle == before else dial == DialFailed(error) && pool.idle == []
  }

  /** A connection to exchange on, unless the pool is closed or a dial was needed and failed. */
  method Borrow(pool: ConnPool, clock: nat -> int, dial: Dial)
    returns (got: Result<PoolGuard>, ghost loan: Option<Loan>)
    requires Ready(pool, dial)
    modifies pool`permits, pool`idle
    ensures pool.Valid() && loan.Some? == got.Ok?
    ensures got.Ok? ==>
      var l := loan.value;
      Lent(old(pool.idle), dial, l) && pool.idle == old(pool.idle)[..l.kept] && pool.permits == old(pool.permits) - 1 &&
      fresh(got.value) && got.value.pool == pool && got.value.conn == l.conn && l.conn.Valid() && pool.Separate(l.conn) &&
      l.conn in old(Reach(pool, dial)) && l.conn.stream in old(Reach(pool, dial))
    ensures got.Ok? ==> !pool.closed
    ensures got.Err? ==> pool.permits == old(pool.permits) && Refused(pool, old(pool.idle), dial, got.error)
  {
    hide ConnPool.StackValid;
    var r, looks, kept, reused := pool.Get(clock, dial);
    got := r;
    loan := if r.Ok? then Some(Loan(r.value.conn, kept, reused)) else None;
  }

  /** One command, one reply, over one connection, which then goes back or is dropped. */
  method ProcessCmd(pool: ConnPool, args: Command, clock: nat -> int, dial: Dial, now: int)
    returns (r: Result<Value>, ghost loan: Option<Loan>)
    requires Ready(pool, dial)
    modifies Reach(pool, dial)
    ensures pool.Valid() && pool.permits == old(pool.permits) && pool.closed == old(pool.closed)
    ensures loan.None? ==> r.Err? && Refused(pool, old(pool.idle), dial, r.error)
    ensures loan.Some? ==>
      Lent(old(pool.idle), dial, loan.value) && pool.idle == Returned(old(pool.idle), loan.value, now)
    ensures loan.Some? ==>
      var c := loan.value.conn;
      c.sent == old(c.sent) + CommandText(args) && Agrees(P.ParseReply(old(c.Unread())), old(c.Unread()), r, c.Unread())
    ensures loan.Some? && r == Err(TOO_LONG) ==> pool.idle == old(pool.idle)[..loan.value.kept]
    ensures loan.Some? ==>
      var c := loan.value.conn;
      OneWhole(old(c.stream.buf), old(c.stream.arrivals), r, c.stream.buf, c.stream.arrivals)
  {
    hide ConnPool.StackValid, CommandText, Agrees, P.ParseReply, Flatten, OneWhole, BufReader.Unread;
    var got;
    got, loan := Borrow(pool, clock, dial);
    if got.Err? {
      return Err(got.error), loan;
    }
    var guard := got.value;
    r := Call(guard.conn, args);
    guard.Drop(now);
  }

  // ---------- Batches ----------

  /** Commands queued for one write, and one reply each. */
  class Pipeline {
    const pool: ConnPool
    var cmds: seq<Command>

    constructor (pool: ConnPool)
      ensures this.pool == pool && cmds == []
    {
      this.pool := pool;
      cmds := [];
    }

    method Cmd(args: Command)
      modifies this`cmds
      ensures cmds == old(cmds) + [args]
    {
      cmds := cmds + [args];
    }

    /** Takes the whole queue, writes it, and reads a reply to each command in order. */
    method Execute(clock: nat -> int, dial: Dial, now: int) returns (r: Result<seq<Value>>, ghost loan: Option<Loan>)
      requires Ready(pool, dial)
      modifies this`cmds, Reach(pool, dial)
      ensures cmds == []
      ensures pool.Valid() && pool.permits == old(pool.permits) && pool.closed == old(pool.closed)
      ensures old(cmds) == [] ==> loan.None? && r == Ok([]) && pool.idle == old(pool.idle)
      ensures old(cmds) != [] && loan.None? ==> r.Err? && Refused(pool, old(pool.idle), dial, r.error)
      ensures loan.Some? ==>
        Lent(old(pool.idle), dial, loan.value) && pool.idle == Returned(old(pool.idle), loan.value, now)
      ensures loan.Some? ==>
        var c, queued := loan.value.conn, old(cmds);
        c.sent == old(c.sent) + CommandsText(queued) &&
        Agrees(ReadReplies(old(c.Unread()), |queued|), old(c.Unread()), r, c.Unread()) &&
        AllWhole(old(c.stream.buf), old(c.stream.arrivals), |queued|, r, c.stream.buf, c.stream.arrivals)
    {
      hide ConnPool.StackValid, CommandsText, Agrees, ReadReplies, Flatten, AllWhole, BufReader.Unread;
      var argsList := cmds;
      cmds := [];
      if argsList == [] {
        return Ok([]), None;
      }
      var got;
      got, loan := Borrow(pool, clock, dial);
      if got.Err? {
        return Err(got.error), loan;
      }
      var guard := got.value;
      r := CallAll(guard.conn, argsList);
      guard.Drop(now);
    }

    method Clear()
      modifies this`cmds
      ensures cmds == []
    {
      cmds := [];
    }
  }

  /** Commands queued to be executed as one transaction. */
  class Multi {
    const pool: ConnPool
    var cmds: seq<Command>

    constructor (pool: ConnPool)
      ensures this.pool == pool && cmds == []
    {
      this.pool := pool;
      cmds := [];
    }

    method Cmd(args: Command)
      modifies this`cmds
      ensures cmds == old(cmds) + [args]
    {
      cmds := cmds + [args];
    }

    /** Takes the whole queue, writes it framed by MULTI and EXEC, and reports EXEC's reply. */
    method Exec(clock: nat -> int, dial: Dial, now: int) returns (r: Result<seq<Value>>, ghost loan: Option<Loan>)
      requires Ready(pool, dial)
      modifies this`cmds, Reach(pool, dial)
      ensures cmds == []
      ensures pool.Valid() && pool.permits == old(pool.permits) && pool.closed == old(pool.closed)
      ensures old(cmds) == [] ==> loan.None? && r == Ok([]) && pool.idle == old(pool.idle)
      ensures old(cmds) != [] && loan.None? ==> r.Err? && Refused(pool, old(pool.idle), dial, r.error)
      ensures loan.Some? ==>
        Lent(old(pool.idle), dial, loan.value) && pool.idle == Returned(old(pool.idle), loan.value, now)
      ensures loan.Some? ==>
        var c, queued := loan.value.conn, old(cmds);
        c.sent == old(c.sent) + (CommandText(MULTI) + CommandsText(queued) + CommandText(EXEC)) &&
        Agrees(ReadTransaction(old(c.Unread()), |queued|), old(c.Unread()), r, c.Unread()) &&
        ExecWhole(old(c.stream.buf), old(c.stream.arrivals), |queued|, r, c.stream.buf, c.stream.arrivals)
      ensures |MULTI| == |EXEC| == 1 && Spells(MULTI[0], "MULTI") && Spells(EXEC[0], "EXEC")
    {
      hide ConnPool.StackValid, CommandText, CommandsText, OneWord, Spells, Agrees, ReadTransaction, Flatten, ExecWhole;
      hide BufReader.Unread;
      FrameWords();
      var queued := cmds;
      cmds := [];
      if queued == [] {
        return Ok([]), None;
      }
      var got;
      got, loan := Borrow(pool, clock, dial);
      if got.Err? {
        return Err(got.error), loan;
      }
      var guard := got.value;
      r := Transact(guard.conn, queued);
      guard.Drop(now);
    }

    method Discard()
      modifies this`cmds
      ensures cmds == []
    {
      cmds := [];
    }
  }
}
