/** The connection pool as an interleaving of its tasks: callers of `get` with the guards they
    come to hold, the put tasks that dropped guards spawn, and callers of `close`. They share a
    semaphore, the idle stack and the `closed` flag behind its own lock. Each step is what one
    task does between two points at which it can be suspended. */
module Pool {
  import opened Bytes
  import opened Values
  import opened Resp
  import opened IdleStack
  import P = Parser

  datatype Config = Config(poolSize: nat, idleTimeout: Option<nat>, hasInit: bool)

  /** What a guard has exchanged: the replies still owed to the commands it sent, and whether a
      reply it read was not consumed to its end. */
  datatype Use = Use(owed: seq<Reply>, torn: bool)

  const UNUSED: Use := Use([], false)

  datatype Getter =
    | Checking
    | Acquiring
    | Popping
    | Evicting
    | Dialing
    | Initialising(conn: nat, use: Use)
    | Holding(conn: nat, use: Use)
    | Releasing
    | Finished
    | RefusedClosed

  datatype Put =
    | Starting(conn: nat)
    | Locking(conn: nat, usedAt: int)
    | Pushing(conn: nat, usedAt: int)
    | Unlocking
    | Returned

  datatype Closer = Asking | Clearing | Gone

  /** The bytes a connection has yet to read: those already in its buffer, and those the server
      has sent or will send in answer to what it was asked. */
  datatype Wire = Wire(buf: bytes, net: bytes) {
    function Unread(): bytes { buf + net }
  }

  /** Where a dialed connection is. */
  datatype Place = With(getter: nat) | Returning(put: nat) | InStack(at: nat) | Removed | Discarded

  datatype State = State(
    permits: nat,
    closed: bool,
    closedLock: Option<nat>,
    idle: seq<Pooled<nat>>,
    getters: seq<Getter>,
    puts: seq<Put>,
    closers: seq<Closer>,
    clock: int,
    wires: seq<Wire>,
    // History: where each connection is, guards issued, dials begun while a put was pending,
    // and whether the stack has been cleared after closing.
    places: seq<Place>,
    issued: nat,
    overtaking: nat,
    cleared: bool)

  /** What a caller of `get`, and then the guard it holds, does next. */
  datatype Act =
    | Check
    | Acquire
    | Pop
    | Evict
    | DialOk
    | DialFail
    | InitDone
    | InitFail
    | Send(answer: Reply)
    | Receive(buffered: nat)
    | Drop
    | Remove
    | Release

  datatype PutAct = Start | Lock | Push | Unlock

  datatype CloseAct = Flag | Clear

  datatype Step =
    | NewGetter
    | NewCloser
    | Tick(dt: nat)
    | Get(g: nat, act: Act)
    | PutBack(p: nat, putAct: PutAct)
    | Close(c: nat, closeAct: CloseAct)

  function Init(cfg: Config): State {
    State(cfg.poolSize, false, None, [], [], [], [], 0, [], [], 0, 0, false)
  }

  predicate HasConn(x: Getter) {
    x.Initialising? || x.Holding?
  }

  predicate HasPermit(x: Getter) {
    x.Popping? || x.Evicting? || x.Dialing? || HasConn(x) || x.Releasing?
  }

  predicate Pending(x: Put) {
    x.Starting? || x.Locking? || x.Pushing?
  }

  predicate OwnsLock(x: Put) {
    x.Pushing? || x.Unlocking?
  }

  predicate UsesConn(s: State, g: nat) {
    g < |s.getters| && HasConn(s.getters[g]) && s.getters[g].conn < |s.wires| && s.getters[g].conn < |s.places|
  }

  predicate PutUsesConn(s: State, p: nat) {
    p < |s.puts| && Pending(s.puts[p]) && s.puts[p].conn < |s.wires| && s.puts[p].conn < |s.places|
  }

  function Unread(s: State, g: nat): bytes
    requires UsesConn(s, g)
  {
    s.wires[s.getters[g].conn].Unread()
  }

  predicate GetEnabled(cfg: Config, s: State, g: nat, act: Act) {
    g < |s.getters| && (HasConn(s.getters[g]) ==> UsesConn(s, g)) &&
    match act
    case Check => s.getters[g].Checking? && s.closedLock.None?
    case Acquire => s.getters[g].Acquiring? && s.permits > 0
    case Pop => s.getters[g].Popping? && (s.idle != [] ==> s.idle[|s.idle| - 1].conn < |s.places|)
    case Evict => s.getters[g].Evicting?
    case DialOk => s.getters[g].Dialing?
    case DialFail => s.getters[g].Dialing?
    case InitDone => s.getters[g].Initialising?
    case InitFail => s.getters[g].Initialising? && cfg.hasInit
    case Send(answer) => CanExchange(cfg, s.getters[g]) && Sendable(answer)
    case Receive(buffered) =>
      CanExchange(cfg, s.getters[g]) && s.getters[g].use.owed != [] &&
      var p := P.ParseReply(Unread(s, g));
      p.result != Err(Redis(UnexpectedEof)) && buffered <= |p.rest|
    case Drop => s.getters[g].Holding?
    case Remove => s.getters[g].Holding?
    case Release => s.getters[g].Releasing?
  }

  /** Guards exchange freely; a connection being initialised does when a callback is set. */
  predicate CanExchange(cfg: Config, x: Getter) {
    x.Holding? || (x.Initialising? && cfg.hasInit)
  }

  predicate PutEnabled(s: State, p: nat, act: PutAct) {
    p < |s.puts| && (Pending(s.puts[p]) ==> PutUsesConn(s, p)) &&
    match act
    case Start => s.puts[p].Starting?
    case Lock => s.puts[p].Locking? && s.closedLock.None?
    case Push => s.puts[p].Pushing?
    case Unlock => s.puts[p].Unlocking?
  }

  predicate CloseEnabled(s: State, c: nat, act: CloseAct) {
    c < |s.closers| && if act.Flag? then s.closers[c].Asking? && s.closedLock.None? else s.closers[c].Clearing?
  }

  predicate Enabled(cfg: Config, s: State, step: Step) {
    match step
    case Get(g, act) => GetEnabled(cfg, s, g, act)
    case PutBack(p, act) => PutEnabled(s, p, act)
    case Close(c, act) => CloseEnabled(s, c, act)
    case _ => true
  }

  function Apply(cfg: Config, s: State, step: Step): State
    requires Enabled(cfg, s, step)
  {
    match step
    case NewGetter => s.(getters := s.getters + [Checking])
    case NewCloser => s.(closers := s.closers + [Asking])
    case Tick(dt) => s.(clock := s.clock + dt)
    case Get(g, act) => GetApply(cfg, s, g, act)
    case PutBack(p, act) => PutApply(s, p, act)
    case Close(c, act) => CloseApply(s, c, act)
  }

  function To(s: State, g: nat, x: Getter): State
    requires g < |s.getters|
  {
    s.(getters := s.getters[g := x])
  }

  function GetApply(cfg: Config, s: State, g: nat, act: Act): State
    requires GetEnabled(cfg, s, g, act)
  {
    match act
    case Check => To(s, g, if s.closed then RefusedClosed else Acquiring)
    case Acquire => To(s, g, Popping).(permits := s.permits - 1)
    case Pop => ApplyPop(cfg, s, g)
    case Evict => To(s, g, Checking).(permits := s.permits + 1)
    case DialOk => ApplyDialOk(s, g)
    case DialFail => To(s, g, Releasing)
    case InitDone => To(s, g, Holding(s.getters[g].conn, s.getters[g].use)).(issued := s.issued + 1)
    case InitFail => To(s, g, Releasing).(places := s.places[s.getters[g].conn := Discarded])
    case Send(answer) => ApplySend(s, g, answer)
    case Receive(buffered) => ApplyReceive(s, g, buffered)
    case Drop => ApplyDrop(s, g)
    case Remove => To(s, g, Releasing).(places := s.places[s.getters[g].conn := Removed])
    case Release => To(s, g, Finished).(permits := s.permits + 1)
  }

  function PutApply(s: State, p: nat, act: PutAct): State
    requires PutEnabled(s, p, act)
  {
    match act
    case Start => ApplyPutStart(s, p)
    case Lock => ApplyPutLock(s, p)
    case Push => ApplyPutPush(s, p)
    case Unlock => s.(puts := s.puts[p := Returned], closedLock := None)
  }

  function CloseApply(s: State, c: nat, act: CloseAct): State
    requires CloseEnabled(s, c, act)
  {
    match act
    case Flag =>
      if s.closed then s.(closers := s.closers[c := Gone])
      else s.(closers := s.closers[c := Clearing], closed := true)
    case Clear => s.(closers := s.closers[c := Gone], idle := [], cleared := true, places := Unstacked(s.places))
  }

  /** A step of getter `g` that moves no permit: it still has one, and all but the stack, the puts
      and the connections stay as they are. */
  ghost predicate Keeps(s: State, g: nat, t: State) {
    g < |s.getters| == |t.getters| && t.getters == s.getters[g := t.getters[g]] && HasPermit(t.getters[g]) &&
    t.permits == s.permits && t.closed == s.closed && t.closedLock == s.closedLock && t.closers == s.closers &&
    t.clock == s.clock && t.cleared == s.cleared
  }

  /** A new connection, with nothing to read yet. */
  function ApplyDialOk(s: State, g: nat): (t: State)
    requires g < |s.getters|
    ensures Keeps(s, g, t)
  {
    To(s, g, Initialising(|s.wires|, UNUSED)).(wires := s.wires + [Wire([], [])], places := s.places + [With(g)])
  }

  /** The newest idle connection, unless it has expired; without one, a dial begins. */
  function ApplyPop(cfg: Config, s: State, g: nat): (t: State)
    requires GetEnabled(cfg, s, g, Pop)
    ensures Keeps(s, g, t)
  {
    var k := |s.idle| - 1;
    if s.idle == [] then
      To(s, g, Dialing).(overtaking := s.overtaking + if exists x <- s.puts :: Pending(x) then 1 else 0)
    else
      var c := s.idle[k].conn;
      if Expired(cfg.idleTimeout, s.idle[k], s.clock) then
        To(s, g, Evicting).(idle := s.idle[..k], places := s.places[c := Discarded])
      else
        To(s, g, Holding(c, UNUSED)).(idle := s.idle[..k], places := s.places[c := With(g)], issued := s.issued + 1)
  }

  function ApplySend(s: State, g: nat, answer: Reply): (t: State)
    requires UsesConn(s, g)
    ensures Keeps(s, g, t)
  {
    var x := s.getters[g];
    var w := s.wires[x.conn];
    To(s, g, x.(use := x.use.(owed := x.use.owed + [answer])))
      .(wires := s.wires[x.conn := w.(net := w.net + Encode(answer))])
  }

  function ApplyReceive(s: State, g: nat, buffered: nat): (t: State)
    requires UsesConn(s, g) && s.getters[g].use.owed != []
    requires buffered <= |P.ParseReply(Unread(s, g)).rest|
    ensures Keeps(s, g, t)
  {
    var x := s.getters[g];
    var rest := P.ParseReply(Unread(s, g)).rest;
    To(s, g, x.(use := Use(x.use.owed[1..], x.use.torn || Leftover(x.use.owed[0]) != [])))
      .(wires := s.wires[x.conn := Wire(rest[..buffered], rest[buffered..])])
  }

  function ApplyDrop(s: State, g: nat): (t: State)
    requires UsesConn(s, g)
    ensures Keeps(s, g, t)
  {
    var c := s.getters[g].conn;
    if s.wires[c].buf != [] then To(s, g, Releasing).(places := s.places[c := Discarded])
    else To(s, g, Releasing).(puts := s.puts + [Starting(c)], places := s.places[c := Returning(|s.puts|)])
  }

  function ApplyPutStart(s: State, p: nat): State
    requires PutUsesConn(s, p)
  {
    var c := s.puts[p].conn;
    if s.wires[c].buf != [] then s.(puts := s.puts[p := Returned], places := s.places[c := Discarded])
    else s.(puts := s.puts[p := Locking(c, s.clock)])
  }

  function ApplyPutLock(s: State, p: nat): State
    requires PutUsesConn(s, p) && s.puts[p].Locking?
  {
    var c := s.puts[p].conn;
    if s.closed then s.(puts := s.puts[p := Returned], places := s.places[c := Discarded])
    else s.(puts := s.puts[p := Pushing(c, s.puts[p].usedAt)], closedLock := Some(p))
  }

  function ApplyPutPush(s: State, p: nat): State
    requires PutUsesConn(s, p) && s.puts[p].Pushing?
  {
    var c := s.puts[p].conn;
    s.(puts := s.puts[p := Unlocking], idle := s.idle + [Pooled(c, s.puts[p].usedAt)],
       places := s.places[c := InStack(|s.idle|)])
  }

  function Unstacked(places: seq<Place>): (r: seq<Place>)
    ensures |r| == |places|
    ensures forall k :: 0 <= k < |r| ==> r[k] == if places[k].InStack? then Discarded else places[k]
  {
    if places == [] then []
    else [if places[0].InStack? then Discarded else places[0]] + Unstacked(places[1..])
  }

  /** `t` is reached from `s` by these steps. */
  ghost predicate Reaches(cfg: Config, s: State, steps: seq<Step>, t: State)
    decreases |steps|
  {
    if steps == [] then s == t
    else Enabled(cfg, s, steps[0]) && Reaches(cfg, Apply(cfg, s, steps[0]), steps[1..], t)
  }
}
