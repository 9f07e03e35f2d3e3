/** Parsed replies and errors. */
module Values {
  import opened Bytes
  import opened Utf8
  import opened Decimal

  datatype Value =
    | Nil
    | Status(text: Str)
    | Int(i: i64)
    | BulkString(payload: Str)
    | Array(items: seq<Value>)

  /** Errors keep what callers can tell apart; the message texts are dropped. */
  datatype RedisError =
    | Server(text: Str)
    | UnexpectedEof
    | LineTooLong
    | EmptyReply
    | InvalidInteger
    | InvalidLength
    | InvalidArrayLength
    | InvalidUtf8
    | CantParse(line: bytes)
    | ExpectedString
    | ExpectedInteger
    | ExpectedArray
    | InvalidFloat
    | InvalidScanReply
    | Rejected(status: Str)

  /** `Panicked` stands for a run-time panic of the calling task. */
  datatype Error = Nil | TxFailed | Closed | Io | Redis(cause: RedisError) | Other | Panicked

  datatype Result<+T> = Ok(value: T) | Err(error: Error)

  /** A result and the bytes left unread. */
  datatype Parsed<+T> = Parsed(result: Result<T>, rest: bytes)

  function Fail<T>(cause: RedisError, rest: bytes): Parsed<T> {
    Parsed(Err(Redis(cause)), rest)
  }

  const TOO_LONG: Error := Redis(LineTooLong)

  /** The text of a bulk string or a status. */
  function Text(v: Value): Option<Str> {
    match v
    case BulkString(s) => Some(s)
    case Status(s) => Some(s)
    case _ => None
  }

  function NodesOf(items: seq<Value>): nat {
    if items == [] then 0 else Nodes(items[0]) + NodesOf(items[1..])
  }

  function Nodes(v: Value): nat {
    if v.Array? then 1 + NodesOf(v.items) else 1
  }

  /** What a loop that has already collected `done` returns when the rest of it returns `o`. */
  function Onto<T>(done: seq<T>, o: Result<seq<T>>): (r: Result<seq<T>>)
    ensures o.Err? ==> r == o
  {
    match o
    case Ok(xs) => Ok(done + xs)
    case Err(_) => o
  }

  lemma NothingYet<T>(o: Result<seq<T>>)
    ensures Onto([], o) == o
  {
    if o.Ok? { assert [] + o.value == o.value; }
  }

  lemma OneMore<T>(done: seq<T>, x: T, o: Result<seq<T>>)
    ensures Onto(done, Onto([x], o)) == Onto(done + [x], o)
  {
    if o.Ok? { assert done + ([x] + o.value) == done + [x] + o.value; }
  }

  lemma Everything<T>(done: seq<T>)
    ensures Onto(done, Ok([])) == Ok(done)
  {
    assert done + [] == done;
  }
}
