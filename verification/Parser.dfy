/** The reply parser on a flat byte string: the meaning every reader schedule must agree with.
    End of the string stands for end of stream. */
module Parser {
  import opened Bytes
  import opened Utf8
  import opened Decimal
  import opened Values

  const MAX_LINE_LEN: nat := 64 * 1024

  /** Bytes up to and including the first LF, or all of them. */
  function LineLen(s: bytes): (n: nat)
    ensures n <= |s|
    ensures n == 0 <==> s == []
  {
    if s == [] then 0 else if s[0] == LF then 1 else 1 + LineLen(s[1..])
  }

  function Strip(line: bytes): (body: bytes)
    ensures body <= line
  {
    if |line| >= 2 && line[|line| - 2..] == CRLF then line[..|line| - 2]
    else if |line| >= 1 && line[|line| - 1] == LF then line[..|line| - 1]
    else line
  }

  function ReadLine(s: bytes): (p: Parsed<bytes>)
    ensures p.result.Ok? ==> |p.rest| < |s| && |p.result.value| <= MAX_LINE_LEN
    ensures p.result.Err? ==> p.result.error.Redis? && p.rest == s
    ensures IsSuffix(p.rest, s)
  {
    var n := LineLen(s);
    if s == [] then Fail(UnexpectedEof, s)
    else if n > MAX_LINE_LEN then Fail(LineTooLong, s)
    else Parsed(Ok(Strip(s[..n])), s[n..])
  }

  function ReadN(s: bytes, n: nat): (p: Parsed<bytes>)
    ensures IsSuffix(p.rest, s)
  {
    if |s| < n then Fail(UnexpectedEof, []) else Parsed(Ok(s[..n]), s[n..])
  }

  const NIL_TAIL: bytes := [MINUS, 49]

  function ParseReply(s: bytes): (p: Parsed<Value>)
    ensures |p.rest| <= |s|
    ensures p.result.Ok? || p.result.error.Nil? ==> |p.rest| < |s|
    ensures p.result.Ok? ==> !p.result.value.Nil?
    decreases |s|, 0, 1
  {
    match ReadLine(s)
    case Parsed(Err(e), rest) => Parsed(Err(e), rest)
    case Parsed(Ok(line), rest) => if line == [] then Fail(EmptyReply, rest) else Dispatch(line[0], line[1..], rest)
  }

  /** By type prefix. */
  function Dispatch(first: byte, body: bytes, rest: bytes): (p: Parsed<Value>)
    ensures |p.rest| <= |rest|
    ensures p.result.Ok? ==> !p.result.value.Nil?
    decreases |rest| + 1, 0, 0
  {
    if first == MINUS then Fail(Server(Lossy(body)), rest)
    else if first == PLUS then Parsed(Ok(Status(Lossy(body))), rest)
    else if first == COLON then
      match ParseI64(body) {
        case Some(i) => Parsed(Ok(Int(i)), rest)
        case None => Fail(InvalidInteger, rest)
      }
    else if first == DOLLAR then ParseBulk(body, rest)
    else if first == STAR then
      if body == NIL_TAIL then Parsed(Err(Error.Nil), rest)
      else
        match ParseI64(body) {
          case Some(n) => AsArray(ParseSlice(rest, n))
          case None => Fail(InvalidArrayLength, rest)
        }
    else Fail(CantParse([first] + body), rest)
  }

  function ParseBulk(header: bytes, rest: bytes): (p: Parsed<Value>)
    ensures |p.rest| <= |rest|
    ensures p.result.Ok? ==> p.result.value.BulkString?
    ensures p.result != Err(TOO_LONG)
  {
    if header == NIL_TAIL then Parsed(Err(Error.Nil), rest)
    else
      match ParseUsize(header)
      case None => Fail(InvalidLength, rest)
      case Some(n) =>
        if n + 2 > USIZE_MAX then Parsed(Err(Panicked), rest)
        else
          match ReadN(rest, n + 2)
          case Parsed(Err(e), left) => Parsed(Err(e), left)
          case Parsed(Ok(data), left) =>
            if Valid(data[..n]) then Parsed(Ok(BulkString(data[..n])), left) else Fail(InvalidUtf8, left)
  }

  function AsArray(p: Parsed<seq<Value>>): Parsed<Value> {
    match p
    case Parsed(Ok(vs), rest) => Parsed(Ok(Array(vs)), rest)
    case Parsed(Err(e), rest) => Parsed(Err(e), rest)
  }

  /** What is left of a loop that has already collected `done`. */
  function Collected<T>(done: seq<T>, p: Parsed<seq<T>>): Parsed<seq<T>> {
    Parsed(Onto(done, p.result), p.rest)
  }

  /** The elements of an array: nil becomes a value, any other error stops the parse. */
  function ParseSlice(s: bytes, n: int): (p: Parsed<seq<Value>>)
    ensures |p.rest| <= |s|
    ensures p.result.Err? ==> !p.result.error.Nil?
    ensures p.result.Ok? ==> n >= 0 && |p.result.value| == n
    decreases |s|, if n < 0 then 0 else n, 0
  {
    if n < 0 then Parsed(Err(Panicked), s)
    else if n == 0 then Parsed(Ok([]), s)
    else
      match ParseReply(s)
      case Parsed(Ok(v), rest) => Collected([v], ParseSlice(rest, n - 1))
      case Parsed(Err(e), rest) =>
        if e.Nil? then Collected([Value.Nil], ParseSlice(rest, n - 1)) else Parsed(Err(e), rest)
  }
}
