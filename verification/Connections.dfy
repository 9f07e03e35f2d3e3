/** A connection: a buffered reader on its stream, and the bytes written to it so far. */
module Connections {
  import opened Bytes
  import opened Values
  import opened Reader
  import ReplyReader
  import P = Parser

  class Connection {
    const stream: BufReader
    var sent: bytes

    constructor (stream: BufReader)
      ensures this.stream == stream && sent == []
    {
      this.stream := stream;
      sent := [];
    }

    ghost predicate Valid()
      reads stream
    {
      stream.Valid()
    }

    /** Every byte this connection will still be given to read. */
    ghost function Unread(): bytes
      reads stream
    {
      stream.Unread()
    }

    method WriteAll(data: bytes)
      modifies this`sent
      ensures sent == old(sent) + data
    {
      sent := sent + data;
    }

    method ParseReply() returns (r: Result<Value>)
      requires Valid()
      modifies stream
      ensures Valid()
      ensures Agrees(P.ParseReply(old(Unread())), old(Unread()), r, Unread())
      ensures if r == Err(TOO_LONG) then stream.buf != [] else Lazy(old(stream.arrivals), |Unread()|, stream.arrivals)
    {
      r := ReplyReader.ParseReply(stream);
    }

    /** Bytes read from the socket and not consumed: the part of `Unread` that is visible. */
    function BufferSize(): (n: nat)
      reads stream
      ensures n <= |Unread()| && (n == 0 <==> stream.buf == [])
    {
      |stream.buf|
    }
  }
}
