/** The buffered reader over a socket, and the reply parser that drives it. Whatever pieces the
    socket delivers, each method agrees with the flat parser on the bytes joined together. */
module Reader {
  import opened Bytes
  import opened Values
  import P = Parser
  import R = Resp

  const CAPACITY: nat := 16 * 1024

  /** A `BufReader` on a socket. `arrivals` is what successive socket reads can deliver,
      non-empty pieces of any size, followed by end of stream. */
  class BufReader {
    var buf: bytes
    var arrivals: seq<bytes>

    ghost predicate Valid()
      reads this
    {
      |buf| <= CAPACITY && forall i :: 0 <= i < |arrivals| ==> arrivals[i] != []
    }

    /** Every byte that will still be read. */
    ghost function Unread(): bytes
      reads this
    {
      buf + Flatten(arrivals)
    }

    constructor (arrivals: seq<bytes>)
      requires forall i :: 0 <= i < |arrivals| ==> arrivals[i] != []
      ensures Valid() && buf == [] && Unread() == Flatten(arrivals)
    {
      this.buf := [];
      this.arrivals := arrivals;
      new;
      assert [] + Flatten(arrivals) == Flatten(arrivals);
    }

    /** One socket read of at most `limit` bytes; nothing only at end of stream. */
    method Receive(limit: nat) returns (got: bytes)
      requires Valid() && limit > 0
      modifies this`arrivals
      ensures Valid() && |got| <= limit
      ensures old(Flatten(arrivals)) == got + Flatten(arrivals)
      ensures got == [] ==> Flatten(arrivals) == []
      ensures Pulled(old(arrivals), arrivals)
      ensures old(arrivals) != [] ==>
        got == if |old(arrivals)[0]| <= limit then old(arrivals)[0] else old(arrivals)[0][..limit]
    {
      if arrivals == [] {
        return [];
      }
      var piece := arrivals[0];
      if |piece| <= limit {
        got := piece;
        arrivals := arrivals[1..];
      } else {
        got := piece[..limit];
        SplitPiece(arrivals, limit);
        arrivals := [piece[limit..]] + arrivals[1..];
      }
    }

    /** Makes some unread bytes visible in `buf`, unless the stream has ended. */
    method FillBuf()
      requires Valid()
      modifies this
      ensures Valid() && Unread() == old(Unread())
      ensures buf == [] ==> Unread() == []
      ensures if old(buf) != [] then buf == old(buf) && arrivals == old(arrivals) else Pulled(old(arrivals), arrivals)
      ensures old(buf) == [] && old(arrivals) != [] ==>
        buf == if |old(arrivals)[0]| <= 16384 then old(arrivals)[0] else old(arrivals)[0][..16384]
    {
      if buf == [] {
        ghost var before := Flatten(arrivals);
        buf := Receive(CAPACITY);
        assert [] + before == before;
      }
    }

    method Consume(n: nat)
      requires Valid() && n <= |buf|
      modifies this`buf
      ensures Valid() && buf == old(buf)[n..]
      ensures old(Unread()) == old(buf)[..n] + Unread()
    {
      ghost var before := buf;
      buf := buf[n..];
      assert before == before[..n] + buf;
      Assoc(before[..n], buf, Flatten(arrivals));
    }

    /** What one read of at most `limit` bytes gives. Large reads bypass `buf`. */
    method Take(limit: nat) returns (got: bytes)
      requires Valid() && limit > 0
      modifies this
      ensures Valid() && |got| <= limit
      ensures old(Unread()) == got + Unread()
      ensures got == [] ==> Unread() == []
      ensures old(buf) == [] && limit >= 16384 ==> buf == []
      ensures old(buf) == [] && old(arrivals) != [] && limit < 16384 ==>
        got + buf == if |old(arrivals)[0]| <= 16384 then old(arrivals)[0] else old(arrivals)[0][..16384]
      ensures if old(buf) != [] then arrivals == old(arrivals) else Pulled(old(arrivals), arrivals)
    {
      if buf == [] && limit >= CAPACITY {
        ghost var before := Flatten(arrivals);
        got := Receive(limit);
        assert [] + before == before;
        assert [] + Flatten(arrivals) == Flatten(arrivals);
      } else {
        FillBuf();
        var m := if |buf| <= limit then |buf| else limit;
        got := buf[..m];
        Consume(m);
      }
    }

    /** Fills `dst` from index `from` with as much as one read gives. */
    method Read(dst: array<byte>, from: nat) returns (m: nat)
      requires Valid() && from < dst.Length
      modifies this, dst
      ensures Valid() && from + m <= dst.Length
      ensures dst[..from] == old(dst[..from])
      ensures old(Unread()) == dst[from..from + m] + Unread()
      ensures m == 0 ==> Unread() == []
      ensures if old(buf) != [] then arrivals == old(arrivals) else Pulled(old(arrivals), arrivals)
    {
      var got := Take(dst.Length - from);
      hide Flatten;
      m := |got|;
      forall i | 0 <= i < m {
        dst[from + i] := got[i];
      }
      assert dst[from..from + m] == got;
    }
  }

  /** At most the first piece has been taken, or a part of it. */
  ghost predicate Pulled(before: seq<bytes>, after: seq<bytes>) {
    if before == [] then after == [] else IsSuffix(before[1..], after)
  }

  /** No piece was touched before its bytes were needed: pieces whose bytes are all still unread
      are still to come. */
  ghost predicate Lazy(before: seq<bytes>, unread: nat, after: seq<bytes>) {
    forall later :: IsSuffix(later, before) && |Flatten(later)| <= unread ==> IsSuffix(later, after)
  }

  lemma LazyAtFirst(pieces: seq<bytes>, unread: nat)
    ensures Lazy(pieces, unread, pieces)
  {
  }

  /** One read, of a piece only if the buffer was empty, and some of what was read consumed. */
  lemma LazyTurn(before: seq<bytes>, unread: nat, pieces: seq<bytes>, buf: bytes, after: seq<bytes>, left: nat)
    requires Lazy(before, unread, pieces) && unread == |buf| + |Flatten(pieces)| && left <= unread
    requires if buf != [] then after == pieces else Pulled(pieces, after) && (pieces != [] ==> left < unread)
    ensures Lazy(before, left, after)
  {
    forall later | IsSuffix(later, before) && |Flatten(later)| <= left
      ensures IsSuffix(later, after)
    {
      if buf == [] && pieces != [] {
        assert later != pieces;
        assert IsSuffix(later, pieces[1..]);
        SuffixTransitive(later, pieces[1..], after);
      }
    }
  }

  lemma LazyThrough(before: seq<bytes>, unread: nat, pieces: seq<bytes>, left: nat, after: seq<bytes>)
    requires Lazy(before, unread, pieces) && Lazy(pieces, left, after) && left <= unread
    ensures Lazy(before, left, after)
  {
    hide IsSuffix;
  }

  /** The next pieces hold exactly this text, and `later` are those behind it. */
  ghost predicate Delivered(buf: bytes, arrivals: seq<bytes>, text: bytes, later: seq<bytes>) {
    buf == [] && IsSuffix(later, arrivals) && Flatten(arrivals) == text + Flatten(later)
  }

  /** Once such a text has been read, nothing behind it has been touched. */
  lemma Drained(before: seq<bytes>, text: bytes, later: seq<bytes>, buf: bytes, after: seq<bytes>)
    requires Delivered([], before, text, later) && buf + Flatten(after) == Flatten(later)
    requires Lazy(before, |buf + Flatten(after)|, after) && forall i :: 0 <= i < |after| ==> after[i] != []
    ensures buf == [] && after == later
  {
    assert IsSuffix(later, after);
    SuffixSplit(later, after);
    var extra := after[..|after| - |later|];
    FlattenAppend(extra, later);
  }

  lemma SplitPiece(pieces: seq<bytes>, k: nat)
    requires pieces != [] && k <= |pieces[0]|
    ensures Flatten(pieces) == pieces[0][..k] + Flatten([pieces[0][k..]] + pieces[1..])
  {
    var rest := [pieces[0][k..]] + pieces[1..];
    assert rest[1..] == pieces[1..];
    assert pieces[0] == pieces[0][..k] + pieces[0][k..];
    Assoc(pieces[0][..k], pieces[0][k..], Flatten(pieces[1..]));
  }

  /** A method's result and what it left unread match the flat parser's. Only when a line was
      too long may the two differ in how much of it was consumed. */
  ghost predicate Agrees<T>(p: Parsed<T>, s: bytes, result: Result<T>, rest: bytes) {
    result == p.result &&
    if result == Err(TOO_LONG) then IsSuffix(rest, s) else rest == p.rest
  }

  /** The very result of the flat parser. */
  lemma Exactly<T>(s: bytes, p: Parsed<T>, r: Result<T>, rest: bytes)
    requires p == Parsed(r, rest) && IsSuffix(rest, s)
    ensures Agrees(p, s, r, rest)
  {
  }

  // ---------- Lines and byte counts ----------

  lemma LineEnded(line: bytes, rest: bytes)
    requires LF !in line && |line| < P.MAX_LINE_LEN
    ensures P.ReadLine(line + [LF] + rest) == Parsed(Ok(P.Strip(line + [LF])), rest)
  {
    var s := line + [LF] + rest;
    assert s == line + ([LF] + rest);
    R.LineLenAppend(line, [LF] + rest);
    assert s[..|line| + 1] == line + [LF];
    assert s[|line| + 1..] == rest;
  }

  lemma LineTooLongAt(line: bytes, rest: bytes)
    requires LF !in line && |line| >= P.MAX_LINE_LEN && rest != []
    ensures P.ReadLine(line + rest).result == Err(TOO_LONG)
  {
    R.LineLenAppend(line, rest);
  }

  lemma SplitAt(before: bytes, window: bytes, tail: bytes, i: nat)
    requires i <= |window|
    ensures before + (window + tail) == (before + window[..i]) + (window[i..] + tail)
  {
    assert window == window[..i] + window[i..];
    Assoc(window[..i], window[i..], tail);
    Assoc(before, window[..i], window[i..] + tail);
  }

  lemma SuffixOf(head: bytes, tail: bytes)
    ensures IsSuffix(tail, head + tail)
  {
  }

  lemma OneByte(before: bytes, window: bytes, i: nat)
    requires i < |window|
    ensures before + window[..i] + [window[i]] == before + window[..i + 1]
  {
    assert window[..i + 1] == window[..i] + [window[i]];
    Assoc(before, window[..i], [window[i]]);
  }

  lemma WholeWindow(before: bytes, window: bytes, tail: bytes)
    ensures before + (window + tail) == before + window[..|window|] + tail
  {
    assert window[..|window|] == window;
    Assoc(before, window, tail);
  }

  /** The line reaches its limit at byte `i` of the window. */
  lemma TooLongHere(before: bytes, window: bytes, tail: bytes, i: nat)
    requires i < |window| && LF !in before + window[..i] && |before + window[..i]| >= P.MAX_LINE_LEN
    ensures var s := before + (window + tail); Agrees(P.ReadLine(s), s, Err(TOO_LONG), window + tail)
  {
    hide P.ReadLine;
    SplitAt(before, window, tail, i);
    LineTooLongAt(before + window[..i], window[i..] + tail);
    SuffixOf(before, window + tail);
  }

  /** The line ends with the LF at byte `i` of the window. */
  lemma EndsHere(before: bytes, window: bytes, tail: bytes, i: nat)
    requires i < |window| && window[i] == LF
    requires LF !in before + window[..i] && |before + window[..i]| < P.MAX_LINE_LEN
    ensures var s := before + (window + tail); var rest := window[i + 1..] + tail;
      P.ReadLine(s) == Parsed(Ok(P.Strip(before + window[..i] + [LF])), rest) && IsSuffix(rest, s)
  {
    hide P.ReadLine, P.Strip, IsSuffix;
    SplitAt(before, window, tail, i + 1);
    OneByte(before, window, i);
    LineEnded(before + window[..i], window[i + 1..] + tail);
    SuffixOf(before + window[..i + 1], window[i + 1..] + tail);
  }

  /** Takes over what is in the buffer up to the end of the line, or up to the limit. */
  method Scan(buf: bytes, line: bytes) returns (grown: bytes, consumeLen: nat, foundNewline: bool, tooLong: bool)
    requires buf != [] && LF !in line && |line| <= 65536
    ensures 0 < consumeLen <= |buf|
    ensures tooLong ==> exists k :: 0 <= k < |buf| && LF !in line + buf[..k] && |line + buf[..k]| >= 65536
    ensures !tooLong ==> grown == line + buf[..consumeLen] && |grown| <= 65536
    ensures !tooLong && foundNewline ==> buf[consumeLen - 1] == LF && LF !in line + buf[..consumeLen - 1]
    ensures !tooLong && !foundNewline ==> consumeLen == |buf| && LF !in grown
  {
    grown, consumeLen, foundNewline, tooLong := line, |buf|, false, false;
    var i := 0;
    assert line + buf[..0] == line;
    while i < |buf|
      invariant i <= |buf| && grown == line + buf[..i] && LF !in grown && |grown| <= 65536
    {
      if |grown| >= P.MAX_LINE_LEN {
        tooLong := true;
        return;
      }
      var b := buf[i];
      OneByte(line, buf, i);
      grown := grown + [b];
      if b == LF {
        consumeLen := i + 1;
        foundNewline := true;
        return;
      }
      i := i + 1;
    }
  }

  method StripEnd(line: bytes) returns (body: bytes)
    requires line != [] && line[|line| - 1] == LF
    ensures body == P.Strip(line)
    ensures body == line[..|line| - 1] || (|line| >= 2 && line[|line| - 2] == CR && body == line[..|line| - 2])
  {
    if |line| >= 2 && line[|line| - 2..] == CRLF {
      assert line[|line| - 2..][0] == line[|line| - 2];
      body := line[..|line| - 2];
    } else {
      body := line[..|line| - 1];
    }
  }

  /** A line that is too long leaves bytes in the buffer, and takes no more than one line's worth. */
  method ReadLine(rd: BufReader) returns (r: Result<bytes>)
    requires rd.Valid()
    modifies rd
    ensures rd.Valid()
    ensures Agrees(P.ReadLine(old(rd.Unread())), old(rd.Unread()), r, rd.Unread())
    ensures if r == Err(TOO_LONG) then rd.buf != [] && |old(rd.Unread())| <= |rd.Unread()| + 65536
      else Lazy(old(rd.arrivals), |rd.Unread()|, rd.arrivals)
  {
    hide P.ReadLine, P.Strip, Flatten, Agrees, IsSuffix, Lazy, Pulled;
    ghost var s, pieces := rd.Unread(), rd.arrivals;
    LazyAtFirst(pieces, |s|);
    var line: bytes := [];
    assert s == line + rd.Unread();
    while true
      invariant rd.Valid() && s == line + rd.Unread()
      invariant LF !in line && |line| <= P.MAX_LINE_LEN
      invariant Lazy(pieces, |rd.Unread()|, rd.arrivals)
      decreases |rd.Unread()|
    {
      ghost var unread, buf, arrivals := |rd.Unread()|, rd.buf, rd.arrivals;
      rd.FillBuf();
      if rd.buf == [] {
        NothingToCome(arrivals);
        LazyTurn(pieces, unread, arrivals, buf, rd.arrivals, |rd.Unread()|);
        assert line + [] == line;
        AtTheEnd(line);
        return if line == [] then Err(Redis(UnexpectedEof)) else Ok(line);
      }
      ghost var window, tail := rd.buf, Flatten(rd.arrivals);
      var grown, consumeLen, foundNewline, tooLong := Scan(rd.buf, line);
      if tooLong {
        ghost var k :| 0 <= k < |window| && LF !in line + window[..k] && |line + window[..k]| >= 65536;
        TooLongHere(line, window, tail, k);
        return Err(TOO_LONG);
      }
      rd.Consume(consumeLen);
      LazyTurn(pieces, unread, arrivals, buf, rd.arrivals, |rd.Unread()|);
      if foundNewline {
        EndsHere(line, window, tail, consumeLen - 1);
        OneByte(line, window, consumeLen - 1);
        var body := StripEnd(grown);
        Exactly(s, P.ReadLine(s), Ok(body), rd.Unread());
        return Ok(body);
      }
      WholeWindow(line, window, tail);
      assert rd.buf == [];
      assert [] + tail == tail;
      line := grown;
    }
  }

  /** The stream has ended behind `line`. */
  lemma AtTheEnd(line: bytes)
    requires LF !in line && |line| <= P.MAX_LINE_LEN
    ensures Agrees(P.ReadLine(line), line, if line == [] then Err(Redis(UnexpectedEof)) else Ok(line), [])
  {
    hide P.ReadLine;
    if line == [] {
      EmptyLine();
    } else {
      R.UnendedLine(line);
    }
    SuffixOf(line, []);
  }

  lemma NothingToCome(pieces: seq<bytes>)
    requires Flatten(pieces) == [] && forall i :: 0 <= i < |pieces| ==> pieces[i] != []
    ensures pieces == []
  {
  }

  lemma EmptyLine()
    ensures P.ReadLine([]) == Fail(UnexpectedEof, [])
  {
  }

  method ReadN(rd: BufReader, n: nat) returns (r: Result<bytes>)
    requires rd.Valid()
    modifies rd
    ensures rd.Valid()
    ensures r == P.ReadN(old(rd.Unread()), n).result && rd.Unread() == P.ReadN(old(rd.Unread()), n).rest
    ensures Lazy(old(rd.arrivals), |rd.Unread()|, rd.arrivals)
  {
    hide Lazy, Pulled, IsSuffix, Flatten;
    ghost var s, pieces := rd.Unread(), rd.arrivals;
    LazyAtFirst(pieces, |s|);
    var data := new byte[n];
    var read := 0;
    while read < n
      invariant rd.Valid() && read <= n
      invariant s == data[..read] + rd.Unread()
      invariant Lazy(pieces, |rd.Unread()|, rd.arrivals)
      decreases n - read
    {
      ghost var before := data[..read];
      ghost var unread := rd.Unread();
      ghost var buf, arrivals := rd.buf, rd.arrivals;
      var m := rd.Read(data, read);
      if m == 0 {
        NothingToCome(arrivals);
        LazyTurn(pieces, |unread|, arrivals, buf, rd.arrivals, |rd.Unread()|);
        assert data[read..read + m] == [];
        assert |s| == read;
        return Err(Redis(UnexpectedEof));
      }
      assert data[..read + m] == before + data[read..read + m];
      LazyTurn(pieces, |unread|, arrivals, buf, rd.arrivals, |rd.Unread()|);
      Assoc(before, data[read..read + m], rd.Unread());
      read := read + m;
    }
    assert s[..n] == data[..];
    return Ok(data[..]);
  }
}
