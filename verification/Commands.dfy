/** Commands and their text. */
module Commands {
  import opened Bytes
  import opened Characters
  import opened Utf8
  import opened Decimal
  import opened Resp

  type Command = seq<Str>

  function Bulks(args: Command): (rs: seq<Reply>)
    ensures |rs| == |args|
  {
    if args == [] then [] else [Bulk(args[0])] + Bulks(args[1..])
  }

  /** A command on the wire is a RESP2 array of bulk strings. */
  function AsReply(args: Command): Reply {
    Reply.Array(Bulks(args))
  }

  /** Every argument and the argument list itself have lengths a machine can hold. */
  predicate Storable(args: Command) {
    |args| <= I64_MAX && ArgsStorable(args)
  }

  predicate ArgsStorable(args: Command) {
    args == [] || (|args[0]| + 2 <= USIZE_MAX && ArgsStorable(args[1..]))
  }

  /** Storable is whatever fits the 64-bit lengths of the protocol. */
  lemma {:induction false} StorableIff(args: Command)
    ensures Storable(args) <==>
      |args| <= 9223372036854775807 && forall i :: 0 <= i < |args| ==> |args[i]| <= 18446744073709551613
  {
    ArgsStorableIff(args);
  }

  lemma {:induction false} ArgsStorableIff(args: Command)
    ensures ArgsStorable(args) <==> forall i :: 0 <= i < |args| ==> |args[i]| <= 18446744073709551613
  {
    if args != [] {
      ArgsStorableIff(args[1..]);
      forall i | 0 < i < |args|
        ensures args[i] == args[1..][i - 1]
      {
      }
    }
  }

  predicate AllStorable(cmds: seq<Command>) {
    forall i :: 0 <= i < |cmds| ==> Storable(cmds[i])
  }

  function AsReplies(cmds: seq<Command>): (rs: seq<Reply>)
    ensures |rs| == |cmds|
  {
    if cmds == [] then [] else [AsReply(cmds[0])] + AsReplies(cmds[1..])
  }

  /** The text of a command. */
  function Wire(args: Command): bytes {
    Encode(AsReply(args))
  }

  /** The text of several commands, one after the other. */
  function WireAll(cmds: seq<Command>): bytes {
    EncodeAll(AsReplies(cmds))
  }

  /** A command of one word, given as a string literal. */
  function OneWord(t: string): (cmd: Command)
    requires IsAscii(t)
    ensures |cmd| == 1
  {
    [Word(t)]
  }

  function Word(t: string): Str
    requires IsAscii(t)
  {
    AsciiValid(Ascii(t));
    Ascii(t)
  }

  /** The text of a command, character by character. */
  function CommandText(args: Command): bytes {
    DigitsAreAscii(Print(|args|));
    Ascii("*") + Ascii(Print(|args|)) + Ascii("\r\n") + ArgsText(args)
  }

  function ArgsText(args: Command): bytes {
    if args == [] then []
    else
      DigitsAreAscii(Print(|args[0]|));
      Ascii("$") + Ascii(Print(|args[0]|)) + Ascii("\r\n") + args[0] + Ascii("\r\n") + ArgsText(args[1..])
  }

  /** The text of several commands, one after the other. */
  function CommandsText(cmds: seq<Command>): bytes {
    if cmds == [] then [] else CommandText(cmds[0]) + CommandsText(cmds[1..])
  }

  lemma {:induction false} ArgsAsText(args: Command)
    ensures EncodeAll(Bulks(args)) == ArgsText(args)
  {
    hide Digits, Print;
    if args != [] {
      ArgsAsText(args[1..]);
      DigitsText(|args[0]|);
      assert Bulks(args)[1..] == Bulks(args[1..]);
      Codes();
    }
  }

  lemma WireAsText(args: Command)
    ensures Wire(args) == CommandText(args)
  {
    hide Digits, Print, EncodeAll, Bulks, ArgsText;
    DigitsText(|args|);
    ArgsAsText(args);
    WirePieces(args);
    Codes();
  }

  lemma {:induction false} WireAllAsText(cmds: seq<Command>)
    ensures WireAll(cmds) == CommandsText(cmds)
  {
    hide Encode, CommandText, AsReply;
    if cmds != [] {
      WireAllAsText(cmds[1..]);
      WireAsText(cmds[0]);
      assert AsReplies(cmds)[1..] == AsReplies(cmds[1..]);
      assert Encode(AsReply(cmds[0])) == Wire(cmds[0]);
    }
  }

  /** A growable byte vector with the capacity it was created with. */
  class Buffer {
    var data: bytes
    const capacity: nat

    constructor (capacity: nat)
      ensures data == [] && this.capacity == capacity
    {
      this.data := [];
      this.capacity := capacity;
    }

    method Put(b: byte)
      modifies this
      ensures data == old(data) + [b]
    {
      data := data + [b];
    }

    method Extend(more: bytes)
      modifies this
      ensures data == old(data) + more
    {
      data := data + more;
    }
  }

  lemma {:induction false} BulksAppend(a: Command, b: Command)
    ensures Bulks(a + b) == Bulks(a) + Bulks(b)
  {
    if a == [] {
      assert a + b == b;
    } else {
      assert (a + b)[1..] == a[1..] + b;
      BulksAppend(a[1..], b);
    }
  }

  lemma OneMoreBulk(args: Command, k: nat)
    requires k < |args|
    ensures EncodeAll(Bulks(args[..k + 1])) == EncodeAll(Bulks(args[..k])) + Encode(Bulk(args[k]))
  {
    hide Encode;
    assert args[..k + 1] == args[..k] + [args[k]];
    BulksAppend(args[..k], [args[k]]);
    assert Bulks([args[k]]) == [Bulk(args[k])];
    EncodeAllAppend(Bulks(args[..k]), [Bulk(args[k])]);
    assert EncodeAll([Bulk(args[k])]) == Encode(Bulk(args[k])) + EncodeAll([]);
  }

  /** Appends the text of a command, piece by piece. */
  method AppendArgs(buf: Buffer, args: Command)
    modifies buf
    ensures buf.data == old(buf.data) + Wire(args) && Wire(args) == CommandText(args)
  {
    WireAsText(args);
    hide Encode, EncodeAll, Bulks, Line, Digits, Wire, CommandText;
    buf.Put(STAR);
    buf.Extend(Digits(|args|));
    buf.Extend(CRLF);
    ghost var head := Line(STAR, Digits(|args|));
    ghost var before := old(buf.data);
    HeadPieces(before, |args|);
    NoBulks();
    for k := 0 to |args|
      invariant buf.data == before + head + EncodeAll(Bulks(args[..k]))
    {
      ghost var sofar := buf.data;
      buf.Put(DOLLAR);
      buf.Extend(Digits(|args[k]|));
      buf.Extend(CRLF);
      buf.Extend(args[k]);
      buf.Extend(CRLF);
      BulkPieces(sofar, args[k]);
      OneMoreBulk(args, k);
    }
    assert args[..|args|] == args;
    WirePieces(args);
    Assoc(before, head, EncodeAll(Bulks(args)));
  }

  lemma NoBulks()
    ensures EncodeAll(Bulks([])) == []
  {
  }

  lemma WirePieces(args: Command)
    ensures Wire(args) == Line(STAR, Digits(|args|)) + EncodeAll(Bulks(args))
  {
  }

  lemma HeadPieces(before: bytes, n: nat)
    ensures before + [STAR] + Digits(n) + CRLF == before + Line(STAR, Digits(n))
  {
    hide Digits;
    Assoc(before, [STAR], Digits(n));
    Assoc(before, [STAR] + Digits(n), CRLF);
  }

  lemma BulkPieces(before: bytes, arg: Str)
    ensures before + [DOLLAR] + Digits(|arg|) + CRLF + arg + CRLF == before + Encode(Bulk(arg))
  {
    hide Digits;
    var d := Digits(|arg|);
    var head := [DOLLAR] + d;
    Assoc(before, [DOLLAR], d);
    Assoc(before, head, CRLF);
    Assoc(before, head + CRLF, arg);
    Assoc(before, head + CRLF + arg, CRLF);
  }

  /** One more than the text's length: four header bytes are counted where three are written. */
  method EstimateRespSize(args: Command) returns (size: nat)
    ensures size == |Wire(args)| + 1
  {
    hide Encode, EncodeAll, Bulks, Digits;
    var digits := DecimalLen(|args|);
    size := 4 + digits;
    NoBulks();
    for k := 0 to |args|
      invariant size == 4 + digits + |EncodeAll(Bulks(args[..k]))|
    {
      var d := DecimalLen(|args[k]|);
      size := size + 1 + d + 2 + |args[k]| + 2;
      OneMoreBulk(args, k);
      BulkPieces([], args[k]);
    }
    assert args[..|args|] == args;
    WirePieces(args);
  }
}
