/** Lines out of a stream of receive chunks (irc/src/message.c:76-113, irc/src/server.c:241-260). */
module Framing {
  import opened Bytes
  import opened Common
  import opened Messages
  import opened MessageParser

  const CHUNK_SIZE := 512
  const BUFFER_SIZE := 4096
  const QUIT: Text := [81, 85, 73, 84]
  const MESSAGE_STRUCT := 136  // a prefix, a command and fifteen argument pointers of eight bytes

  predicate BreakAt(s: Text, i: nat) {
    i + 1 < |s| && s[i] == CR && s[i + 1] == LF
  }

  /** Where the first CR LF of s begins, or |s|. */
  function Break(s: Text): (k: nat)
    ensures k <= |s| && (k < |s| ==> BreakAt(s, k))
    ensures forall i: nat :: i < k ==> !BreakAt(s, i)
  {
    if |s| < 2 then |s| else if s[0] == CR && s[1] == LF then 0
    else
      assert forall i: nat :: 0 < i ==> BreakAt(s, i) == BreakAt(s[1..], i - 1);
      1 + Break(s[1..])
  }

  /** The complete lines of a stream. */
  function Lines(s: Text): seq<Text> {
    if Break(s) < |s| then [s[..Break(s)]] + Lines(s[Break(s) + 2..]) else []
  }

  function Concat(chunks: seq<Text>): Text {
    if chunks == [] then [] else chunks[0] + Concat(chunks[1..])
  }

  datatype Read = Closed | Line(line: Text, next: Text, chunks: seq<Text>)

  /** Chunks are added to what is in the buffer until it holds a CR LF. */
  function ReadLine(buf: Text, chunks: seq<Text>): (r: Read)
    ensures r.Line? ==> |r.line| + 2 + |r.next + Concat(r.chunks)| == |buf + Concat(chunks)|
    decreases |chunks|
  {
    if Break(buf) < |buf| then Line(buf[..Break(buf)], buf[Break(buf) + 2..], chunks)
    else if chunks == [] then Closed
    else
      assert buf + Concat(chunks) == buf + chunks[0] + Concat(chunks[1..]);
      ReadLine(buf + chunks[0], chunks[1..])
  }

  predicate HasCommand(line: Text) {
    Parse(line).cmd.Some?
  }

  /** What the buffer holds for the next line.  After a line without a command that is what the
      parser left in it, and what had been received behind the line is dropped. */
  function Kept(r: Read): Text
    requires r.Line?
  {
    if HasCommand(r.line) then r.next else Left(r.line)
  }

  /** A QUIT closes the socket of the client. */
  predicate Quits(line: Text) {
    Parse(line).cmd == Some(QUIT)
  }

  /** What the socket still delivers after the line: nothing after a QUIT. */
  function Coming(r: Read): seq<Text>
    requires r.Line?
  {
    if Quits(r.line) then [] else r.chunks
  }

  /** The lines that reach the parser. */
  function Handed(buf: Text, chunks: seq<Text>): seq<Text>
    decreases |buf + Concat(chunks)|
  {
    var r := ReadLine(buf, chunks);
    if r.Closed? then []
    else
      KeptIsShort(r);
      [r.line] + Handed(Kept(r), Coming(r))
  }

  lemma KeptIsShort(r: Read)
    requires r.Line?
    ensures |Kept(r) + Concat(Coming(r))| <= |r.line| + |r.next + Concat(r.chunks)|
  {
    LeftIsPrefix(r.line);
  }

  lemma LeftIsPrefix(line: Text)
    ensures |Left(line)| <= |line| && Left(line) == line[..|Left(line)|]
  {
    var u := Truncated(line);
    assert forall n :: 0 <= n <= |u| ==> u[..n] == line[..n];
  }

  /** Whatever chunks come, the buffer of 4096 bytes is never overrun. */
  predicate Roomy(buf: Text, chunks: seq<Text>)
    decreases |chunks|
  {
    |buf| < BUFFER_SIZE &&
    (Break(buf) < |buf| || chunks == [] || Roomy(buf + chunks[0], chunks[1..]))
  }

  predicate AlwaysRoomy(buf: Text, chunks: seq<Text>)
    decreases |buf + Concat(chunks)|
  {
    var r := ReadLine(buf, chunks);
    Roomy(buf, chunks) && (r.Line? ==> (KeptIsShort(r); AlwaysRoomy(Kept(r), Coming(r))))
  }

  predicate Chunks(chunks: seq<Text>) {
    forall i :: 0 <= i < |chunks| ==> 1 <= |chunks[i]| <= 512 && NoNul(chunks[i])
  }

  /** find_cr: the place of the first CR LF, or a number that is no place in the string. */
  method FindCr(buf: array<byte>, size: nat, ghost s: Text) returns (i: nat)
    requires Holds(buf[..], 0, s) && size == |s|
    ensures i < |s| <==> Break(s) < |s|
    ensures i < |s| ==> i == Break(s)
  {
    i := 0;
    while i < size - 1
      invariant 0 <= i && (i < size || size == 0)
      invariant forall j: nat :: j < i ==> !BreakAt(s, j)
    {
      HoldsAt(buf[..], 0, s, i);
      HoldsAt(buf[..], 0, s, i + 1);
      if buf[i] == CR && buf[i + 1] == LF {
        assert BreakAt(s, i);
        return;
      }
      i := i + 1;
    }
    i := i + 1;
  }

  /** strncat: the chunk behind the string in the buffer. */
  method Append(buf: array<byte>, chunk: Text, ghost s: Text)
    requires Holds(buf[..], 0, s) && NoNul(chunk) && |s| + |chunk| < buf.Length
    modifies buf
    ensures Holds(buf[..], 0, s + chunk)
  {
    HoldsContent(buf[..], s);
    var n := Length(buf);
    ghost var b := buf[..];
    Blit(buf, n, chunk + [NUL]);
    assert buf[..n] == b[0..n];
  }

  /** strcpy */
  method Copy(buf: array<byte>, s: Text)
    requires NoNul(s) && |s| < buf.Length
    modifies buf
    ensures Holds(buf[..], 0, s)
  {
    Blit(buf, 0, s + [NUL]);
  }

  class Connection {
    const inBuffer: array<byte>
    const nextMessage: array<byte>
    var chunks: seq<Text>  // what the socket will deliver

    ghost predicate Holding(buf: Text)
      reads this, inBuffer, nextMessage
    {
      && inBuffer != nextMessage && inBuffer.Length == nextMessage.Length == BUFFER_SIZE
      && Holds(inBuffer[..], 0, buf) && Chunks(chunks)
    }

    constructor (chunks: seq<Text>)
      requires Chunks(chunks)
      ensures Holding([]) && this.chunks == chunks && fresh(inBuffer) && fresh(nextMessage)
      ensures inBuffer.Length == nextMessage.Length == 4096
    {
      inBuffer := new byte[BUFFER_SIZE](_ => 0);
      nextMessage := new byte[BUFFER_SIZE](_ => 0);
      this.chunks := chunks;
    }

    /** read_full_message */
    method ReadFullMessage(ghost buf: Text) returns (ok: bool, ghost r: Read)
      requires Holding(buf) && Roomy(buf, chunks)
      modifies this, inBuffer, nextMessage
      ensures r == ReadLine(buf, old(chunks)) && ok == r.Line?
      ensures ok ==> Holding(r.line) && Holds(nextMessage[..], 0, r.next) && chunks == r.chunks
    {
      hide Holds, Concat, Break;
      ghost var s := buf;
      HoldsContent(inBuffer[..], s);
      var n := Length(inBuffer);
      var cr := FindCr(inBuffer, n, s);
      while !(cr < n)
        invariant Holding(s) && Roomy(s, chunks) && n == |s| && ReadLine(s, chunks) == ReadLine(buf, old(chunks))
        invariant (cr < n <==> Break(s) < |s|) && (cr < n ==> cr == Break(s))
        decreases |chunks|
      {
        if chunks == [] {
          return false, Closed;
        }
        var chunk := chunks[0];
        chunks := chunks[1..];
        Append(inBuffer, chunk, s);
        s := s + chunk;
        HoldsContent(inBuffer[..], s);
        n := Length(inBuffer);
        cr := FindCr(inBuffer, n, s);
      }
      SplitAt(cr, n, s);
      return true, ReadLine(buf, old(chunks));
    }

    /** What lies behind the CR LF goes to the other buffer, and the line ends at the CR. */
    method SplitAt(cr: nat, n: nat, ghost s: Text)
      requires inBuffer != nextMessage && inBuffer.Length == nextMessage.Length == BUFFER_SIZE
      requires Holds(inBuffer[..], 0, s) && n == |s| && cr == Break(s) < |s|
      modifies inBuffer, nextMessage
      ensures Holds(inBuffer[..], 0, s[..cr]) && Holds(nextMessage[..], 0, s[cr + 2..])
    {
      HoldsSuffix(inBuffer[..], 0, s, cr + 2);
      HoldsCut(inBuffer[..], 0, s, cr);
      Copy(nextMessage, inBuffer[cr + 2..n]);
      ghost var b := inBuffer[..];
      inBuffer[cr] := NUL;
      assert inBuffer[..] == b[cr := NUL];
    }

    /** The buffer after a line has been dealt with: the rest of what was received, or, after a line
        without a command, what the parser left in it. */
    method TurnOver(ghost next: Text)
      requires inBuffer != nextMessage && inBuffer.Length == nextMessage.Length == BUFFER_SIZE && Chunks(chunks)
      requires Holds(nextMessage[..], 0, next)
      modifies inBuffer, nextMessage
      ensures Holding(next)
    {
      HoldsContent(nextMessage[..], next);
      var n := Length(nextMessage);
      Copy(inBuffer, nextMessage[..n]);
      Blit(nextMessage, 0, seq(MESSAGE_STRUCT, _ => NUL));
    }

    /** One turn of the loop of handle_client: the line is parsed, and the buffer turned over if it
        has a command; otherwise the turn ends early. */
    method HandleLine(ghost r: Read) returns (line: Text, msg: Message)
      requires r.Line? && Holding(r.line) && Holds(nextMessage[..], 0, r.next)
      modifies inBuffer, nextMessage
      ensures line == r.line && msg == Parse(line) && Holding(Kept(r))
    {
      hide Holds, Left, Chunks, Parse;
      HoldsContent(inBuffer[..], r.line);
      var n := Length(inBuffer);
      line := inBuffer[..n];
      msg := ParseMessage(inBuffer);
      if msg.cmd.Some? {
        TurnOver(r.next);
      }
    }

    /** As far as the stream goes only a QUIT matters: it closes the socket, and nothing more is
        received. */
    method HandleMessage(msg: Message, ghost r: Read)
      requires r.Line? && msg == Parse(r.line) && Holding(Kept(r)) && chunks == r.chunks
      modifies this`chunks
      ensures Holding(Kept(r)) && chunks == Coming(r)
    {
      hide Parse, Left;
      if msg.cmd == Some(QUIT) {
        chunks := [];
      }
    }

    /** handle_client: every line read is parsed, and handled if it has a command.  After a QUIT what is
        in the buffer is still read. */
    method HandleClient() returns (lines: seq<Text>, handled: seq<Message>)
      requires Holding([]) && AlwaysRoomy([], chunks)
      modifies this, inBuffer, nextMessage
      ensures lines == Handed([], old(chunks)) && handled == Dispatched(lines)
    {
      hide Holds, Roomy, ReadLine, Kept, Coming, Chunks, Parse, Concat, Dispatched;
      lines, handled := [], [];
      DispatchedMore([], []);
      var ok, r := ReadFullMessage([]);
      while ok
        invariant ok == r.Line?
        invariant ok ==> Holding(r.line) && Holds(nextMessage[..], 0, r.next) && chunks == r.chunks
        invariant ok ==> AlwaysRoomy(Kept(r), Coming(r))
        invariant Handed([], old(chunks)) == if ok then lines + [r.line] + Handed(Kept(r), Coming(r)) else lines
        invariant handled == Dispatched(lines)
        decreases if ok then 1 + |r.line| + |r.next + Concat(r.chunks)| else 0
      {
        KeptIsShort(r);
        DispatchedMore(lines, r.line);
        var line, msg := HandleLine(r);
        lines := lines + [line];
        if msg.cmd.Some? {
          handled := handled + [msg];
        }
        HandleMessage(msg, r);
        ok, r := ReadFullMessage(Kept(r));
      }
    }
  }

  /** The messages of the lines that have a command. */
  function Dispatched(lines: seq<Text>): seq<Message> {
    if lines == [] then []
    else
      var n := |lines| - 1;
      Dispatched(lines[..n]) + if HasCommand(lines[n]) then [Parse(lines[n])] else []
  }

  lemma DispatchedMore(lines: seq<Text>, line: Text)
    ensures Dispatched(lines + [line]) == Dispatched(lines) + if HasCommand(line) then [Parse(line)] else []
    ensures Dispatched([]) == []
  {
    hide Parse;
    assert (lines + [line])[..|lines|] == lines;
  }
}
