/** How the cuts of a stream into receive chunks show in the lines that reach the parser, and when
    the buffer holds them (irc/src/message.c:86-113, irc/src/server.c:241-261). */
module Cuts {
  import opened Common
  import opened Messages
  import opened MessageParser
  import opened Framing

  lemma {:induction false} BreakIn(s: Text, t: Text)
    requires Break(s) < |s|
    ensures Break(s + t) == Break(s)
  {
    if !(s[0] == CR && s[1] == LF) {
      assert (s + t)[1..] == s[1..] + t;
      BreakIn(s[1..], t);
    }
  }

  /** What is read is the first line of everything, and nothing is lost, wherever the chunks end. */
  lemma {:induction false} ReadLineSplits(buf: Text, chunks: seq<Text>)
    ensures var s, r := buf + Concat(chunks), ReadLine(buf, chunks);
            if Break(s) < |s| then r.Line? && r.line == s[..Break(s)] && r.next + Concat(r.chunks) == s[Break(s) + 2..]
            else r == Closed
    decreases |chunks|
  {
    var s := buf + Concat(chunks);
    if Break(buf) < |buf| {
      BreakIn(buf, Concat(chunks));
      assert s[Break(s) + 2..] == buf[Break(s) + 2..] + Concat(chunks);
    } else if chunks == [] {
      assert s == buf;
    } else {
      assert s == buf + chunks[0] + Concat(chunks[1..]);
      ReadLineSplits(buf + chunks[0], chunks[1..]);
    }
  }

  /** A line ends at the first 13 followed by 10, and only what lies behind a whole line is left over. */
  lemma LineEnds(t: Text, more: Text)
    requires forall i :: 0 <= i < |t| - 1 ==> !(t[i] == 13 && t[i + 1] == 10)
    ensures Lines(t + [13, 10] + more) == [t] + Lines(more)
    ensures Lines(t) == []
  {
    hide Break;
    forall i: nat | i < |t|
      ensures !BreakAt(t, i)
    {
      assert i + 1 < |t| ==> !(t[i] == 13 && t[i + 1] == 10);
    }
    BreakSomewhere(t);
    NoLines(t);
    BreakThere(t, more);
    Joined(t, more);
    assert t + [13, 10] + more == t + [CR] + ([LF] + more);
    LinesMore(t + [CR] + ([LF] + more));
  }

  /** A line after which the loop goes on with what was received behind it. */
  predicate GoesOn(line: Text) {
    HasCommand(line) && !Quits(line)
  }

  predicate AllGoOn(lines: seq<Text>) {
    forall i :: 0 <= i < |lines| ==> GoesOn(lines[i])
  }

  /** What follows the last complete line of a stream. */
  function Rest(s: Text): Text {
    if Break(s) < |s| then Rest(s[Break(s) + 2..]) else s
  }

  predicate EndsInCr(s: Text) {
    s != [] && s[|s| - 1] == CR
  }

  /** The part of the rest of which one chunk can bring everything but the end along with the LF of
      the last line. */
  function Near(rest: Text): Text {
    if |rest| < 512 then rest else rest[..512]
  }

  /** What the parser leaves of the line makes no new line with what can be received next. */
  predicate LeavesNoLine(line: Text, rest: Text) {
    !(EndsInCr(Left(line)) && LF in Near(rest))
  }

  /** Every line but the last has a command other than QUIT, and the last has a command, or what it
      leaves is harmless. */
  predicate Framed(lines: seq<Text>, rest: Text) {
    lines != [] ==>
      && AllGoOn(lines[..|lines| - 1])
      && (HasCommand(lines[|lines| - 1]) || LeavesNoLine(lines[|lines| - 1], rest))
  }

  lemma FramedMore(line: Text, lines: seq<Text>, rest: Text)
    ensures Framed([line] + lines, rest) <==>
        if GoesOn(line) then Framed(lines, rest) else lines == [] && (HasCommand(line) || LeavesNoLine(line, rest))
  {
    hide HasCommand, LeavesNoLine, Quits;
    var all := [line] + lines;
    if lines == [] {
      assert all == [line];
    } else {
      assert all[..|all| - 1] == [line] + lines[..|lines| - 1];
      assert all[|all| - 1] == lines[|lines| - 1];
      GoOnMore(line, lines[..|lines| - 1]);
    }
  }

  lemma GoOnMore(x: Text, a: seq<Text>)
    ensures AllGoOn([x] + a) <==> GoesOn(x) && AllGoOn(a)
  {
    hide GoesOn;
    if AllGoOn([x] + a) {
      assert ([x] + a)[0] == x;
      assert forall i :: 0 <= i < |a| ==> a[i] == ([x] + a)[i + 1];
    }
  }

  lemma LinesMore(s: Text)
    requires Break(s) < |s|
    ensures var line, rest := s[..Break(s)], s[Break(s) + 2..];
            && Lines(s) == [line] + Lines(rest) && Rest(s) == Rest(rest)
            && (Framed(Lines(s), Rest(s)) <==>
                  if GoesOn(line) then Framed(Lines(rest), Rest(rest))
                  else Lines(rest) == [] && (HasCommand(line) || LeavesNoLine(line, rest)))
  {
    hide HasCommand, GoesOn, LeavesNoLine, Framed, Break;
    FramedMore(s[..Break(s)], Lines(s[Break(s) + 2..]), Rest(s));
  }

  lemma BreakSomewhere(s: Text)
    ensures Break(s) < |s| <==> exists i :: 0 <= i < |s| && BreakAt(s, i)
  {
    if Break(s) < |s| {
      assert BreakAt(s, Break(s));
    }
  }

  /** Where two strings without a CR LF meet. */
  lemma BreakBetween(a: Text, b: Text)
    requires Break(a) == |a| && Break(b) == |b|
    ensures Break(a + b) < |a + b| <==> EndsInCr(a) && b != [] && b[0] == LF
  {
    BreakSomewhere(a);
    BreakSomewhere(b);
    BreakSomewhere(a + b);
    forall i | 0 <= i < |a + b|
      ensures BreakAt(a + b, i) <==> i == |a| - 1 && EndsInCr(a) && b != [] && b[0] == LF
    {
      assert i + 1 < |a| ==> !BreakAt(a, i);
      assert i >= |a| ==> !BreakAt(b, i - |a|);
    }
    if EndsInCr(a) && b != [] && b[0] == LF {
      assert BreakAt(a + b, |a| - 1);
    }
  }

  lemma BreakAfter(s: Text, n: nat)
    requires Break(s) == |s| && n <= |s|
    ensures Break(s[n..]) == |s[n..]|
  {
    BreakSomewhere(s);
    BreakSomewhere(s[n..]);
    forall i | 0 <= i < |s[n..]|
      ensures !BreakAt(s[n..], i)
    {
      assert !BreakAt(s, n + i);
    }
  }

  lemma {:induction false} NoBreakPrefix(s: Text, n: nat)
    requires n <= Break(s) + 1 && n <= |s|
    ensures Break(s[..n]) == n
  {
    if n >= 2 {
      assert s[..n][1..] == s[1..][..n - 1];
      NoBreakPrefix(s[1..], n - 1);
    }
  }

  lemma NoLines(s: Text)
    ensures Lines(s) == [] <==> Break(s) == |s|
    ensures Lines(s) == [] ==> Rest(s) == s && Framed(Lines(s), Rest(s))
  {
  }

  lemma LeftNoBreak(line: Text)
    requires Break(line) == |line|
    ensures Break(Left(line)) == |Left(line)| <= MAX_LINE
  {
    hide Left;
    LeftIsPrefix(line);
    LeftIsShort(line);
    NoBreakPrefix(line, |Left(line)|);
  }

  lemma LeftIsShort(line: Text)
    ensures |Left(line)| <= MAX_LINE
  {
  }

  /** What is left of a line without a command starts with a space or a colon. */
  lemma LeftStarts(line: Text)
    requires !HasCommand(line) && Left(line) != []
    ensures Left(line)[0] == SPACE || Left(line)[0] == COLON
  {
  }

  lemma HandedMore(buf: Text, chunks: seq<Text>, r: Read)
    requires r == ReadLine(buf, chunks) && r.Line?
    ensures Handed(buf, chunks) == [r.line] + Handed(Kept(r), Coming(r))
    ensures AlwaysRoomy(buf, chunks) <==> Roomy(buf, chunks) && AlwaysRoomy(Kept(r), Coming(r))
  {
    hide HasCommand, Quits, Left, ReadLine, Roomy;
  }

  lemma HandedClosed(buf: Text, chunks: seq<Text>)
    requires ReadLine(buf, chunks).Closed?
    ensures Handed(buf, chunks) == [] && (AlwaysRoomy(buf, chunks) <==> Roomy(buf, chunks))
  {
  }

  lemma QuitIsCommand(line: Text)
    requires Quits(line)
    ensures HasCommand(line) && !GoesOn(line)
  {
  }

  /** One chunk brings at most 511 bytes behind an LF. */
  lemma {:induction false} NextIsShort(buf: Text, chunks: seq<Text>)
    requires |buf| < CHUNK_SIZE && Chunks(chunks) && ReadLine(buf, chunks).Line?
    ensures |ReadLine(buf, chunks).next| < CHUNK_SIZE && Chunks(ReadLine(buf, chunks).chunks)
  {
    NextFits(buf, chunks, CHUNK_SIZE - 1);
  }

  lemma {:induction false} NextFits(buf: Text, chunks: seq<Text>, n: nat)
    requires (Break(buf) == |buf| || |buf| <= n + 2) && n >= CHUNK_SIZE - 1 && Chunks(chunks)
    requires ReadLine(buf, chunks).Line?
    ensures |ReadLine(buf, chunks).next| <= n && Chunks(ReadLine(buf, chunks).chunks)
    decreases |chunks|
  {
    if Break(buf) == |buf| {
      assert forall i :: 0 <= i < |chunks| - 1 ==> chunks[1..][i] == chunks[i + 1];
      var more := buf + chunks[0];
      if Break(more) < |more| {
        BreakLate(buf, chunks[0]);
      } else {
        NextFits(more, chunks[1..], n);
      }
    }
  }

  lemma BreakLate(a: Text, b: Text)
    requires Break(a) == |a| && Break(a + b) < |a + b|
    ensures Break(a + b) + 2 > |a|
  {
    assert forall i: nat :: i + 2 <= |a| ==> BreakAt(a, i) == BreakAt(a + b, i);
  }

  /** What a line without a command leaves makes no line with what is received next. */
  lemma NothingMore(line: Text, next: Text, chunks: seq<Text>)
    requires Break(line) == |line| && LeavesNoLine(line, next + Concat(chunks)) && |next| < CHUNK_SIZE
    requires Break(next + Concat(chunks)) == |next + Concat(chunks)|
    ensures ReadLine(Left(line), chunks) == Closed
  {
    hide Left, Break;
    var rest, t := next + Concat(chunks), Concat(chunks);
    assert rest[|next|..] == t;
    BreakAfter(rest, |next|);
    LeftNoBreak(line);
    BreakBetween(Left(line), t);
    assert t != [] ==> Near(rest)[|next|] == t[0];
    ReadLineSplits(Left(line), chunks);
  }

  /** Nothing comes after a QUIT that ends the complete lines. */
  lemma NothingAfterQuit(next: Text, later: Text)
    requires Break(next + later) == |next + later|
    ensures ReadLine(next, []) == Closed
  {
    assert (next + later)[..|next|] == next;
    NoBreakPrefix(next + later, |next|);
  }

  /** The lines that reach the parser are the lines of the stream, however it is cut. */
  lemma {:induction false} FramedHanded(buf: Text, chunks: seq<Text>)
    requires Framed(Lines(buf + Concat(chunks)), Rest(buf + Concat(chunks)))
    requires |buf| < CHUNK_SIZE && Chunks(chunks)
    ensures Handed(buf, chunks) == Lines(buf + Concat(chunks))
    decreases |buf + Concat(chunks)|
  {
    hide HasCommand, Quits, Framed, Lines, Rest, LeavesNoLine, Left, ReadLine, Break, Handed, AlwaysRoomy, Chunks,
         Roomy;
    var s, r := buf + Concat(chunks), ReadLine(buf, chunks);
    ReadLineSplits(buf, chunks);
    NoLines(s);
    if Break(s) < |s| {
      LinesMore(s);
      NextIsShort(buf, chunks);
      HandedMore(buf, chunks, r);
      if GoesOn(r.line) {
        FramedHanded(r.next, r.chunks);
      } else {
        LastLine(s, r);
      }
    } else {
      HandedClosed(buf, chunks);
    }
  }

  lemma LastLine(s: Text, r: Read)
    requires Break(s) < |s| && r.Line? && r.line == s[..Break(s)] && r.next + Concat(r.chunks) == s[Break(s) + 2..]
    requires !GoesOn(r.line) && Framed(Lines(s), Rest(s)) && |r.next| < CHUNK_SIZE
    ensures Lines(s) == [r.line] && Handed(Kept(r), Coming(r)) == []
  {
    hide HasCommand, Quits, Framed, Lines, Rest, LeavesNoLine, Left, ReadLine, Break, Handed, AlwaysRoomy, Roomy;
    LinesMore(s);
    NoLines(r.next + Concat(r.chunks));
    if HasCommand(r.line) {
      NothingAfterQuit(r.next, Concat(r.chunks));
    } else {
      if Quits(r.line) { QuitIsCommand(r.line); }
      NoBreakPrefix(s, Break(s));
      NothingMore(r.line, r.next, r.chunks);
    }
    HandedClosed(Kept(r), Coming(r));
  }

  /** Every byte in a chunk of its own. */
  function Singles(s: Text): (c: seq<Text>)
    ensures |c| == |s| && forall i :: 0 <= i < |c| ==> c[i] == [s[i]]
  {
    seq(|s|, i requires 0 <= i < |s| => [s[i]])
  }

  /** A line byte by byte up to its CR, its LF together with what is next, and then later. */
  function Parts(line: Text, next: Text, later: seq<Text>): seq<Text> {
    Singles(line + [CR]) + [[LF] + next] + later
  }

  lemma {:induction false} ConcatMore(a: seq<Text>, b: seq<Text>)
    ensures Concat(a + b) == Concat(a) + Concat(b)
  {
    if a == [] {
      assert a + b == b;
    } else {
      assert (a + b)[1..] == a[1..] + b;
      ConcatMore(a[1..], b);
    }
  }

  lemma {:induction false} ConcatSingles(s: Text)
    ensures Concat(Singles(s)) == s
  {
    if s != [] {
      assert Singles(s)[1..] == Singles(s[1..]);
      ConcatSingles(s[1..]);
    }
  }

  lemma OneChunk(t: Text)
    ensures Concat([t]) == t
  {
    assert t + [] == t;
  }

  lemma SinglesChunks(s: Text)
    requires NoNul(s)
    ensures Chunks(Singles(s))
  {
  }

  lemma ChunksMore(a: seq<Text>, b: seq<Text>)
    requires Chunks(a) && Chunks(b)
    ensures Chunks(a + b)
  {
  }

  /** The parts are chunks that a socket can deliver. */
  lemma PartsAre(line: Text, next: Text, later: seq<Text>)
    requires NoNul(line) && NoNul(next) && |next| < CHUNK_SIZE && Chunks(later)
    ensures Chunks(Parts(line, next, later))
    ensures Concat(Parts(line, next, later)) == line + [CR, LF] + next + Concat(later)
  {
    hide Singles, Concat;
    var a, b := line + [CR], [LF] + next;
    SinglesChunks(a);
    ChunksMore(Singles(a), [b]);
    ChunksMore(Singles(a) + [b], later);
    ConcatMore(Singles(a) + [b], later);
    ConcatMore(Singles(a), [b]);
    ConcatSingles(a);
    OneChunk(b);
    assert a + b + Concat(later) == line + [CR, LF] + next + Concat(later);
  }

  lemma ReadOne(buf: Text, x: Text, later: seq<Text>)
    requires Break(buf) == |buf|
    ensures ReadLine(buf, [x] + later) == ReadLine(buf + x, later)
    ensures Roomy(buf, [x] + later) ==> Roomy(buf + x, later)
  {
    hide Break;
    assert ([x] + later)[1..] == later;
  }

  /** Bytes that complete no line just gather in the buffer. */
  lemma {:induction false} ReadSingles(buf: Text, s: Text, later: seq<Text>)
    requires Break(buf + s) == |buf + s|
    ensures ReadLine(buf, Singles(s) + later) == ReadLine(buf + s, later)
    ensures Roomy(buf, Singles(s) + later) ==> Roomy(buf + s, later)
    decreases |s|
  {
    hide Break, ReadLine, Roomy;
    if s == [] {
      assert Singles(s) + later == later && buf + s == buf;
    } else {
      assert (buf + s)[..|buf|] == buf && buf + [s[0]] + s[1..] == buf + s;
      NoBreakPrefix(buf + s, |buf|);
      assert Singles(s) + later == [[s[0]]] + (Singles(s[1..]) + later);
      ReadOne(buf, [s[0]], Singles(s[1..]) + later);
      ReadSingles(buf + [s[0]], s[1..], later);
    }
  }

  lemma ReadGathered(a: Text, b: Text, later: seq<Text>)
    requires Break(a) == |a| && Break(a + b) < |a + b|
    ensures var k := Break(a + b);
            ReadLine([], Singles(a) + [b] + later) == Line((a + b)[..k], (a + b)[k + 2..], later)
    ensures Roomy([], Singles(a) + [b] + later) ==> |a + b| < BUFFER_SIZE
  {
    hide Break, Singles, ReadLine, Roomy;
    assert [] + a == a;
    assert Singles(a) + [b] + later == Singles(a) + ([b] + later);
    ReadSingles([], a, [b] + later);
    ReadOne(a, b, later);
    ReadNow(a + b, later);
  }

  lemma BreakThere(line: Text, t: Text)
    requires Break(line) == |line|
    ensures Break(line + [CR]) == |line| + 1
    ensures Break(line + [CR] + ([LF] + t)) == |line|
  {
    var a := line + [CR];
    var s := a + ([LF] + t);
    assert BreakAt(s, |line|);
    forall i: nat | i < |line|
      ensures !BreakAt(a, i) && !BreakAt(s, i)
    {
      assert !BreakAt(line, i);
    }
  }

  /** The line is read when its LF comes, with what the same chunk brings behind it. */
  lemma ReadParts(line: Text, next: Text, later: seq<Text>)
    requires Break(line) == |line|
    ensures ReadLine([], Parts(line, next, later)) == Line(line, next, later)
    ensures Roomy([], Parts(line, next, later)) ==> |line| + 2 + |next| < BUFFER_SIZE
  {
    hide Break, Singles, ReadLine, Roomy;
    var a, b := line + [CR], [LF] + next;
    BreakThere(line, next);
    Joined(line, next);
    ReadGathered(a, b, later);
  }

  lemma Joined(line: Text, next: Text)
    ensures var s := line + [CR] + ([LF] + next);
            s[..|line|] == line && s[|line| + 2..] == next && |s| == |line| + 2 + |next|
  {
  }

  lemma ReadNow(buf: Text, later: seq<Text>)
    requires Break(buf) < |buf|
    ensures ReadLine(buf, later) == Line(buf[..Break(buf)], buf[Break(buf) + 2..], later)
    ensures Roomy(buf, later) ==> |buf| < BUFFER_SIZE
  {
    hide Break;
  }

  function FirstLf(s: Text): (i: nat)
    ensures i <= |s| && (LF in s ==> i < |s| && s[i] == LF)
    ensures forall j :: 0 <= j < i ==> s[j] != LF
  {
    if s == [] || s[0] == LF then 0 else 1 + FirstLf(s[1..])
  }

  /** How many bytes behind a line without a command to put into its last chunk: those before an LF of
      the unfinished rest; or else none, or one if nothing is left of the line. */
  function Lost(line: Text, rest: Text): (n: nat)
    ensures n <= |rest|
  {
    if HasCommand(line) then 0
    else if Lines(rest) == [] then FirstLf(rest)
    else if Left(line) == [] && rest != [] then 1
    else 0
  }

  /** A way to cut a stream that shows that it is not framed. */
  function Cutting(s: Text): seq<Text> {
    if Break(s) == |s| then Singles(s)
    else
      var line, rest := s[..Break(s)], s[Break(s) + 2..];
      if GoesOn(line) then Parts(line, [], Cutting(rest))
      else Parts(line, rest[..Lost(line, rest)], Singles(rest[Lost(line, rest)..]))
  }

  lemma LostNear(line: Text, rest: Text)
    requires !(Lines(rest) == [] && (HasCommand(line) || LeavesNoLine(line, rest)))
    ensures Lost(line, rest) < CHUNK_SIZE
  {
    hide HasCommand, Left, Lines;
    if !HasCommand(line) && Lines(rest) == [] {
      var i :| 0 <= i < |Near(rest)| && Near(rest)[i] == LF;
      assert rest[i] == LF;
    }
  }

  lemma NoNulParts(s: Text, n: nat)
    requires NoNul(s) && n <= |s|
    ensures NoNul(s[..n]) && NoNul(s[n..])
  {
  }

  lemma FirstLine(s: Text)
    requires Break(s) < |s|
    ensures Break(s[..Break(s)]) == Break(s)
    ensures s == s[..Break(s)] + [CR, LF] + s[Break(s) + 2..]
  {
    hide Break;
    NoBreakPrefix(s, Break(s));
    AroundBreak(s, Break(s));
  }

  lemma AroundBreak(s: Text, k: nat)
    requires BreakAt(s, k)
    ensures s == s[..k] + [CR, LF] + s[k + 2..]
  {
  }

  /** A stream cut around its first line. */
  lemma PiecesAre(s: Text, n: nat, later: seq<Text>)
    requires Break(s) < |s| && n <= |s| - Break(s) - 2 && n < CHUNK_SIZE && NoNul(s)
    requires Chunks(later) && Concat(later) == s[Break(s) + 2..][n..]
    ensures var chunks := Parts(s[..Break(s)], s[Break(s) + 2..][..n], later);
            Chunks(chunks) && Concat(chunks) == s
  {
    hide Break, Parts, Chunks, Concat, NoNul;
    var line, rest := s[..Break(s)], s[Break(s) + 2..];
    FirstLine(s);
    NoNulParts(s, Break(s));
    NoNulParts(s, Break(s) + 2);
    NoNulParts(rest, n);
    PartsAre(line, rest[..n], later);
    Regroup(line + [CR, LF], rest, n);
  }

  lemma Regroup(a: Text, b: Text, n: nat)
    requires n <= |b|
    ensures a + b[..n] + b[n..] == a + b
  {
  }

  lemma {:induction false} CuttingIs(s: Text)
    requires NoNul(s) && !Framed(Lines(s), Rest(s))
    ensures Chunks(Cutting(s)) && Concat(Cutting(s)) == s
  {
    hide HasCommand, GoesOn, Framed, Lines, Rest, Break, Lost, Parts, Singles, Chunks, LeavesNoLine, NoNul, Concat;
    NoLines(s);
    LinesMore(s);
    var line, rest := s[..Break(s)], s[Break(s) + 2..];
    NoNulParts(s, Break(s) + 2);
    if GoesOn(line) {
      CuttingIs(rest);
      assert rest[0..] == rest && rest[..0] == [];
      PiecesAre(s, 0, Cutting(rest));
    } else {
      var n := Lost(line, rest);
      LostNear(line, rest);
      NoNulParts(rest, n);
      SinglesChunks(rest[n..]);
      ConcatSingles(rest[n..]);
      PiecesAre(s, n, Singles(rest[n..]));
    }
  }

  lemma SameTails(x: Text, a: seq<Text>, b: seq<Text>)
    ensures [x] + a == [x] + b <==> a == b
  {
    assert ([x] + a)[1..] == a && ([x] + b)[1..] == b;
  }

  /** Cut like that, the stream hands over other lines. */
  lemma {:induction false} CuttingHanded(s: Text)
    requires !Framed(Lines(s), Rest(s))
    ensures Handed([], Cutting(s)) != Lines(s)
  {
    hide HasCommand, Quits, Framed, Lines, Rest, Left, ReadLine, Break, LeavesNoLine, Handed, Parts, Singles, Lost,
         Roomy, AlwaysRoomy;
    NoLines(s);
    LinesMore(s);
    var line, rest := s[..Break(s)], s[Break(s) + 2..];
    var n := if GoesOn(line) then 0 else Lost(line, rest);
    var later := if GoesOn(line) then Cutting(rest) else Singles(rest[n..]);
    FirstLine(s);
    ReadParts(line, rest[..n], later);
    var r := Line(line, rest[..n], later);
    assert rest[..0] == [];
    HandedMore([], Cutting(s), r);
    if GoesOn(line) {
      CuttingHanded(rest);
    } else if HasCommand(line) {
      QuitThenNothing(line, rest, n);
    } else {
      if Quits(line) { QuitIsCommand(line); }
      BareLine(line, rest, n);
    }
    SameTails(line, Handed(Kept(r), Coming(r)), Lines(rest));
  }

  lemma QuitThenNothing(line: Text, rest: Text, n: nat)
    requires HasCommand(line) && n == Lost(line, rest)
    ensures Handed(rest[..n], []) == []
  {
    hide HasCommand;
    assert rest[..n] == [];
  }

  /** After a line without a command: another line where one is due, or one where none is. */
  lemma BareLine(line: Text, rest: Text, n: nat)
    requires !HasCommand(line) && Break(line) == |line| && n == Lost(line, rest)
    requires !(Lines(rest) == [] && LeavesNoLine(line, rest))
    ensures Handed(Left(line), Singles(rest[n..])) != Lines(rest)
  {
    hide HasCommand, Quits, Lines, Rest, Left, ReadLine, Break, Handed, AlwaysRoomy, Roomy, Singles;
    var chunks, u := Singles(rest[n..]), Left(line) + rest[n..];
    NoLines(rest);
    LeftNoBreak(line);
    ConcatSingles(rest[n..]);
    ReadLineSplits(Left(line), chunks);
    if Break(u) == |u| {
      HandedClosed(Left(line), chunks);
      if Lines(rest) == [] {
        BreakAfter(rest, n);
        BreakBetween(Left(line), rest[n..]);
        LostNear(line, rest);
        LfThere(line, rest);
      }
    } else {
      HandedMore(Left(line), chunks, ReadLine(Left(line), chunks));
      assert Handed(Left(line), chunks)[0] == u[..Break(u)];
      if Lines(rest) != [] {
        LinesMore(rest);
        OtherLine(line, rest, n);
        assert Lines(rest)[0] == rest[..Break(rest)];
      }
    }
  }

  lemma LfThere(line: Text, rest: Text)
    requires !LeavesNoLine(line, rest) && !HasCommand(line) && Lines(rest) == []
    ensures EndsInCr(Left(line)) && Lost(line, rest) < |rest| && rest[Lost(line, rest)] == LF
  {
    hide HasCommand, Left, Lines;
    var i :| 0 <= i < |Near(rest)| && Near(rest)[i] == LF;
    assert rest[i] == LF;
  }

  /** The first line behind what is left of a line is not the first one of the rest. */
  lemma OtherLine(line: Text, rest: Text, n: nat)
    requires !HasCommand(line) && Break(line) == |line| && Break(rest) < |rest|
    requires n == if Left(line) == [] then 1 else 0
    requires var u := Left(line) + rest[n..]; Break(u) < |u|
    ensures var u := Left(line) + rest[n..]; u[..Break(u)] != rest[..Break(rest)]
  {
    hide HasCommand, Left;
    var left := Left(line);
    LeftNoBreak(line);
    if left == [] {
      assert left + rest[1..] == rest[1..];
      TailLine(rest);
    } else {
      LeftStarts(line);
      assert rest[0..] == rest;
      JoinedLine(left, rest);
    }
  }

  lemma TailLine(rest: Text)
    requires Break(rest) < |rest| && Break(rest[1..]) < |rest[1..]|
    ensures |rest[1..][..Break(rest[1..])]| != |rest[..Break(rest)]|
  {
  }

  lemma JoinedLine(left: Text, rest: Text)
    requires left != [] && (left[0] == SPACE || left[0] == COLON) && Break(left) == |left|
    requires Break(rest) < |rest| && Break(left + rest) < |left + rest|
    ensures (left + rest)[..Break(left + rest)] != rest[..Break(rest)]
  {
    var u, m := left + rest, Break(rest);
    var b := Break(u);
    if b >= |left| {
      assert BreakAt(rest, b - |left|) == BreakAt(u, b);
      assert b - |left| >= m;
      assert |u[..b]| > |rest[..m]|;
    } else {
      BreakLate(left, rest);
      assert rest[0] == u[b + 1] == LF;
      assert m > 0 && rest[..m][0] == LF;
      assert b > 0 ==> u[..b][0] == left[0];
    }
  }

  /** Framing does not depend on how a stream is received if and only if every line but the last has a
      command other than QUIT, and the last has a command, or what the parser leaves of it does not end
      in a CR that an LF among the next 512 bytes of the unfinished rest could follow. */
  lemma FramingIff(s: Text)
    requires NoNul(s)
    ensures (forall chunks :: Chunks(chunks) && Concat(chunks) == s ==> Handed([], chunks) == Lines(s))
        <==> Framed(Lines(s), Rest(s))
  {
    hide HasCommand, Framed, Lines, Rest, Left, ReadLine, Break, Handed, Chunks;
    if Framed(Lines(s), Rest(s)) {
      forall chunks | Chunks(chunks) && Concat(chunks) == s
        ensures Handed([], chunks) == Lines(s)
      {
        assert [] + Concat(chunks) == s;
        FramedHanded([], chunks);
      }
    } else {
      CuttingIs(s);
      CuttingHanded(s);
    }
  }

  /** In particular it does not if every line has a command other than QUIT. */
  lemma FramingIndependent(buf: Text, chunks: seq<Text>)
    requires AllGoOn(Lines(buf + Concat(chunks))) && |buf| < CHUNK_SIZE && Chunks(chunks)
    ensures Handed(buf, chunks) == Lines(buf + Concat(chunks))
  {
    hide HasCommand, Quits;
    FramedHanded(buf, chunks);
  }

  predicate AllCommands(lines: seq<Text>) {
    forall i :: 0 <= i < |lines| ==> HasCommand(lines[i])
  }

  /** A stream that arrives in one piece is framed correctly if and only if every line but the last
      one has a command. */
  lemma OnePieceIff(s: Text)
    ensures Handed([], [s]) == Lines(s) <==> (Lines(s) == [] || AllCommands(Lines(s)[..|Lines(s)| - 1]))
  {
    ReadFirst(s);
    assert Handed([], [s]) == Handed(s, []);
    BufferedIff(s);
  }

  lemma {:induction false} BufferedIff(s: Text)
    ensures Handed(s, []) == Lines(s) <==> (Lines(s) == [] || AllCommands(Lines(s)[..|Lines(s)| - 1]))
    decreases |s|
  {
    hide HasCommand, Quits, Left, AllCommands, Break, ReadLine, Handed, Roomy, AlwaysRoomy, Framed, GoesOn;
    NoCommands();
    NoLines(s);
    if Break(s) < |s| {
      var line, next := s[..Break(s)], s[Break(s) + 2..];
      LinesMore(s);
      ReadNow(s, []);
      HandedMore(s, [], Line(line, next, []));
      SameTails(line, Handed(next, []), Lines(next));
      if HasCommand(line) {
        BufferedIff(next);
        CommandsTail(line, Lines(next));
      } else {
        NoBreakLeft(s, line);
        NoCommandFirst(line, Lines(next));
      }
    } else {
      ReadAll(s);
      HandedClosed(s, []);
    }
  }

  lemma ReadAll(s: Text)
    requires Break(s) == |s|
    ensures ReadLine(s, []) == Closed
  {
  }

  lemma NoCommands()
    ensures AllCommands([])
  {
  }

  lemma NoCommandFirst(x: Text, a: seq<Text>)
    requires !HasCommand(x)
    ensures AllCommands(([x] + a)[..|a|]) <==> a == []
    ensures [x] == [x] + a <==> a == []
  {
    if a != [] {
      assert ([x] + a)[..|a|][0] == x;
      assert |[x] + a| == 1 + |a|;
    }
  }

  lemma CommandsTail(x: Text, a: seq<Text>)
    requires HasCommand(x)
    ensures AllCommands(([x] + a)[..|a|]) <==> a == [] || AllCommands(a[..|a| - 1])
  {
    hide HasCommand;
    if a != [] {
      assert ([x] + a)[..|a|] == [x] + a[..|a| - 1];
      var b := a[..|a| - 1];
      assert forall i :: 0 < i <= |b| ==> ([x] + b)[i] == b[i - 1];
      assert forall i :: 0 <= i < |b| ==> b[i] == ([x] + b)[1..][i];
    }
  }

  /** What the parser leaves of a line contains no CR LF. */
  lemma NoBreakLeft(s: Text, line: Text)
    requires Break(s) < |s| && line == s[..Break(s)]
    ensures Break(Left(line)) == |Left(line)| && Handed(Left(line), []) == []
  {
    hide Left;
    LeftIsPrefix(line);
    NoBreakPrefix(s, |Left(line)|);
    assert line[..|Left(line)|] == s[..|Left(line)|];
  }

  lemma ReadBlank(t: Text, chunks: seq<Text>)
    ensures ReadLine([CR, LF] + t, chunks) == Line([], t, chunks)
  {
    var s := [CR, LF] + t;
    assert Break(s) == 0 && s[..0] == [] && s[2..] == t;
  }

  lemma ReadFirst(t: Text)
    ensures ReadLine([], [t]) == ReadLine(t, []) && ReadLine([], []) == Closed
  {
    assert [] + t == t;
  }

  /** With a blank line in the stream the outcome depends on the chunks: what follows it in the same
      chunk is lost, what comes in the next chunk is not. */
  lemma ChunksMatter(t: Text)
    ensures Handed([13, 10] + t, []) == [[]]
    ensures Handed([13, 10] + [], [t]) == [[]] + Handed(t, [])
  {
    hide HasCommand, Left, ReadLine;
    EmptyLine();
    ReadBlank(t, []);
    ReadBlank([], [t]);
    ReadFirst(t);
    assert Handed([], []) == [];
    assert Handed([], [t]) == Handed(t, []);
  }

  lemma EmptyLine()
    ensures !HasCommand([]) && Left([]) == []
  {
  }

  /** So it does with a QUIT: what follows it in the same chunk is read, what comes in the next chunk is
      not. */
  lemma QuitMatters(t: Text)
    ensures Handed([81, 85, 73, 84] + [13, 10] + t, []) == [[81, 85, 73, 84]] + Handed(t, [])
    ensures Handed([81, 85, 73, 84] + [13, 10] + [], [t]) == [[81, 85, 73, 84]]
  {
    hide HasCommand, Quits, Left, ReadLine, Break;
    QuitLine();
    ReadQuit(t, []);
    ReadQuit([], [t]);
    ReadFirst(t);
    HandedMore(QUIT + [CR, LF] + t, [], Line(QUIT, t, []));
    HandedMore(QUIT + [CR, LF] + [], [t], Line(QUIT, [], [t]));
    HandedClosed([], []);
  }

  lemma QuitLine()
    ensures HasCommand(QUIT) && Quits(QUIT) && Break(QUIT) == |QUIT|
  {
    assert Spaces(QUIT) == 0;
    assert WordEnd(QUIT, 4) == 4 && WordEnd(QUIT, 3) == 4 && WordEnd(QUIT, 2) == 4 && WordEnd(QUIT, 1) == 4;
    assert QUIT[0..4] == QUIT;
    BreakSomewhere(QUIT);
  }

  lemma ReadQuit(t: Text, chunks: seq<Text>)
    ensures ReadLine(QUIT + [CR, LF] + t, chunks) == Line(QUIT, t, chunks)
  {
    hide Break;
    QuitLine();
    BreakThere(QUIT, t);
    assert QUIT + [CR] + ([LF] + t) == QUIT + [CR, LF] + t;
    Joined(QUIT, t);
    ReadNow(QUIT + [CR, LF] + t, chunks);
  }
}
