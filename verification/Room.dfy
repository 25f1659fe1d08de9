/** When the receive buffer of 4096 bytes holds a stream however it is received
    (irc/src/message.c:86-113, irc/src/server.c:227-261). */
module Room {
  import opened Common
  import opened Messages
  import opened MessageParser
  import opened Framing
  import opened Cuts

  const SHORT := 3582

  /** Each line is short, or everything from it on is; after a QUIT nothing can come that is too much,
      and after a last line without a command what is left of it shares the buffer with the rest. */
  predicate Bounded(s: Text) {
    && (Break(s) <= 3582 || |s| < 4096)
    && (Break(s) < |s| ==>
          var line, rest := s[..Break(s)], s[Break(s) + 2..];
          if GoesOn(line) then Bounded(rest) else HasCommand(line) || |Left(line)| + |rest| < 4096)
  }

  lemma BoundedMore(s: Text)
    requires Break(s) < |s|
    ensures var line, rest := s[..Break(s)], s[Break(s) + 2..];
            Bounded(s) <==>
              && (Break(s) <= SHORT || |s| < BUFFER_SIZE)
              && if GoesOn(line) then Bounded(rest) else HasCommand(line) || |Left(line)| + |rest| < BUFFER_SIZE
  {
    hide Break, HasCommand, Quits, Left;
  }

  lemma {:induction false} SmallRoomy(buf: Text, chunks: seq<Text>)
    requires |buf + Concat(chunks)| < BUFFER_SIZE
    ensures Roomy(buf, chunks)
    decreases |chunks|
  {
    hide Break;
    if chunks != [] {
      assert buf + Concat(chunks) == buf + chunks[0] + Concat(chunks[1..]);
      SmallRoomy(buf + chunks[0], chunks[1..]);
    }
  }

  /** Until a line is complete the buffer has at most one byte more than the line. */
  lemma {:induction false} ShortRoomy(buf: Text, chunks: seq<Text>)
    requires Chunks(chunks) && |buf| < BUFFER_SIZE && Break(buf + Concat(chunks)) <= SHORT
    ensures Roomy(buf, chunks)
    decreases |chunks|
  {
    hide Break;
    if Break(buf) == |buf| && chunks != [] {
      BreakSoFar(buf, Concat(chunks));
      assert buf + Concat(chunks) == buf + chunks[0] + Concat(chunks[1..]);
      assert forall i :: 0 <= i < |chunks| - 1 ==> chunks[1..][i] == chunks[i + 1];
      ShortRoomy(buf + chunks[0], chunks[1..]);
    }
  }

  /** A string without a CR LF ends at most one byte behind the place of the next one. */
  lemma BreakSoFar(s: Text, t: Text)
    requires Break(s) == |s|
    ensures |s| <= Break(s + t) + 1
  {
    if Break(s + t) < |s + t| {
      BreakLate(s, t);
    }
  }

  /** When nothing more comes there is room for what is there. */
  lemma {:induction false} RoomyAlone(buf: Text)
    requires |buf| < BUFFER_SIZE
    ensures AlwaysRoomy(buf, [])
    decreases |buf|
  {
    hide Break, ReadLine, HasCommand, Quits, Left, AlwaysRoomy, Handed, Roomy;
    assert buf + Concat([]) == buf;
    SmallRoomy(buf, []);
    ReadLineSplits(buf, []);
    var r := ReadLine(buf, []);
    if r.Line? {
      NothingComes(buf);
      LeftIsPrefix(r.line);
      HandedMore(buf, [], r);
      RoomyAlone(Kept(r));
    } else {
      HandedClosed(buf, []);
    }
  }

  lemma NothingComes(buf: Text)
    requires Break(buf) < |buf|
    ensures var r := ReadLine(buf, []);
            r.Line? && r.chunks == [] && |r.line| < |buf| && |r.next| < |buf|
  {
    hide Break, ReadLine;
    ReadNow(buf, []);
  }

  /** The buffer is never overrun, however the stream is received. */
  lemma {:induction false} BoundedRoomy(buf: Text, chunks: seq<Text>)
    requires Framed(Lines(buf + Concat(chunks)), Rest(buf + Concat(chunks))) && Bounded(buf + Concat(chunks))
    requires |buf| < CHUNK_SIZE && Chunks(chunks)
    ensures AlwaysRoomy(buf, chunks)
    decreases |buf + Concat(chunks)|
  {
    hide HasCommand, Quits, Framed, Lines, Rest, LeavesNoLine, Left, ReadLine, Break, Handed, AlwaysRoomy, Chunks,
         Roomy, Bounded;
    var s, r := buf + Concat(chunks), ReadLine(buf, chunks);
    ReadLineSplits(buf, chunks);
    BoundedHere(s);
    if Break(s) <= SHORT { ShortRoomy(buf, chunks); } else { SmallRoomy(buf, chunks); }
    if Break(s) < |s| {
      LinesMore(s);
      BoundedMore(s);
      NextIsShort(buf, chunks);
      HandedMore(buf, chunks, r);
      if GoesOn(r.line) {
        BoundedRoomy(r.next, r.chunks);
      } else {
        LastRoomy(s, r);
      }
    } else {
      HandedClosed(buf, chunks);
    }
  }

  lemma BoundedHere(s: Text)
    requires Bounded(s)
    ensures Break(s) <= SHORT || |s| < BUFFER_SIZE
  {
  }

  lemma LastRoomy(s: Text, r: Read)
    requires Break(s) < |s| && r.Line? && r.line == s[..Break(s)] && r.next + Concat(r.chunks) == s[Break(s) + 2..]
    requires !GoesOn(r.line) && Framed(Lines(s), Rest(s)) && |r.next| < CHUNK_SIZE && Bounded(s)
    ensures AlwaysRoomy(Kept(r), Coming(r))
  {
    hide HasCommand, Quits, Framed, Lines, Rest, LeavesNoLine, Left, ReadLine, Break, Handed, AlwaysRoomy, Roomy,
         Bounded;
    LinesMore(s);
    BoundedMore(s);
    NoLines(r.next + Concat(r.chunks));
    if HasCommand(r.line) {
      RoomyAlone(r.next);
    } else {
      if Quits(r.line) { QuitIsCommand(r.line); }
      NoBreakPrefix(s, Break(s));
      NothingMore(r.line, r.next, r.chunks);
      HandedClosed(Left(r.line), r.chunks);
      SmallRoomy(Left(r.line), r.chunks);
    }
  }

  /** A way to receive a stream that overruns the buffer: a line that is too long byte by byte, and
      behind its LF as much as one chunk can bring. */
  function Wide(s: Text): seq<Text> {
    if Break(s) == |s| then Singles(s)
    else
      var line, rest := s[..Break(s)], s[Break(s) + 2..];
      if |line| > SHORT && |s| >= BUFFER_SIZE then
        var n := if |rest| < CHUNK_SIZE then |rest| else CHUNK_SIZE - 1;
        Parts(line, rest[..n], Singles(rest[n..]))
      else Parts(line, [], if GoesOn(line) then Wide(rest) else Singles(rest))
  }

  lemma {:induction false} WideIs(s: Text)
    requires NoNul(s)
    ensures Chunks(Wide(s)) && Concat(Wide(s)) == s
  {
    hide HasCommand, GoesOn, Break, Parts, Singles, Chunks, NoNul, Concat;
    if Break(s) == |s| {
      SinglesChunks(s);
      ConcatSingles(s);
    } else {
      var line, rest := s[..Break(s)], s[Break(s) + 2..];
      NoNulParts(s, Break(s) + 2);
      var wide := |line| > SHORT && |s| >= BUFFER_SIZE;
      var n := if !wide then 0 else if |rest| < CHUNK_SIZE then |rest| else CHUNK_SIZE - 1;
      NoNulParts(rest, n);
      assert rest[0..] == rest && rest[..0] == [];
      if !wide && GoesOn(line) {
        WideIs(rest);
        PiecesAre(s, 0, Wide(rest));
      } else {
        SinglesChunks(rest[n..]);
        ConcatSingles(rest[n..]);
        PiecesAre(s, n, Singles(rest[n..]));
      }
    }
  }

  lemma {:induction false} WideOverruns(s: Text)
    requires Framed(Lines(s), Rest(s)) && !Bounded(s)
    ensures !AlwaysRoomy([], Wide(s))
  {
    hide HasCommand, Quits, Framed, Lines, Rest, LeavesNoLine, Left, ReadLine, Break, Handed, AlwaysRoomy, Roomy,
         Bounded, Parts, Singles;
    if Break(s) == |s| {
      NotBounded(s);
      SinglesGather(s);
    } else {
      var line, rest := s[..Break(s)], s[Break(s) + 2..];
      var wide := |line| > SHORT && |s| >= BUFFER_SIZE;
      var n := if !wide then 0 else if |rest| < CHUNK_SIZE then |rest| else CHUNK_SIZE - 1;
      var later := if !wide && GoesOn(line) then Wide(rest) else Singles(rest[n..]);
      assert rest[0..] == rest && rest[..0] == [];
      FirstLine(s);
      LinesMore(s);
      BoundedMore(s);
      ReadParts(line, rest[..n], later);
      HandedMore([], Wide(s), Line(line, rest[..n], later));
      if !wide {
        if GoesOn(line) {
          WideOverruns(rest);
        } else {
          if Quits(line) { QuitIsCommand(line); }
          NoLines(rest);
          LeftGathers(line, rest);
        }
      }
    }
  }

  lemma NotBounded(s: Text)
    requires !Bounded(s) && Break(s) == |s|
    ensures |s| >= BUFFER_SIZE
  {
  }

  lemma SinglesGather(s: Text)
    requires Break(s) == |s| >= BUFFER_SIZE
    ensures !AlwaysRoomy([], Singles(s))
  {
    hide Break;
    assert [] + s == s && Singles(s) + [] == Singles(s);
    ReadSingles([], s, []);
  }

  lemma LeftGathers(line: Text, rest: Text)
    requires Break(line) == |line| && Break(rest) == |rest| && LeavesNoLine(line, rest)
    requires |Left(line)| + |rest| >= BUFFER_SIZE
    ensures !AlwaysRoomy(Left(line), Singles(rest))
  {
    hide Break, Left;
    LeftNoBreak(line);
    assert rest != [] ==> Near(rest)[0] == rest[0];
    BreakBetween(Left(line), rest);
    assert Singles(rest) + [] == Singles(rest);
    ReadSingles(Left(line), rest, []);
  }

  /** However a framed stream is received, the buffer is never overrun, if and only if each of its
      lines has at most 3582 bytes or fewer than 4096 from there on, and what is left of a last line
      without a command fits together with the rest. */
  lemma RoomIff(s: Text)
    requires NoNul(s) && Framed(Lines(s), Rest(s))
    ensures (forall chunks :: Chunks(chunks) && Concat(chunks) == s ==> AlwaysRoomy([], chunks)) <==> Bounded(s)
  {
    hide HasCommand, Framed, Lines, Rest, Left, ReadLine, Break, AlwaysRoomy, Chunks, Bounded;
    if Bounded(s) {
      forall chunks | Chunks(chunks) && Concat(chunks) == s
        ensures AlwaysRoomy([], chunks)
      {
        assert [] + Concat(chunks) == s;
        BoundedRoomy([], chunks);
      }
    } else {
      WideIs(s);
      WideOverruns(s);
    }
  }

  /** A stream is read inside the buffer and line by line, however it is received, if and only if it is
      framed and bounded. */
  lemma ReadRightIff(s: Text)
    requires NoNul(s)
    ensures (forall chunks :: Chunks(chunks) && Concat(chunks) == s ==>
              AlwaysRoomy([], chunks) && Handed([], chunks) == Lines(s))
        <==> Framed(Lines(s), Rest(s)) && Bounded(s)
  {
    hide HasCommand, Framed, Lines, Rest, Left, ReadLine, Break, AlwaysRoomy, Chunks, Bounded, Handed;
    FramingIff(s);
    if Framed(Lines(s), Rest(s)) {
      RoomIff(s);
    }
  }

  /** In particular lines of at most 3582 bytes, the unfinished last one included, always fit. */
  lemma {:induction false} ShortLinesFit(buf: Text, chunks: seq<Text>)
    requires Chunks(chunks) && AllCommands(Lines(buf + Concat(chunks))) && ShortLines(buf + Concat(chunks))
    requires |buf| < BUFFER_SIZE
    ensures AlwaysRoomy(buf, chunks)
    decreases |buf + Concat(chunks)|
  {
    hide HasCommand, Quits, AllCommands, Left, ReadLine, Roomy, Chunks, Break, AlwaysRoomy, Handed, Framed;
    var s, r := buf + Concat(chunks), ReadLine(buf, chunks);
    ReadLineSplits(buf, chunks);
    ShortRoomy(buf, chunks);
    if Break(s) < |s| {
      LinesMore(s);
      CommandsFrom(r.line, Lines(r.next + Concat(r.chunks)));
      NextFits(buf, chunks, BUFFER_SIZE - 1);
      HandedMore(buf, chunks, r);
      if Quits(r.line) {
        RoomyAlone(r.next);
      } else {
        ShortLinesFit(r.next, r.chunks);
      }
    } else {
      HandedClosed(buf, chunks);
    }
  }

  lemma CommandsFrom(x: Text, a: seq<Text>)
    requires AllCommands([x] + a)
    ensures HasCommand(x) && AllCommands(a)
  {
    hide HasCommand;
    assert ([x] + a)[0] == x;
    assert forall i :: 0 <= i < |a| ==> a[i] == ([x] + a)[i + 1];
  }

  /** No line of the stream, nor what follows the last one, is longer than 3582 bytes. */
  predicate ShortLines(s: Text) {
    Break(s) <= 3582 && (Break(s) < |s| ==> ShortLines(s[Break(s) + 2..]))
  }
}
