/** IRC messages: cutting a line into tokens and the grammar of RFC 2812, section 2.3.1
    (irc/src/message.c). */
module Messages {
  import opened Bytes
  import opened Common

  const LF: byte := 10
  const CR: byte := 13
  const SPACE: byte := 32
  const COLON: byte := 58

  const MAX_LINE := 512
  const MAX_ARGS := 15

  predicate NoNul(s: Text) {
    forall i :: 0 <= i < |s| ==> s[i] != NUL
  }

  predicate NoSpace(s: Text) {
    forall i :: 0 <= i < |s| ==> s[i] != SPACE
  }

  /** The number of leading spaces. */
  function Spaces(s: Text): (n: nat)
    ensures n <= |s| && (n < |s| ==> s[n] != SPACE) && forall i :: 0 <= i < n ==> s[i] == SPACE
  {
    if s != [] && s[0] == SPACE then 1 + Spaces(s[1..]) else 0
  }

  /** The end of the word that starts at position n. */
  function WordEnd(s: Text, n: nat): (k: nat)
    requires n <= |s|
    ensures n <= k <= |s| && (k < |s| ==> s[k] == SPACE) && (forall i :: n <= i < k ==> s[i] != SPACE)
    decreases |s| - n
  {
    if n < |s| && s[n] != SPACE then WordEnd(s, n + 1) else n
  }

  /** What strtok with a space as delimiter gives on a string, and what it leaves for the next call. */
  datatype Cut = Cut(token: Option<Text>, rest: Text)

  function NextToken(s: Text): (c: Cut)
    ensures c.token.Some? ==> c.token.value != [] && NoSpace(c.token.value) && |c.rest| < |s|
  {
    var n := Spaces(s);
    if n == |s| then Cut(None, [])
    else
      var k := WordEnd(s, n);
      Cut(Some(s[n..k]), if k < |s| then s[k + 1..] else [])
  }

  datatype Message = Message(prefix: Option<Text>, cmd: Option<Text>, args: seq<Text>)

  /** The arguments from a token on, at most n of them. */
  function Args(c: Cut, n: nat): (a: seq<Text>)
    ensures |a| <= n
    decreases n
  {
    if n == 0 || c.token.None? then []
    else if c.token.value != [] && c.token.value[0] == COLON then
      [c.token.value[1..] + if c.rest == [] then [] else [SPACE] + c.rest]
    else [c.token.value] + Args(NextToken(c.rest), n - 1)
  }

  function IsPrefix(c: Cut): bool {
    c.token.Some? && c.token.value != [] && c.token.value[0] == COLON
  }

  function Truncated(line: Text): Text {
    if |line| > MAX_LINE then line[..MAX_LINE] else line
  }

  /** What parse_message reads off a line. */
  function Parse(line: Text): Message {
    var first := NextToken(Truncated(line));
    var second := if IsPrefix(first) then NextToken(first.rest) else first;
    Message(if IsPrefix(first) then Some(first.token.value[1..]) else None,
            second.token,
            if second.token.Some? then Args(NextToken(second.rest), MAX_ARGS) else [])
  }

  /** A message as the grammar writes it, with the codes 32 of a space and 58 of a colon; the last
      parameter may contain spaces. */
  datatype Source = Source(prefix: Option<Text>, cmd: Text, middles: seq<Text>, trailing: Option<Text>)
  {
    predicate Valid() {
      && (prefix.Some? ==> NoSpace(prefix.value))
      && Middle(cmd) && (forall i :: 0 <= i < |middles| ==> Middle(middles[i]))
      && |middles| + (if trailing.Some? then 1 else 0) <= 15
    }

    function Params(): seq<Text> {
      middles + if trailing.Some? then [trailing.value] else []
    }
  }

  /** A parameter that is no trailing one: not empty, without spaces, not starting with a colon. */
  predicate Middle(s: Text) {
    s != [] && NoSpace(s) && s[0] != COLON
  }

  function PrintParams(middles: seq<Text>, trailing: Option<Text>): Text {
    if middles != [] then [32] + middles[0] + PrintParams(middles[1..], trailing)
    else if trailing.Some? then [32, 58] + trailing.value
    else []
  }

  function Print(m: Source): Text {
    (if m.prefix.Some? then [58] + m.prefix.value + [32] else []) + m.cmd + PrintParams(m.middles, m.trailing)
  }

  /** The parameter as it comes back: a space that is its last byte and its first one is lost. */
  function Returned(t: Text): Text {
    if t != [] && WordEnd(t, 0) == |t| - 1 then t[..|t| - 1] else t
  }

  lemma {:induction false} WordOf(w: Text, p: Text, n: nat)
    requires NoSpace(w) && (p == [] || p[0] == SPACE) && n <= |w|
    ensures WordEnd(w + p, n) == |w|
    decreases |w| - n
  {
    if n < |w| {
      WordOf(w, p, n + 1);
    }
  }

  lemma TokenOf(w: Text, p: Text)
    requires w != [] && NoSpace(w) && (p == [] || p[0] == SPACE)
    ensures NextToken(w + p) == Cut(Some(w), if p == [] then [] else p[1..])
  {
    hide WordEnd, NoSpace;
    var s := w + p;
    assert s[0] == w[0];
    WordOf(w, p, 0);
    NoLeading(w);
    assert Spaces(s) == 0;
    assert s[0..|w|] == w;
    assert p != [] ==> s[|w| + 1..] == p[1..];
  }

  lemma NoLeading(w: Text)
    requires w != [] && NoSpace(w)
    ensures w[0] != SPACE
  {
  }

  predicate Separated(p: Text) {
    p == [] || p[0] == SPACE
  }

  lemma NoToken()
    ensures NextToken([]) == Cut(None, [])
  {
  }

  /** The arguments that a parameter list reads back as. */
  function ReadBack(middles: seq<Text>, trailing: Option<Text>): seq<Text> {
    middles + if trailing.Some? then [Returned(trailing.value)] else []
  }

  lemma TrailingReads(t: Text, n: nat)
    requires n >= 1
    ensures Args(NextToken([COLON] + t), n) == [Returned(t)]
  {
    hide NextToken;
    var k := WordEnd(t, 0);
    var w, p := [COLON] + t[..k], t[k..];
    assert [COLON] + t == w + p;
    TokenOf(w, p);
    assert w[1..] == t[..k];
    if p == [] {
      assert t[..k] + [] == t;
    } else if p[1..] == [] {
      assert t[..k] + [] == t[..|t| - 1];
    } else {
      assert t[..k] + ([SPACE] + p[1..]) == t;
    }
  }

  lemma {:induction false} ParamsRead(middles: seq<Text>, trailing: Option<Text>, n: nat)
    requires forall i :: 0 <= i < |middles| ==> Middle(middles[i])
    requires |middles| + (if trailing.Some? then 1 else 0) <= n
    requires middles != [] || trailing.Some?
    ensures Separated(PrintParams(middles, trailing)) && PrintParams(middles, trailing) != []
    ensures Args(NextToken(PrintParams(middles, trailing)[1..]), n) == ReadBack(middles, trailing)
    decreases |middles|
  {
    hide NextToken, Returned;
    if middles == [] {
      assert PrintParams(middles, trailing)[1..] == [COLON] + trailing.value;
      TrailingReads(trailing.value, n);
    } else {
      var p := PrintParams(middles[1..], trailing);
      assert PrintParams(middles, trailing)[1..] == middles[0] + p;
      if middles[1..] != [] || trailing.Some? {
        ParamsRead(middles[1..], trailing, n - 1);
      } else {
        NoToken();
      }
      TokenOf(middles[0], p);
      assert ReadBack(middles, trailing) == [middles[0]] + ReadBack(middles[1..], trailing);
    }
  }

  lemma PrintNothing()
    ensures PrintParams([], None) == [] && ReadBack([], None) == []
    ensures Args(Cut(None, []), MAX_ARGS) == []
  {
  }

  /** A printed message of at most 512 bytes parses to what was printed, except for a trailing
      parameter whose only space is its last byte: that space is lost. */
  lemma ParsePrint(m: Source)
    requires m.Valid() && |Print(m)| <= 512
    ensures Parse(Print(m)) == Message(m.prefix, Some(m.cmd), ReadBack(m.middles, m.trailing))
  {
    hide NextToken, PrintParams, Args, ReadBack;
    PrintNothing();
    var p := PrintParams(m.middles, m.trailing);
    var tail := m.cmd + p;
    if m.middles != [] || m.trailing.Some? {
      ParamsRead(m.middles, m.trailing, MAX_ARGS);
    } else {
      NoToken();
    }
    TokenOf(m.cmd, p);
    if m.prefix.Some? {
      var w := [COLON] + m.prefix.value;
      assert Print(m) == w + ([SPACE] + tail);
      TokenOf(w, [SPACE] + tail);
      assert w[1..] == m.prefix.value && ([SPACE] + tail)[1..] == tail;
    } else {
      assert Print(m) == tail;
    }
  }

  /** So the parser inverts the printer if and only if that is not the case. */
  lemma ParseInvertsIff(m: Source)
    requires m.Valid() && |Print(m)| <= 512
    ensures Parse(Print(m)) == Message(m.prefix, Some(m.cmd), m.Params())
            <==> !(m.trailing.Some? && m.trailing.value != [] && WordEnd(m.trailing.value, 0) == |m.trailing.value| - 1)
  {
    ParsePrint(m);
    if m.trailing.Some? {
      var t, r := m.trailing.value, Returned(m.trailing.value);
      assert (m.middles + [t])[|m.middles|] == t && (m.middles + [r])[|m.middles|] == r;
    }
  }

  /** Words with a space in front of each. */
  function Words(ws: seq<Text>): (s: Text)
    ensures ws != [] ==> s != [] && s[0] == 32
  {
    if ws == [] then [] else [32] + ws[0] + Words(ws[1..])
  }

  lemma {:induction false} WordsRead(ws: seq<Text>, n: nat)
    requires (forall i :: 0 <= i < |ws| ==> Middle(ws[i])) && ws != [] && n <= |ws|
    ensures Args(NextToken(Words(ws)[1..]), n) == ws[..n]
    decreases n
  {
    hide NextToken;
    if n > 0 {
      var p := Words(ws[1..]);
      assert Words(ws)[1..] == ws[0] + p;
      TokenOf(ws[0], p);
      if n > 1 {
        WordsRead(ws[1..], n - 1);
        assert ws[..n] == [ws[0]] + ws[1..][..n - 1];
      }
    }
  }

  /** Of more than fifteen parameters the first fifteen are kept. */
  lemma FifteenAreKept(cmd: Text, ws: seq<Text>)
    requires Middle(cmd) && (forall i :: 0 <= i < |ws| ==> Middle(ws[i])) && |ws| >= 15
    requires |cmd + Words(ws)| <= 512
    ensures Parse(cmd + Words(ws)) == Message(None, Some(cmd), ws[..15])
  {
    hide NextToken, Words, Args;
    TokenOf(cmd, Words(ws));
    WordsRead(ws, 15);
  }

  /** Of a longer line the first 512 bytes are read. */
  lemma FirstBytesAreRead(line: Text)
    requires |line| > 512
    ensures Parse(line) == Parse(line[..512]) && Truncated(line) == line[..512]
  {
  }
}
