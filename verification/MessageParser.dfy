/** strtok over a NUL-terminated buffer and parse_message on top of it (irc/src/message.c:28-74). */
module MessageParser {
  import opened Bytes
  import opened Common
  import opened Messages

  /** The length of the C string at the start of a buffer. */
  function Len(s: Text): (n: nat)
    ensures n <= |s| && (n < |s| ==> s[n] == NUL) && NoNul(s[..n])
  {
    if s != [] && s[0] != NUL then 1 + Len(s[1..]) else 0
  }

  function Content(s: Text): (c: Text)
    ensures NoNul(c) && |c| <= |s|
  {
    s[..Len(s)]
  }

  lemma {:induction false} LenIs(s: Text, n: nat)
    requires n < |s| && s[n] == NUL && NoNul(s[..n])
    ensures Len(s) == n && Content(s) == s[..n]
  {
    if n > 0 {
      assert s[0] == s[..n][0];
      assert s[1..][..n - 1] == s[..n][1..];
      LenIs(s[1..], n - 1);
    }
  }

  /** The buffer holds the C string s from position at on. */
  ghost predicate Holds(b: Text, at: nat, s: Text) {
    at + |s| < |b| && b[at..at + |s|] == s && b[at + |s|] == NUL && NoNul(s)
  }

  lemma HoldsSuffix(b: Text, at: nat, s: Text, k: nat)
    requires Holds(b, at, s) && k <= |s|
    ensures Holds(b, at + k, s[k..])
  {
    assert b[at + k..at + |s|] == b[at..at + |s|][k..];
  }

  lemma HoldsAt(b: Text, at: nat, s: Text, k: nat)
    requires Holds(b, at, s) && k <= |s|
    ensures at + k < |b| && b[at + k] == if k < |s| then s[k] else NUL
    ensures k < |s| ==> s[k] != NUL
  {
    assert k < |s| ==> b[at + k] == b[at..at + |s|][k];
  }

  /** A NUL written behind the first k bytes cuts the string there. */
  lemma HoldsCut(b: Text, at: nat, s: Text, k: nat)
    requires Holds(b, at, s) && k <= |s|
    ensures Holds(b[at + k := NUL], at, s[..k])
    ensures k < |s| ==> Holds(b[at + k := NUL], at + k + 1, s[k + 1..])
  {
    var b' := b[at + k := NUL];
    assert b'[at..at + k] == b[at..at + |s|][..k];
    if k < |s| {
      assert b'[at + k + 1..at + |s|] == b[at..at + |s|][k + 1..];
    }
  }

  method SkipSpaces(buf: array<byte>, start: nat, ghost s: Text) returns (i: nat)
    requires Holds(buf[..], start, s)
    ensures i == start + Spaces(s)
  {
    hide Holds;
    i := start;
    HoldsAt(buf[..], start, s, 0);
    while buf[i] == SPACE
      invariant start <= i <= start + |s| && i < buf.Length && buf[i] == (if i - start < |s| then s[i - start] else NUL)
      invariant forall j :: 0 <= j < i - start ==> s[j] == SPACE
      decreases start + |s| - i
    {
      HoldsAt(buf[..], start, s, i + 1 - start);
      i := i + 1;
    }
    SpacesAre(s, i - start);
  }

  method SkipWord(buf: array<byte>, start: nat, n: nat, ghost s: Text) returns (e: nat)
    requires Holds(buf[..], start, s) && n <= |s|
    ensures e == start + WordEnd(s, n)
  {
    hide Holds;
    e := start + n;
    HoldsAt(buf[..], start, s, n);
    while buf[e] != SPACE && buf[e] != NUL
      invariant start + n <= e <= start + |s| && e < buf.Length
      invariant buf[e] == (if e - start < |s| then s[e - start] else NUL) && (e - start < |s| ==> s[e - start] != NUL)
      invariant WordEnd(s, n) == WordEnd(s, e - start)
      decreases start + |s| - e
    {
      HoldsAt(buf[..], start, s, e + 1 - start);
      e := e + 1;
    }
  }

  /** strtok(NULL, " ") with the save pointer at start: the byte behind the token becomes NUL. */
  method Strtok(buf: array<byte>, start: nat, ghost s: Text) returns (token: Option<Text>, save: nat)
    requires Holds(buf[..], start, s)
    modifies buf
    ensures token == NextToken(s).token && Holds(buf[..], save, NextToken(s).rest)
    ensures token.Some? ==> Holds(buf[..], start, s[..Spaces(s) + |token.value|])
    ensures token.None? ==> buf[..] == old(buf[..])
  {
    hide Holds, NextToken, Spaces, WordEnd;
    var i := SkipSpaces(buf, start, s);
    TokenAt(buf[..], start, s);
    if buf[i] == NUL {
      return None, i;
    }
    var e := SkipWord(buf, start, i - start, s);
    token := Some(buf[i..e]);
    if buf[e] == SPACE {
      buf[e] := NUL;
      save := e + 1;
      assert buf[..] == old(buf[..])[e := NUL];
    } else {
      save := e;
    }
  }

  /** The bytes around the first token, before and after the NUL is written behind it. */
  lemma TokenAt(b: Text, at: nat, s: Text)
    requires Holds(b, at, s)
    ensures var i, c := at + Spaces(s), NextToken(s);
            && i < |b|
            && (b[i] == NUL ==> c == Cut(None, []) && Holds(b, i, []))
            && (b[i] != NUL ==>
                  var e := at + WordEnd(s, Spaces(s));
                  && i <= e < |b| && c.token == Some(b[i..e])
                  && (b[e] == SPACE ==> Holds(b[e := NUL], e + 1, c.rest) && Holds(b[e := NUL], at, s[..e - at]))
                  && (b[e] != SPACE ==> Holds(b, e, c.rest) && Holds(b, at, s[..e - at])))
  {
    hide Holds, Spaces, WordEnd;
    var n := Spaces(s);
    HoldsAt(b, at, s, n);
    if n == |s| {
      HoldsSuffix(b, at, s, n);
      assert s[n..] == [];
    } else {
      var k := WordEnd(s, n);
      HoldsAt(b, at, s, k);
      HoldsCut(b, at, s, k);
      HoldsSlice(b, at, s, n, k);
      if k == |s| {
        HoldsSuffix(b, at, s, k);
        assert s[k..] == [] && s[..k] == s;
      }
    }
  }

  lemma HoldsSlice(b: Text, at: nat, s: Text, n: nat, k: nat)
    requires Holds(b, at, s) && n <= k <= |s|
    ensures at + k <= |b| && b[at + n..at + k] == s[n..k]
  {
    SubSlice(b, at, |s|, n, k);
  }

  lemma SubSlice(b: Text, at: nat, len: nat, n: nat, k: nat)
    requires at + len <= |b| && n <= k <= len
    ensures b[at + n..at + k] == b[at..at + len][n..k]
  {
    var x, y := b[at + n..at + k], b[at..at + len][n..k];
    forall i | 0 <= i < k - n
      ensures x[i] == y[i]
    {
      assert x[i] == b[at + n + i];
      assert b[at..at + len][n + i] == b[at + (n + i)];
    }
  }

  lemma {:induction false} SpacesAre(s: Text, n: nat)
    requires n <= |s| && (forall i :: 0 <= i < n ==> s[i] == SPACE) && (n < |s| ==> s[n] != SPACE)
    ensures Spaces(s) == n
  {
    if n > 0 {
      SpacesAre(s[1..], n - 1);
    }
  }

  /** strtok(NULL, ""): all that is left. */
  method Remainder(buf: array<byte>, start: nat, ghost s: Text) returns (rest: Option<Text>, save: nat)
    requires Holds(buf[..], start, s)
    ensures rest == if s == [] then None else Some(s)
    ensures Holds(buf[..], save, [])
  {
    save := start;
    while buf[save] != NUL
      invariant start <= save <= start + |s|
      decreases start + |s| - save
    {
      HoldsAt(buf[..], start, s, save - start);
      save := save + 1;
    }
    HoldsAt(buf[..], start, s, save - start);
    rest := if save == start then None else Some(buf[start..save]);
    HoldsSuffix(buf[..], start, s, |s|);
  }

  /** The arguments: up to fifteen tokens; from one that starts with a colon on, the rest of the line. */
  method ParseArgs(buf: array<byte>, first: Option<Text>, start: nat, ghost s: Text) returns (args: seq<Text>)
    requires Holds(buf[..], start, s)
    modifies buf
    ensures args == Args(Cut(first, s), MAX_ARGS)
  {
    hide Holds, NextToken, Args;
    args := [];
    var token, save := first, start;
    ghost var rest := s;
    for i := 0 to MAX_ARGS
      invariant Holds(buf[..], save, rest)
      invariant args + Args(Cut(token, rest), MAX_ARGS - i) == Args(Cut(first, s), MAX_ARGS)
    {
      ghost var done, n := args, MAX_ARGS - i;
      if token.Some? {
        ArgsStep(token.value, rest, n);
        if token.value != [] && token.value[0] == COLON {
          var more;
          more, save := Remainder(buf, save, rest);
          args := args + [token.value[1..] + if more.Some? then [SPACE] + more.value else []];
          rest := [];
        } else {
          args := args + [token.value];
        }
        Regroup(done, args[|done|], Args(NextToken(rest), n - 1));
        token, save, rest := NextOf(buf, save, rest);
      } else {
        ArgsNone(rest, n);
        ArgsNone(rest, n - 1);
      }
    }
    ArgsDone(Cut(token, rest));
  }

  lemma ArgsDone(c: Cut)
    ensures Args(c, 0) == []
  {
  }

  lemma ArgsNone(rest: Text, n: nat)
    ensures Args(Cut(None, rest), n) == []
  {
  }

  lemma ArgsStep(token: Text, rest: Text, n: nat)
    requires n > 0
    ensures Args(Cut(Some(token), rest), n) ==
            if token != [] && token[0] == COLON
            then [token[1..] + if rest == [] then [] else [SPACE] + rest] + Args(NextToken([]), n - 1)
            else [token] + Args(NextToken(rest), n - 1)
  {
    EndToken();
  }

  lemma Regroup(a: seq<Text>, x: Text, b: seq<Text>)
    ensures a + ([x] + b) == a + [x] + b
  {
  }

  lemma EndToken()
    ensures NextToken([]) == Cut(None, [])
  {
  }

  method NextOf(buf: array<byte>, start: nat, ghost s: Text) returns (token: Option<Text>, save: nat, ghost rest: Text)
    requires Holds(buf[..], start, s)
    modifies buf
    ensures Cut(token, rest) == NextToken(s) && Holds(buf[..], save, rest)
    ensures token.Some? ==> Holds(buf[..], start, s[..Spaces(s) + |token.value|])
    ensures token.None? ==> buf[..] == old(buf[..])
  {
    hide Holds, NextToken;
    token, save := Strtok(buf, start, s);
    rest := NextToken(s).rest;
  }

  lemma HoldsContent(b: Text, s: Text)
    requires Holds(b, 0, s)
    ensures Len(b) == |s| < |b| && Content(b) == s
  {
    LenIs(b, |s|);
  }

  lemma ContentHolds(b: Text)
    requires Len(b) < |b|
    ensures Holds(b, 0, Content(b))
  {
  }

  /** The string that a line without a command leaves in its buffer: strtok has cut it behind the
      first token. */
  function Left(line: Text): Text {
    var u := Truncated(line);
    var c := NextToken(u);
    if c.token.None? then u else u[..Spaces(u) + |c.token.value|]
  }

  method Truncate(buf: array<byte>)
    requires Len(buf[..]) < buf.Length
    modifies buf
    ensures Holds(buf[..], 0, Truncated(Content(old(buf[..]))))
  {
    ghost var b := buf[..];
    ContentHolds(b);
    var n := Length(buf);
    if n > MAX_LINE {
      HoldsCut(b, 0, Content(b), MAX_LINE);
      buf[MAX_LINE] := NUL;
      assert buf[..] == b[MAX_LINE := NUL];
    }
  }

  /** strlen */
  method Length(buf: array<byte>) returns (n: nat)
    requires Len(buf[..]) < buf.Length
    ensures n == Len(buf[..])
  {
    n := 0;
    while buf[n] != NUL
      invariant 0 <= n <= Len(buf[..])
      decreases buf.Length - n
    {
      n := n + 1;
    }
  }

  /** parse_message: what it reads off the line, and what it leaves in the buffer when there is no
      command. */
  method ParseMessage(buf: array<byte>) returns (msg: Message)
    requires Len(buf[..]) < buf.Length
    modifies buf
    ensures msg == Parse(Content(old(buf[..])))
    ensures msg.cmd.None? ==> Holds(buf[..], 0, Left(Content(old(buf[..]))))
  {
    hide Holds, NextToken, Args, Content, Len, Truncated;
    ghost var u := Truncated(Content(buf[..]));
    Truncate(buf);
    var prefix, cmd, args := None, None, [];
    var token, save, rest := NextOf(buf, 0, u);
    ghost var first := Cut(token, rest);
    if token.Some? && token.value != [] && token.value[0] == COLON {
      prefix := Some(token.value[1..]);
      token, save, rest := NextOf(buf, save, rest);
    }
    if token.Some? {
      cmd := token;
      token, save, rest := NextOf(buf, save, rest);
      args := ParseArgs(buf, token, save, rest);
    }
    msg := Message(prefix, cmd, args);
  }
}
