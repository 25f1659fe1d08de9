/** chidb_tokenize: the first pass puts a NUL behind every token and counts, the second finds the
    tokens again in the cut buffer (db/src/libchidb/util.c:227-283). */
module Tokenizer {
  import opened Bytes
  import opened Common

  const QUOTE: byte := 34

  /** isspace in the C locale */
  predicate Blank(c: byte) { c == 32 || 9 <= c <= 13 }

  function SkipBlank(s: Text, i: nat): (a: nat)
    requires i <= |s|
    ensures i <= a <= |s| && (forall j :: i <= j < a ==> Blank(s[j])) && (a < |s| ==> !Blank(s[a]))
    decreases |s| - i
  {
    if i < |s| && Blank(s[i]) then SkipBlank(s, i + 1) else i
  }

  /** The end of the token that starts at position a, and the place of its first byte. */
  function EndFrom(s: Text, quoted: bool, i: nat): (e: nat)
    requires i <= |s|
    ensures i <= e <= |s| && (forall j :: i <= j < e ==> !Stops(s[j], quoted)) && (e < |s| ==> Stops(s[e], quoted))
    decreases |s| - i
  {
    if i < |s| && !Stops(s[i], quoted) then EndFrom(s, quoted, i + 1) else i
  }

  predicate Stops(c: byte, quoted: bool) {
    if quoted then c == QUOTE else Blank(c)
  }

  datatype Span = Span(from: nat, to: nat)

  /** The token at or behind position a, which is not blank. */
  function SpanAt(s: Text, a: nat): (t: Span)
    requires a < |s| && !Blank(s[a])
    ensures a <= t.from <= t.to <= |s| && a < t.to
  {
    if s[a] == QUOTE then Span(a + 1, EndFrom(s, true, a + 1)) else Span(a, EndFrom(s, false, a))
  }

  /** The tokens of a line, read from the front: a word up to the next blank, or what stands between
      two quotes; an open quote runs to the end. */
  function Tokens(s: Text): seq<Text>
    decreases |s|
  {
    if s == [] then []
    else if Blank(s[0]) then Tokens(s[1..])
    else
      var quoted := s[0] == QUOTE;
      var u := if quoted then s[1..] else s;
      var n := Until(u, quoted);
      [u[..n]] + if n < |u| then Tokens(u[n + 1..]) else []
  }

  function Until(s: Text, quoted: bool): (n: nat)
    ensures n <= |s|
  {
    if s == [] || Stops(s[0], quoted) then 0 else 1 + Until(s[1..], quoted)
  }

  lemma TokensOf(u: Text, v: Text, n: nat)
    requires u != [] && !Blank(u[0]) && v == (if u[0] == QUOTE then u[1..] else u) && n == Until(v, u[0] == QUOTE)
    ensures n <= |v| && Tokens(u) == [v[..n]] + if n < |v| then Tokens(v[n + 1..]) else []
  {
  }

  lemma {:induction false} UntilIs(t: Text, rest: Text, quoted: bool)
    requires (forall i :: 0 <= i < |t| ==> !Stops(t[i], quoted)) && (rest == [] || Stops(rest[0], quoted))
    ensures Until(t + rest, quoted) == |t|
  {
    if t == [] {
      assert t + rest == rest;
    } else {
      assert (t + rest)[1..] == t[1..] + rest;
      UntilIs(t[1..], rest, quoted);
    }
  }

  /** A token between two quotes is what stands there, blanks included; an open quote runs to the end. */
  lemma QuotedToken(t: Text, rest: Text)
    requires forall i :: 0 <= i < |t| ==> t[i] != 34
    ensures Tokens([34] + t + [34] + rest) == [t] + Tokens(rest)
    ensures Tokens([34] + t) == [t]
  {
    hide Tokens, Until;
    var s, more := [34] + t + [34] + rest, [34] + rest;
    assert s[1..] == t + more;
    UntilIs(t, more, true);
    TokensOf(s, t + more, |t|);
    assert (t + more)[..|t|] == t && (t + more)[|t| + 1..] == rest;
    assert ([34] + t)[1..] == t && t + [] == t && t[..|t|] == t;
    UntilIs(t, [], true);
    TokensOf([34] + t, t, |t|);
  }

  /** A word ends before the next space, tab, line feed, vertical tab, form feed or carriage return. */
  lemma WordToken(t: Text, b: byte, rest: Text)
    requires t != [] && t[0] != 34 && forall i :: 0 <= i < |t| ==> t[i] !in {9, 10, 11, 12, 13, 32}
    requires b in {9, 10, 11, 12, 13, 32}
    ensures Tokens(t + [b] + rest) == [t] + Tokens(rest)
    ensures Tokens(t) == [t]
  {
    hide Tokens, Until;
    var more := [b] + rest;
    assert t + [b] + rest == t + more;
    UntilIs(t, more, false);
    TokensOf(t + more, t + more, |t|);
    assert (t + more)[..|t|] == t && (t + more)[|t| + 1..] == rest;
    assert t + [] == t && t[..|t|] == t;
    UntilIs(t, [], false);
    TokensOf(t, t, |t|);
  }

  /** Blanks between tokens are skipped. */
  lemma BlankSkipped(b: byte, rest: Text)
    requires b in {9, 10, 11, 12, 13, 32}
    ensures Tokens([b] + rest) == Tokens(rest) && Tokens([]) == []
  {
    assert ([b] + rest)[1..] == rest;
  }

  /** A token starts at position a, or nothing is left. */
  predicate AtToken(s: Text, a: nat) {
    a <= |s| && (a < |s| ==> !Blank(s[a]))
  }

  /** Where the next token starts behind one that ends at e. */
  function Next(s: Text, e: nat): (a: nat)
    requires e <= |s|
    ensures AtToken(s, a) && (e < |s| ==> e < a) && (e == |s| ==> a == e)
  {
    if e < |s| then SkipBlank(s, e + 1) else e
  }

  /** The tokens from position a on: words, and what stands between quotes. */
  function Spans(s: Text, a: nat): seq<Span>
    requires AtToken(s, a)
    decreases |s| - a
  {
    if a == |s| then [] else [SpanAt(s, a)] + Spans(s, Next(s, SpanAt(s, a).to))
  }

  /** Where the first pass puts its NULs. */
  function Ends(s: Text, a: nat): set<nat>
    requires AtToken(s, a)
    decreases |s| - a
  {
    if a == |s| then {}
    else
      var e := SpanAt(s, a).to;
      (if e < |s| then {e} else {}) + Ends(s, Next(s, e))
  }

  lemma {:induction false} EndsBehind(s: Text, a: nat)
    requires AtToken(s, a)
    ensures forall e: nat :: e in Ends(s, a) ==> a < e < |s|
    decreases |s| - a
  {
    hide Next;
    if a < |s| {
      EndsBehind(s, Next(s, SpanAt(s, a).to));
    }
  }

  /** One token: where it ends, and what is left to do. */
  lemma TokenStep(s: Text, a: nat)
    requires AtToken(s, a) && a < |s|
    ensures var quoted := s[a] == QUOTE;
            var from := if quoted then a + 1 else a;
            var e := EndFrom(s, quoted, from);
            var b := Next(s, e);
            && a < e && Spans(s, a) == [Span(from, e)] + Spans(s, b)
            && Ends(s, a) == (if e < |s| then {e} else {}) + Ends(s, b)
            && (forall j: nat :: j in Ends(s, b) ==> b < j < |s|)
  {
    EndsBehind(s, Next(s, SpanAt(s, a).to));
  }

  lemma NoMore(s: Text)
    ensures Spans(s, |s|) == [] && Ends(s, |s|) == {}
  {
  }

  /** s with NULs at these places and behind it. */
  ghost predicate Marked(s: Text, b: Text, ends: set<nat>) {
    |s| + 1 < |b| && b[|s|] == NUL
    && forall j :: 0 <= j < |s| ==> b[j] == if j in ends then NUL else s[j]
  }

  lemma MarkedAt(s: Text, b: Text, ends: set<nat>, j: nat)
    requires Marked(s, b, ends) && j <= |s| && Printable(s) && j !in ends
    ensures |s| + 1 < |b| && b[j] == (if j < |s| then s[j] else NUL) && (b[j] == NUL <==> j == |s|)
  {
  }

  lemma MarkOne(s: Text, b: Text, ends: set<nat>, e: nat)
    requires Marked(s, b, ends) && e < |s|
    ensures Marked(s, b[e := NUL], ends + {e})
  {
  }

  predicate Printable(s: Text) {
    forall i :: 0 <= i < |s| ==> s[i] != NUL
  }

  /** Blanks are skipped; one behind the terminator the walk must end at once. */
  method SkipBlanks(buf: array<byte>, i: nat, ghost s: Text, ghost ends: set<nat>) returns (a: nat)
    requires Printable(s) && i <= |s| + 1 && Marked(s, buf[..], ends)
    requires i <= |s| ==> forall j :: i <= j <= SkipBlank(s, i) ==> j !in ends
    requires i == |s| + 1 ==> buf[i] == NUL || !Blank(buf[i])
    ensures a == if i <= |s| then SkipBlank(s, i) else i
  {
    a := i;
    while buf[a] != NUL && Blank(buf[a])
      invariant i <= |s| ==> i <= a <= SkipBlank(s, i)
      invariant i > |s| ==> a == i
      decreases |s| - a
    {
      a := a + 1;
    }
  }

  method FindEnd(buf: array<byte>, i: nat, quoted: bool, ghost s: Text, ghost ends: set<nat>) returns (e: nat)
    requires Printable(s) && i <= |s| && Marked(s, buf[..], ends)
        && forall j :: i <= j < EndFrom(s, quoted, i) ==> j !in ends
    ensures e == EndFrom(s, quoted, i)
  {
    e := i;
    while buf[e] != NUL && !Stops(buf[e], quoted)
      invariant i <= e <= EndFrom(s, quoted, i)
      decreases |s| - e
    {
      e := e + 1;
    }
  }

  /** The first token starts behind the leading blanks. */
  function First(s: Text): (a: nat)
    ensures AtToken(s, a)
  {
    SkipBlank(s, 0)
  }

  /** The end of the token at position a. */
  function EndAt(s: Text, a: nat): (e: nat)
    requires AtToken(s, a) && a < |s|
    ensures a < e <= |s|
  {
    SpanAt(s, a).to
  }

  /** One token is closed with a NUL, and the blanks behind it are skipped. */
  method CutOne(buf: array<byte>, i: nat, ghost s: Text, ghost ends: set<nat>)
    returns (next: nat, ghost more: set<nat>)
    requires AtToken(s, i) && i < |s| && Printable(s)
    requires Marked(s, buf[..], ends) && forall j: nat :: j in ends ==> j < i
    modifies buf
    ensures next == Next(s, EndAt(s, i)) && Marked(s, buf[..], more) && buf[|s| + 1] == old(buf[|s| + 1])
    ensures more == ends + if EndAt(s, i) < |s| then {EndAt(s, i)} else {}
  {
    MarkedAt(s, buf[..], ends, i);
    var quoted := buf[i] == QUOTE;
    var e := FindEnd(buf, if quoted then i + 1 else i, quoted, s, ends);
    MarkedAt(s, buf[..], ends, e);
    next, more := e, ends;
    if buf[e] != NUL {
      MarkOne(s, buf[..], ends, e);
      ghost var b := buf[..];
      buf[e] := NUL;
      assert buf[..] == b[e := NUL];
      more := ends + {e};
      next := SkipBlanks(buf, e + 1, s, more);
    }
  }

  /** The first pass. */
  method CutTokens(buf: array<byte>, ghost s: Text) returns (ntokens: nat)
    requires Printable(s) && Marked(s, buf[..], {})
    modifies buf
    ensures ntokens == |Spans(s, First(s))| && Marked(s, buf[..], Ends(s, First(s)))
    ensures buf[|s| + 1] == old(buf[|s| + 1])
  {
    hide Spans, Ends, EndFrom, Marked, Printable;
    ntokens := 0;
    ghost var ends: set<nat> := {};
    NoMore(s);
    var i: nat := SkipBlanks(buf, 0, s, ends);
    MarkedAt(s, buf[..], ends, i);
    while buf[i] != NUL
      invariant AtToken(s, i) && Marked(s, buf[..], ends) && (forall j: nat :: j in ends ==> j < i)
      invariant i < buf.Length && (buf[i] == NUL <==> i == |s|)
      invariant ends + Ends(s, i) == Ends(s, First(s)) && ntokens + |Spans(s, i)| == |Spans(s, First(s))|
      invariant |s| + 1 < buf.Length && buf[|s| + 1] == old(buf[|s| + 1])
      decreases |s| - i
    {
      ntokens := ntokens + 1;
      TokenStep(s, i);
      i, ends := CutOne(buf, i, s, ends);
      MarkedAt(s, buf[..], ends, i);
    }
  }

  /** The second pass.  Behind the last token it looks one byte past the terminator. */
  method FindTokens(buf: array<byte>, ntokens: nat, ghost s: Text) returns (starts: seq<nat>)
    requires Printable(s) && Marked(s, buf[..], Ends(s, First(s))) && ntokens == |Spans(s, First(s))|
    requires buf[|s| + 1] == NUL || !Blank(buf[|s| + 1])
    ensures |starts| == ntokens && forall k :: 0 <= k < ntokens ==> starts[k] == Spans(s, First(s))[k].from
  {
    hide Spans, Ends, EndFrom, Marked, Printable;
    ghost var all, ends := Spans(s, First(s)), Ends(s, First(s));
    EndsBehind(s, First(s));
    NoMore(s);
    starts := [];
    var i: nat := SkipBlanks(buf, 0, s, ends);
    for k := 0 to ntokens
      invariant |starts| == k && forall j :: 0 <= j < k ==> starts[j] == all[j].from
      invariant k < ntokens ==> AtToken(s, i) && all[k..] == Spans(s, i)
      invariant k < ntokens ==> forall j: nat :: i <= j ==> (j in ends <==> j in Ends(s, i))
    {
      TokenStep(s, i);
      Rest(all, k, Spans(s, i));
      MarkedAt(s, buf[..], ends, i);
      var quoted := buf[i] == QUOTE;
      var from := if quoted then i + 1 else i;
      starts := starts + [from];
      var e := FindEnd(buf, from, quoted, s, ends);
      i := SkipBlanks(buf, e + 1, s, ends);
    }
  }

  lemma Rest(all: seq<Span>, k: nat, from: seq<Span>)
    requires k < |all| && all[k..] == from
    ensures all[k] == from[0] && all[k + 1..] == from[1..]
  {
  }

  /** Every token lies between the marks. */
  lemma {:induction false} SpanClear(s: Text, a: nat, k: nat)
    requires AtToken(s, a) && k < |Spans(s, a)|
    ensures var t := Spans(s, a)[k];
            && a <= t.from <= t.to <= |s| && (t.to == |s| || t.to in Ends(s, a))
            && forall j: nat :: t.from <= j < t.to ==> j !in Ends(s, a)
    decreases |s| - a
  {
    hide Spans, Ends, EndFrom, Next;
    if a == |s| {
      NoMore(s);
    } else {
      TokenStep(s, a);
      var e := EndAt(s, a);
      var b := Next(s, e);
      if k > 0 {
        SpanClear(s, b, k - 1);
        assert Spans(s, a)[k] == Spans(s, b)[k - 1];
      }
    }
  }

  lemma {:induction false} UntilEnd(s: Text, i: nat, quoted: bool)
    requires i <= |s|
    ensures Until(s[i..], quoted) + i == EndFrom(s, quoted, i)
    decreases |s| - i
  {
    if i < |s| && !Stops(s[i], quoted) {
      assert s[i..][1..] == s[i + 1..];
      UntilEnd(s, i + 1, quoted);
    }
  }

  lemma {:induction false} TokensSkip(s: Text, i: nat)
    requires i <= |s|
    ensures Tokens(s[i..]) == Tokens(s[SkipBlank(s, i)..])
    decreases |s| - i
  {
    if i < |s| && Blank(s[i]) {
      assert s[i..][1..] == s[i + 1..];
      TokensSkip(s, i + 1);
    }
  }

  predicate Inside(s: Text, spans: seq<Span>) {
    forall k :: 0 <= k < |spans| ==> spans[k].from <= spans[k].to <= |s|
  }

  function Texts(s: Text, spans: seq<Span>): (t: seq<Text>)
    requires Inside(s, spans)
    ensures |t| == |spans|
  {
    seq(|spans|, k requires 0 <= k < |spans| => s[spans[k].from..spans[k].to])
  }

  lemma TextsCons(s: Text, t: Span, rest: seq<Span>)
    requires Inside(s, rest) && t.from <= t.to <= |s|
    ensures Inside(s, [t] + rest) && Texts(s, [t] + rest) == [s[t.from..t.to]] + Texts(s, rest)
  {
  }

  lemma TokensStep(s: Text, a: nat)
    requires AtToken(s, a) && a < |s|
    ensures var t := SpanAt(s, a);
            Tokens(s[a..]) == [s[t.from..t.to]] + Tokens(s[Next(s, t.to)..])
  {
    hide EndFrom, Until, SkipBlank, Tokens;
    var t := SpanAt(s, a);
    var quoted := s[a] == QUOTE;
    UntilEnd(s, t.from, quoted);
    TokensOf(s[a..], s[t.from..], t.to - t.from);
    assert s[a..][1..] == s[a + 1..];
    assert s[t.from..][..t.to - t.from] == s[t.from..t.to];
    if t.to < |s| {
      assert s[t.from..][t.to - t.from + 1..] == s[t.to + 1..];
      TokensSkip(s, t.to + 1);
    } else {
      NoTokens(s);
    }
  }

  /** The spans are the tokens that reading the string from the front gives. */
  lemma {:induction false} SpansAreTokens(s: Text, a: nat)
    requires AtToken(s, a)
    ensures Inside(s, Spans(s, a)) && Texts(s, Spans(s, a)) == Tokens(s[a..])
    decreases |s| - a
  {
    hide Tokens, Next, SpanAt, Texts, Inside;
    if a == |s| {
      NoTokens(s);
      NoTexts(s);
    } else {
      var t := SpanAt(s, a);
      SpansAreTokens(s, Next(s, t.to));
      TokensStep(s, a);
      TextsCons(s, t, Spans(s, Next(s, t.to)));
    }
  }

  lemma NoTexts(s: Text)
    ensures Inside(s, []) && Texts(s, []) == []
  {
  }

  lemma NoTokens(s: Text)
    ensures Tokens(s[|s|..]) == []
  {
  }

  ghost predicate CStringAt(b: Text, at: nat, t: Text) {
    at + |t| < |b| && b[at..at + |t|] == t && b[at + |t|] == NUL
  }

  /** Both passes: the array holds a pointer to every token of the line, each a string of its own. */
  method Tokenize(buf: array<byte>, ghost s: Text) returns (ntokens: nat, starts: seq<nat>)
    requires Printable(s) && Marked(s, buf[..], {})
    requires buf[|s| + 1] == NUL || !Blank(buf[|s| + 1])
    modifies buf
    ensures ntokens == |starts| == |Tokens(s)|
    ensures forall k :: 0 <= k < ntokens ==> CStringAt(buf[..], starts[k], Tokens(s)[k])
  {
    hide Spans, Ends, Tokens, SkipBlank;
    ntokens := CutTokens(buf, s);
    starts := FindTokens(buf, ntokens, s);
    ghost var a := First(s);
    SpansAreTokens(s, a);
    TokensSkip(s, 0);
    assert s[0..] == s;
    forall k | 0 <= k < ntokens
      ensures CStringAt(buf[..], starts[k], Tokens(s)[k])
    {
      SpanClear(s, a, k);
      TokenInBuffer(s, buf[..], Ends(s, a), Spans(s, a)[k]);
      assert Tokens(s)[k] == Texts(s, Spans(s, a))[k];
    }
  }

  lemma TokenInBuffer(s: Text, b: Text, ends: set<nat>, t: Span)
    requires Marked(s, b, ends) && t.from <= t.to <= |s| && (t.to == |s| || t.to in ends)
    requires forall j: nat :: t.from <= j < t.to ==> j !in ends
    ensures CStringAt(b, t.from, s[t.from..t.to])
  {
  }
}
