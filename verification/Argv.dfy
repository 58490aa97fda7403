/** Passing an argument array through one string: `quoteall` of libc/execve.c:6-43 writes it, `tokenize` of
  libc/_YALCmain.c:4-37 takes it apart again. */
module Argv {
  import opened Basics

  const QUOTE := '\''

  ghost predicate CStrings(a: seq<string>) {
    forall i :: 0 <= i < |a| ==> CString(a[i])
  }

  // ------------------------------------------------------------ quoting

  /** Every quote is doubled. */
  function Escaped(x: string): string {
    if x == "" then "" else (if x[0] == QUOTE then [QUOTE, QUOTE] else [x[0]]) + Escaped(x[1..])
  }

  function Piece(x: string): string {
    [' ', QUOTE] + Escaped(x) + [QUOTE]
  }

  function Quoted(a: seq<string>): string {
    if a == [] then "" else Quoted(a[..|a| - 1]) + Piece(a[|a| - 1])
  }

  lemma {:induction false} EscapedSnoc(x: string, c: char)
    ensures Escaped(x + [c]) == Escaped(x) + if c == QUOTE then [QUOTE, QUOTE] else [c]
  {
    if x == "" {
      assert (x + [c])[1..] == "";
    } else {
      EscapedSnoc(x[1..], c);
      assert (x + [c])[1..] == x[1..] + [c];
      var here := if x[0] == QUOTE then [QUOTE, QUOTE] else [x[0]];
      Regroup(here, Escaped(x[1..]), if c == QUOTE then [QUOTE, QUOTE] else [c]);
    }
  }

  /** `qlen`: the escaped length and the two delimiters. */
  method Qlen(s: string) returns (len: nat)
    requires CString(s)
    ensures len == |Escaped(s)| + 2
  {
    len := 2;
    var i := 0;
    while Ch(s, i) != NUL
      invariant 0 <= i <= |s| && len == |Escaped(s[..i])| + 2
      decreases |s| - i
    {
      EscapedSnoc(s[..i], s[i]);
      assert s[..i + 1] == s[..i] + [s[i]];
      if Ch(s, i) == QUOTE {
        len := len + 1;
      }
      len, i := len + 1, i + 1;
    }
    assert s[..i] == s;
  }

  /** `realloc`: the bytes that are kept. */
  method Grow(old': array<char>, used: nat, size: nat) returns (s: array<char>)
    requires used <= old'.Length && used <= size
    ensures fresh(s) && s.Length == size && s[..used] == old'[..used]
  {
    s := new char[size];
    var i := 0;
    while i < used
      invariant 0 <= i <= used && s[..i] == old'[..i]
    {
      s[i] := old'[i];
      i := i + 1;
    }
  }

  method Put(s: array<char>, slen: nat, c: char) returns (n: nat)
    requires slen < s.Length
    modifies s
    ensures n == slen + 1 && s[..n] == old(s[..slen]) + [c]
  {
    s[slen] := c;
    n := slen + 1;
  }

  /** The inner loop of `quoteall`: an argument between its quotes. */
  method WritePiece(x: string, s: array<char>, start: nat) returns (slen: nat)
    requires CString(x) && start + |Piece(x)| < s.Length
    modifies s
    ensures slen == start + |Piece(x)| && s[..slen] == old(s[..start]) + Piece(x)
  {
    ghost var was := s[..start];
    hide Escaped;
    slen := Put(s, start, ' ');
    slen := Put(s, slen, QUOTE);
    var i := 0;
    NothingEscaped(x[..0]);
    while Ch(x, i) != NUL
      invariant 0 <= i <= |x| && slen == start + 2 + |Escaped(x[..i])|
      invariant |Escaped(x[..i])| <= |Escaped(x)|
      invariant s[..slen] == was + ([' ', QUOTE] + Escaped(x[..i]))
      decreases |x| - i
    {
      EscapedSnoc(x[..i], x[i]);
      assert x[..i + 1] == x[..i] + [x[i]];
      EscapedMonotone(x, i + 1);
      if Ch(x, i) == QUOTE {
        slen := Put(s, slen, Ch(x, i));
      }
      slen := Put(s, slen, Ch(x, i));
      i := i + 1;
    }
    assert x[..i] == x;
    slen := Put(s, slen, QUOTE);
  }

  lemma NothingEscaped(x: string)
    requires x == ""
    ensures Escaped(x) == ""
  {
  }

  lemma {:induction false} EscapedMonotone(x: string, n: nat)
    requires n <= |x|
    ensures |Escaped(x[..n])| <= |Escaped(x)|
    decreases |x| - n
  {
    if n < |x| {
      EscapedSnoc(x[..n], x[n]);
      assert x[..n + 1] == x[..n] + [x[n]];
      EscapedMonotone(x, n + 1);
    } else {
      assert x[..n] == x;
    }
  }

  /** `quoteall`: the buffer holds the quoted array and its terminator, and nothing of it is left unused. */
  method QuoteAll(a: seq<string>) returns (s: array<char>)
    requires CStrings(a)
    ensures s.Length == |Quoted(a)| + 1 && s[..] == Quoted(a) + [NUL]
  {
    s := new char[0];
    var slen, k := 0, 0;
    while k < |a|
      invariant 0 <= k <= |a| && slen == |Quoted(a[..k])| && slen <= s.Length && s[..slen] == Quoted(a[..k])
      invariant k > 0 ==> s.Length == slen + 1 && s[slen] == NUL
      invariant fresh(s)
    {
      var x := a[k];
      var q := Qlen(x);
      assert a[..k + 1][..k] == a[..k];
      s := Grow(s, slen, slen + q + 2);
      slen := WritePiece(x, s, slen);
      s[slen] := NUL;
      k := k + 1;
    }
    assert a[..k] == a;
    if k == 0 {
      s := new char[1];
      s[0] := NUL;
    }
  }

  // ------------------------------------------------------------ taking the string apart

  predicate Space(c: char) {
    c == ' ' || c == '\t' || c == '\n' || c == '\r'
  }

  function Skip(s: string): (t: string)
    ensures |t| <= |s|
  {
    if s != "" && Space(s[0]) then Skip(s[1..]) else s
  }

  /** The length of a token: up to a quote that is not doubled. */
  function Span(s: string): (n: nat)
    ensures n <= |s|
  {
    if s == "" then 0
    else if s[0] == QUOTE then (if |s| > 1 && s[1] == QUOTE then 2 + Span(s[2..]) else 0)
    else 1 + Span(s[1..])
  }

  /** What the copying loop makes of a token. */
  function Unescaped(t: string): string {
    if t == "" then ""
    else if t[0] == QUOTE then (if |t| > 1 then [t[1]] + Unescaped(t[2..]) else "")
    else [t[0]] + Unescaped(t[1..])
  }

  function Tail(s: string, n: nat): string {
    if n < |s| then s[n..] else ""
  }

  function Body(s: string): (t: string)
    requires s != ""
    ensures |t| < |s|
  {
    Tail(Skip(s), 1)
  }

  /** The tokens of a string: blanks, one character that opens, the token, one that closes. */
  function Tokens(s: string): seq<string>
    decreases |s|
  {
    if s == "" then []
    else
      var body := Body(s);
      [Unescaped(body[..Span(body)])] + Tokens(Tail(body, Span(body) + 1))
  }

  // ------------------------------------------------------------ the round trip

  lemma {:induction false} SpanEscaped(x: string, rest: string)
    requires rest != "" && rest[0] == QUOTE && (|rest| > 1 ==> rest[1] != QUOTE)
    ensures Span(Escaped(x) + rest) == |Escaped(x)|
  {
    var s := Escaped(x) + rest;
    if x == "" {
      assert s == rest;
    } else {
      SpanEscaped(x[1..], rest);
      if x[0] == QUOTE {
        assert s[2..] == Escaped(x[1..]) + rest;
      } else {
        assert s[1..] == Escaped(x[1..]) + rest;
      }
    }
  }

  lemma {:induction false} UnescapeEscaped(x: string)
    ensures Unescaped(Escaped(x)) == x
  {
    if x != "" {
      UnescapeEscaped(x[1..]);
      var t := Escaped(x);
      if x[0] == QUOTE {
        assert t[2..] == Escaped(x[1..]);
      } else {
        assert t[1..] == Escaped(x[1..]);
      }
    }
  }

  lemma PieceBody(x: string, rest: string)
    ensures Piece(x) + rest != "" && Body(Piece(x) + rest) == Escaped(x) + ([QUOTE] + rest)
  {
    hide Escaped;
    var s := Piece(x) + rest;
    assert s[0] == ' ' && s[1] == QUOTE && !Space(s[1]);
    assert s[1..][1..] == s[2..] == Escaped(x) + ([QUOTE] + rest);
    SkipOne(s);
  }

  lemma SkipOne(s: string)
    requires |s| > 1 && Space(s[0]) && !Space(s[1])
    ensures Body(s) == s[1..][1..]
  {
    assert Skip(s) == Skip(s[1..]);
  }

  lemma TokensStep(s: string)
    requires s != ""
    ensures var body := Body(s); Tokens(s) == [Unescaped(body[..Span(body)])] + Tokens(Tail(body, Span(body) + 1))
  {
  }

  lemma FirstToken(x: string, rest: string)
    requires rest == "" || rest[0] != QUOTE
    ensures Tokens(Piece(x) + rest) == [x] + Tokens(rest)
  {
    hide Piece, Body, Escaped, Unescaped, Span, Tokens, Tail;
    PieceBody(x, rest);
    TokensStep(Piece(x) + rest);
    var end := [QUOTE] + rest;
    var body := Escaped(x) + end;
    SpanEscaped(x, end);
    assert body[..|Escaped(x)|] == Escaped(x);
    UnescapeEscaped(x);
    TailAfter(Escaped(x), rest);
  }

  lemma TailAfter(e: string, rest: string)
    ensures Tail(e + ([QUOTE] + rest), |e| + 1) == rest
  {
    var s := e + ([QUOTE] + rest);
    if rest != "" {
      assert s[|e| + 1..] == rest;
    }
  }

  lemma {:induction false} TokensAfter(a: seq<string>, rest: string)
    requires rest == "" || rest[0] != QUOTE
    ensures Tokens(Quoted(a) + rest) == a + Tokens(rest)
    decreases |a|
  {
    hide Tokens, Piece;
    if a == [] {
      assert Quoted(a) + rest == rest;
    } else {
      var front, x := a[..|a| - 1], a[|a| - 1];
      Regroup(Quoted(front), Piece(x), rest);
      StartsBlank(x, rest);
      TokensAfter(front, Piece(x) + rest);
      FirstToken(x, rest);
      assert front + ([x] + Tokens(rest)) == a + Tokens(rest);
    }
  }

  lemma StartsBlank(x: string, rest: string)
    ensures Piece(x) + rest != "" && (Piece(x) + rest)[0] == ' '
  {
  }

  /** Whatever the arguments are made of, empty ones and quotes included, they come back. */
  lemma TokensOfQuoted(a: seq<string>)
    ensures Tokens(Quoted(a)) == a
  {
    TokensAfter(a, "");
    assert Quoted(a) + "" == Quoted(a) && a + [] == a;
  }

  /** Blanks, tabs and line ends. */
  predicate Blank(c: char) {
    c == ' ' || c == '\t' || c as int == 10 || c as int == 13
  }

  ghost predicate AllBlank(s: string) {
    forall i :: 0 <= i < |s| ==> Blank(s[i])
  }

  /** Quoted arguments with any blanks in front of each. */
  function Spaced(bs: seq<string>, a: seq<string>): string
    requires |bs| == |a|
  {
    if a == [] then "" else bs[0] + ([QUOTE] + (Escaped(a[0]) + ([QUOTE] + Spaced(bs[1..], a[1..]))))
  }

  lemma {:induction false} SkipBlank(b: string, s: string)
    requires AllBlank(b) && (s == "" || !Blank(s[0]))
    ensures Skip(b + s) == s
  {
    if b == "" {
      assert b + s == s;
    } else {
      assert (b + s)[1..] == b[1..] + s && (b + s)[0] == b[0] && Blank(b[0]);
      SkipBlank(b[1..], s);
    }
  }

  /** The argument that blanks behind the last one make. */
  function Extra(behind: string): seq<string> {
    if behind == "" then [] else [""]
  }

  /** However the arguments are spaced, they come back; but blanks behind the last one make an empty argument more. */
  lemma {:induction false} TokensOfSpaced(bs: seq<string>, a: seq<string>, behind: string)
    requires |bs| == |a| && AllBlank(behind) && forall i :: 0 <= i < |bs| ==> AllBlank(bs[i]) && (i > 0 ==> bs[i] != "")
    ensures Tokens(Spaced(bs, a) + behind) == a + Extra(behind)
    decreases |a|
  {
    hide Escaped, Tokens;
    if a == [] {
      assert Spaced(bs, a) + behind == behind;
      OnlyBlanks(behind);
      assert a + Extra(behind) == Extra(behind);
    } else {
      var rest := Spaced(bs[1..], a[1..]) + behind;
      TokensOfSpaced(bs[1..], a[1..], behind);
      RestBegins(bs[1..], a[1..], behind);
      SpacedToken(bs[0], a[0], rest);
      assert Spaced(bs, a) + behind == bs[0] + ([QUOTE] + (Escaped(a[0]) + ([QUOTE] + rest)));
      assert [a[0]] + (a[1..] + Extra(behind)) == a + Extra(behind);
    }
  }

  lemma OnlyBlanks(b: string)
    requires AllBlank(b)
    ensures Tokens(b) == Extra(b)
  {
    hide Skip;
    if b != "" {
      assert b + "" == b;
      SkipBlank(b, "");
      NothingLeft(b);
    }
  }

  lemma NothingLeft(s: string)
    requires s != "" && Skip(s) == ""
    ensures Tokens(s) == [""]
  {
    assert Body(s) == "" && Span("") == 0 && Unescaped("") == "" && Tail("", 1) == "";
    assert ""[..0] == "";
  }

  lemma RestBegins(bs: seq<string>, a: seq<string>, behind: string)
    requires |bs| == |a| && AllBlank(behind) && forall i :: 0 <= i < |bs| ==> AllBlank(bs[i]) && bs[i] != ""
    ensures var rest := Spaced(bs, a) + behind; rest == "" || rest[0] != QUOTE
  {
    if a != [] {
      assert Blank(bs[0][0]) && (Spaced(bs, a) + behind)[0] == bs[0][0];
    }
  }

  lemma SpacedToken(b: string, x: string, rest: string)
    requires AllBlank(b) && (rest == "" || rest[0] != QUOTE)
    ensures Tokens(b + ([QUOTE] + (Escaped(x) + ([QUOTE] + rest)))) == [x] + Tokens(rest)
  {
    hide Escaped, Unescaped, Span, Tail, Tokens, Skip;
    var end := [QUOTE] + rest;
    var body := Escaped(x) + end;
    var s := b + ([QUOTE] + body);
    assert s != "";
    SkipBlank(b, [QUOTE] + body);
    assert ([QUOTE] + body)[1..] == body;
    assert Body(s) == body by { BodyIs(s, body); }
    TokensStep(s);
    SpanEscaped(x, end);
    assert body[..|Escaped(x)|] == Escaped(x);
    UnescapeEscaped(x);
    TailAfter(Escaped(x), rest);
  }

  lemma BodyIs(s: string, body: string)
    requires s != "" && Skip(s) == [QUOTE] + body && body != ""
    ensures Body(s) == body
  {
    assert ([QUOTE] + body)[1..] == body;
  }

  // ------------------------------------------------------------ the tokenizer's own loops

  /** Quotes come in pairs, as the scan leaves them. */
  predicate Paired(t: string) {
    t == "" || (if t[0] == QUOTE then |t| > 1 && t[1] == QUOTE && Paired(t[2..]) else Paired(t[1..]))
  }

  lemma {:induction false} SpanPaired(s: string)
    ensures Paired(s[..Span(s)])
  {
    var n := Span(s);
    if n > 0 {
      if s[0] == QUOTE {
        SpanPaired(s[2..]);
        assert s[..n][2..] == s[2..][..n - 2];
      } else {
        SpanPaired(s[1..]);
        assert s[..n][1..] == s[1..][..n - 1];
      }
    }
  }

  /** The scan for the end of a token, from index `bt`. */
  method FindEnd(s: string, bt: nat) returns (et: nat)
    requires bt <= |s| && CString(s)
    ensures et == bt + Span(s[bt..])
  {
    et := bt;
    while Ch(s, et) != NUL
      invariant bt <= et <= |s| && et + Span(s[et..]) == bt + Span(s[bt..])
      decreases |s| - et
    {
      if Ch(s, et) == QUOTE {
        if Ch(s, et + 1) == QUOTE {
          assert s[et..][2..] == s[et + 2..];
          et := et + 1;
        } else {
          return;
        }
      } else {
        assert s[et..][1..] == s[et + 1..];
      }
      et := et + 1;
    }
  }

  /** A buffer holds a C string. */
  ghost predicate Holds(b: array<char>, x: string)
    reads b
  {
    |x| < b.Length && b[..|x|] == x && b[|x|] == NUL
  }

  /** Every string in an array of its own. */
  ghost predicate AllHold(a: seq<array<char>>, xs: seq<string>)
    reads a
  {
    && |a| == |xs|
    && (forall i :: 0 <= i < |a| ==> Holds(a[i], xs[i]))
    && (forall i, j :: 0 <= i < j < |a| ==> a[i] != a[j])
  }

  /** The copying loop: the token without its doubling, and the terminator.  The buffer is what malloc gives for as many
      bytes as the token has between its quotes, with the one byte behind them, which is in the block's slack
      (`Payloads.OneByteBehind`); the terminator goes there iff no quote was doubled. */
  method CopyToken(s: string, bt: nat, et: nat) returns (to: array<char>)
    requires bt <= et <= |s| && Paired(s[bt..et])
    ensures fresh(to) && to.Length == et - bt + 1 && Holds(to, Unescaped(s[bt..et]))
    ensures |Unescaped(s[bt..et])| == et - bt <==> QUOTE !in s[bt..et]
  {
    hide Unescaped, Paired;
    PairedFits(s[bt..et]);
    to := new char[et - bt + 1];
    var b, n := bt, 0;
    ghost var done := "";
    while b != et
      invariant bt <= b <= et && Paired(s[b..et]) && n <= b - bt && done == to[..n]
      invariant done + Unescaped(s[b..et]) == Unescaped(s[bt..et])
      decreases et - b
    {
      UnescapeAt(s, b, et, done);
      if s[b] == QUOTE {
        b := b + 1;
      }
      n := Put(to, n, s[b]);
      done := done + [s[b]];
      b := b + 1;
    }
    UnescapeNothing(s[b..et]);
    to[n] := NUL;
  }

  lemma UnescapeAt(s: string, b: nat, et: nat, done: string)
    requires b < et <= |s| && Paired(s[b..et])
    ensures var next := if s[b] == QUOTE then b + 2 else b + 1;
            && next <= et && Paired(s[next..et])
            && done + Unescaped(s[b..et]) == done + [s[next - 1]] + Unescaped(s[next..et])
  {
    hide Paired, Unescaped;
    UnescapeStep(s[b..et]);
    var next := if s[b] == QUOTE then b + 2 else b + 1;
    assert s[b..et][next - b..] == s[next..et];
    Regroup(done, [s[next - 1]], Unescaped(s[next..et]));
  }

  lemma UnescapeStep(t: string)
    requires t != "" && Paired(t)
    ensures var n := if t[0] == QUOTE then 2 else 1;
            n <= |t| && Paired(t[n..]) && Unescaped(t) == [t[n - 1]] + Unescaped(t[n..])
  {
  }

  lemma UnescapeNothing(t: string)
    requires t == ""
    ensures Unescaped(t) == ""
  {
  }

  /** `tokenize`.  It allocates with the first token, so an empty string makes it terminate the array at null. */
  method Tokenize(s: string) returns (fault: bool, a: seq<array<char>>)
    requires CString(s)
    ensures fault <==> s == ""
    ensures fresh(a) && AllHold(a, Tokens(s))
  {
    hide Tokens, Holds;
    var i := 0;
    a := [];
    ghost var xs: seq<string> := [];
    assert s[0..] == s;
    while Ch(s, i) != NUL
      invariant i <= |s| && xs + Tokens(s[i..]) == Tokens(s) && (a == [] <==> i == 0)
      invariant fresh(a) && AllHold(a, xs)
      decreases |s| - i
    {
      var to, next;
      ghost var x;
      to, next, x := NextToken(s, i);
      Regroup(xs, [x], Tokens(s[next..]));
      a, xs := a + [to], xs + [x];
      i := next;
    }
    NoTokens(s[i..]);
    fault := a == [];
  }

  lemma NoTokens(s: string)
    requires s == ""
    ensures Tokens(s) == []
  {
  }

  /** One turn of the outer loop. */
  method NextToken(s: string, start: nat) returns (to: array<char>, i: nat, ghost x: string)
    requires CString(s) && start < |s|
    ensures start < i <= |s| && Tokens(s[start..]) == [x] + Tokens(s[i..])
    ensures fresh(to) && Holds(to, x)
  {
    hide Span, Unescaped, Paired, Skip, Tokens, Body, Tail, Holds;
    i := SkipBlanks(s, start);
    BodyAt(s, start, i);
    if Ch(s, i) != NUL {
      i := i + 1;
    }
    var bt := i;
    i := FindEnd(s, bt);
    var et := i;
    if Ch(s, i) != NUL {
      i := i + 1;
    }
    SpanPaired(s[bt..]);
    assert s[bt..][..Span(s[bt..])] == s[bt..et];
    to := CopyToken(s, bt, et);
    x := Unescaped(s[bt..et]);
    TokensStep(s[start..]);
    TailAt(s, bt, Span(s[bt..]) + 1);
  }

  lemma TailAt(s: string, bt: nat, n: nat)
    requires bt <= |s|
    ensures Tail(s[bt..], n) == if bt + n < |s| then s[bt + n..] else s[|s|..]
  {
  }

  method SkipBlanks(s: string, start: nat) returns (i: nat)
    requires start < |s| && CString(s)
    ensures start <= i <= |s| && s[i..] == Skip(s[start..])
  {
    i := start;
    while Ch(s, i) != NUL && Space(Ch(s, i))
      invariant start <= i <= |s| && Skip(s[i..]) == Skip(s[start..])
      decreases |s| - i
    {
      assert s[i..][1..] == s[i + 1..];
      i := i + 1;
    }
  }

  lemma BodyAt(s: string, start: nat, j: nat)
    requires start < |s| && start <= j <= |s| && s[j..] == Skip(s[start..])
    ensures var bt := if j < |s| then j + 1 else j;
            s[start..] != "" && s[bt..] == Body(s[start..]) && bt > start
  {
    if j < |s| { assert s[j..][1..] == s[j + 1..]; }
  }

  lemma {:induction false} PairedFits(t: string)
    requires Paired(t)
    ensures |Unescaped(t)| <= |t| && (|Unescaped(t)| + 1 <= |t| <==> QUOTE in t)
  {
    if t != "" {
      UnescapeStep(t);
      var n := if t[0] == QUOTE then 2 else 1;
      PairedFits(t[n..]);
      assert t == t[..n] + t[n..];
    }
  }

  /** The bytes reserved for a token are those between its quotes, so there is room for the copy and its terminator
      exactly if some quote in it was doubled; this is so for every string that is taken apart. */
  lemma TokenFitsIff(s: string)
    ensures var t := s[..Span(s)];
            |Unescaped(t)| <= |t| && (|Unescaped(t)| + 1 <= |t| <==> QUOTE in t)
  {
    SpanPaired(s);
    PairedFits(s[..Span(s)]);
  }

  /** The one-letter argument has one byte reserved and needs two. */
  lemma LetterOverruns()
    ensures Quoted(["a"]) == " 'a'" && Tokens(" 'a'") == ["a"]
    ensures var body := Body(" 'a'"); body[..Span(body)] == "a" && |Unescaped("a")| + 1 == 2
  {
    assert ["a"][..0] == [] && "a"[1..] == "";
    assert Escaped("a") == "a";
    TokensOfQuoted(["a"]);
    PieceBody("a", "");
    assert Piece("a") + "" == " 'a'";
    SpanEscaped("a", [QUOTE] + "");
    UnescapeEscaped("a");
  }

  /** An array goes through the two programs unchanged, but an empty one makes the second of them fault. */
  method PassArguments(a: seq<string>) returns (fault: bool, b: seq<array<char>>)
    requires CStrings(a)
    ensures fault <==> a == []
    ensures fresh(b) && AllHold(b, a)
  {
    var s := QuoteAll(a);
    QuotedIsCString(a);
    TokensOfQuoted(a);
    assert s[..s.Length - 1] == Quoted(a);
    QuotedEmptyIff(a);
    fault, b := Tokenize(s[..s.Length - 1]);
  }

  lemma QuotedEmptyIff(a: seq<string>)
    ensures Quoted(a) == "" <==> a == []
  {
  }

  /** `execve` and the start of the new program: it gets its arguments and its environment as they were, and faults
      before `main` iff one of them is empty. */
  method Exec(argv: seq<string>, envp: seq<string>)
    returns (fault: bool, pargv: seq<array<char>>, environ: seq<array<char>>)
    requires CStrings(argv) && CStrings(envp)
    ensures fault <==> argv == [] || envp == []
    ensures !fault ==> AllHold(pargv, argv) && AllHold(environ, envp)
  {
    environ := [];
    fault, pargv := PassArguments(argv);
    if !fault {
      fault, environ := PassArguments(envp);
    }
  }

  lemma {:induction false} QuotedIsCString(a: seq<string>)
    requires CStrings(a)
    ensures CString(Quoted(a))
  {
    if a != [] {
      QuotedIsCString(a[..|a| - 1]);
      EscapedIsCString(a[|a| - 1]);
    }
  }

  lemma {:induction false} EscapedIsCString(x: string)
    requires CString(x)
    ensures CString(Escaped(x))
  {
    if x != "" {
      EscapedIsCString(x[1..]);
      assert x[0] in x;
    }
  }
}
