/**
  The shell's tokenizer (src/shell_parser.rs).

  `Lex` gives the tokens of the remaining characters and the word under construction; `LexExact`
  says which those are by the spans of the text alone.  `Tokenize` is the source's double loop over
  a peekable iterator, proved equal to it.  `Render` is an inverse: text whose tokens are a given
  token sequence.
*/
module ShellLexer {
  import opened Wrappers

  datatype Token =
    | Word(text: string)
    | Semi
    | Newline
    | KwIf
    | KwThen
    | KwElif
    | KwElse
    | KwFi
    | KwWhile
    | KwDo
    | KwDone
    | KwFor
    | KwIn
    | Eof

  // ---------- Specification ----------

  function Classify(s: string): Token {
    if s == "if" then KwIf
    else if s == "then" then KwThen
    else if s == "elif" then KwElif
    else if s == "else" then KwElse
    else if s == "fi" then KwFi
    else if s == "while" then KwWhile
    else if s == "do" then KwDo
    else if s == "done" then KwDone
    else if s == "for" then KwFor
    else if s == "in" then KwIn
    else Word(s)
  }

  function Flush(buf: string): seq<Token> {
    if buf == [] then [] else [Classify(buf)]
  }

  /** Number of characters before the first `q`, or all of them. */
  function QuotedLength(s: string, q: char): (n: nat)
    ensures n <= |s|
  {
    if s == [] || s[0] == q then 0 else 1 + QuotedLength(s[1..], q)
  }

  /** What is left after a quoted run and its closing quote, if there is one. */
  function AfterQuote(s: string, q: char): (r: string)
    ensures |r| <= |s|
  {
    var n := QuotedLength(s, q);
    if n < |s| then s[n + 1..] else []
  }

  predicate IsQuote(c: char) { c == '\"' || c == '\'' }

  function Lex(s: string, buf: string): seq<Token>
    decreases |s|
  {
    if s == [] then Flush(buf) + [Eof]
    else
      var c, rest := s[0], s[1..];
      if c == ' ' || c == '\t' then Flush(buf) + Lex(rest, [])
      else if c == ';' then Flush(buf) + [Semi] + Lex(rest, [])
      else if c == '\n' then Flush(buf) + [Newline] + Lex(rest, [])
      else if IsQuote(c) then Lex(AfterQuote(rest, c), buf + rest[..QuotedLength(rest, c)])
      else Lex(rest, buf + [c])
  }

  // ---------- Tokens by position ----------

  /** The quote that is open before position `i`, if any. */
  function OpenQuote(s: string, i: nat): Option<char>
    requires i <= |s|
  {
    if i == 0 then None
    else
      var open, c := OpenQuote(s, i - 1), s[i - 1];
      if open.None? then (if IsQuote(c) then Some(c) else None)
      else if open.value == c then None
      else open
  }

  /** An unquoted character that ends a word. */
  predicate Breaks(s: string, i: nat)
    requires i < |s|
  {
    OpenQuote(s, i).None? && s[i] in {' ', '\t', ';', '\n'}
  }

  /** An unquoted separator. */
  predicate Separates(s: string, i: nat)
    requires i < |s|
  {
    OpenQuote(s, i).None? && s[i] in {';', '\n'}
  }

  /** A character that belongs to a word: any within quotes other than the closing one, or an ordinary one. */
  predicate Belongs(s: string, i: nat)
    requires i < |s|
  {
    match OpenQuote(s, i)
    case Some(q) => s[i] != q
    case None => s[i] !in {' ', '\t', ';', '\n', '\"', '\''}
  }

  /** The characters from `lo` to `hi` that belong to words. */
  function Text(s: string, lo: nat, hi: nat): string
    requires lo <= hi <= |s|
  {
    if lo == hi then [] else Text(s, lo, hi - 1) + (if Belongs(s, hi - 1) then [s[hi - 1]] else [])
  }

  datatype Span = Span(lo: nat, hi: nat)

  predicate Unbroken(s: string, lo: nat, hi: nat) { hi <= |s| && forall i :: lo <= i < hi ==> !Breaks(s, i) }

  /** A stretch between breaks, or the ends of the text, that has a character of a word. */
  predicate IsWordSpan(s: string, p: Span) {
    && p.lo <= p.hi <= |s| && Unbroken(s, p.lo, p.hi) && Text(s, p.lo, p.hi) != []
    && (p.lo > 0 ==> Breaks(s, p.lo - 1)) && (p.hi < |s| ==> Breaks(s, p.hi))
  }

  predicate IsSeparatorSpan(s: string, p: Span) { p.lo < |s| && p.hi == p.lo + 1 && Separates(s, p.lo) }

  predicate IsSpan(s: string, p: Span) { IsSeparatorSpan(s, p) || IsWordSpan(s, p) }

  /** The token of a span: the separator, or the text with its quotes removed, classified. */
  function TokenAt(s: string, p: Span): Token
    requires IsSpan(s, p)
  {
    if IsSeparatorSpan(s, p) then (if s[p.lo] == ';' then Semi else Newline) else Classify(Text(s, p.lo, p.hi))
  }

  /** Each span ends before the next begins. */
  predicate Increasing(ps: seq<Span>) { forall i, j :: 0 <= i < j < |ps| ==> ps[i].hi <= ps[j].lo }

  predicate AreSpans(s: string, ps: seq<Span>) { forall i :: 0 <= i < |ps| ==> IsSpan(s, ps[i]) }

  /** All spans from `from` on are listed. */
  ghost predicate Complete(s: string, from: nat, ps: seq<Span>) {
    forall p :: IsSpan(s, p) && p.lo >= from ==> p in ps
  }

  function TokensAt(s: string, ps: seq<Span>): seq<Token>
    requires AreSpans(s, ps)
  {
    seq(|ps|, i requires 0 <= i < |ps| => TokenAt(s, ps[i]))
  }

  /** `out` lists the tokens of all spans of `s` from left to right, and `Eof`. */
  ghost predicate Accounts(s: string, out: seq<Token>, ps: seq<Span>) {
    AreSpans(s, ps) && Increasing(ps) && Complete(s, 0, ps) && out == TokensAt(s, ps) + [Eof]
  }

  lemma {:induction false} TextJoin(s: string, lo: nat, mid: nat, hi: nat)
    requires lo <= mid <= hi <= |s|
    ensures Text(s, lo, hi) == Text(s, lo, mid) + Text(s, mid, hi)
    decreases hi
  {
    if mid < hi { TextJoin(s, lo, mid, hi - 1); }
  }

  /** From `i` on `n` characters are within quotes, and the quote or the end follows. */
  predicate QuotedRun(s: string, i: nat, n: nat, q: char) {
    && i + n <= |s| && Unbroken(s, i, i + n) && Text(s, i, i + n) == s[i..i + n]
    && (i + n < |s| ==> OpenQuote(s, i + n) == Some(q) && s[i + n] == q)
  }

  /** Within quotes everything up to the closing quote belongs to the word. */
  lemma {:induction false} QuotedStretch(s: string, i: nat, q: char)
    requires i <= |s| && OpenQuote(s, i) == Some(q)
    ensures QuotedRun(s, i, QuotedLength(s[i..], q), q)
    decreases |s| - i
  {
    if i == |s| || s[i] == q {
      QuotedNone(s, i, q);
    } else {
      assert OpenQuote(s, i + 1) == Some(q);
      QuotedStretch(s, i + 1, q);
      QuotedMore(s, i, QuotedLength(s[i + 1..], q), q);
      LengthMore(s, i, q);
    }
  }

  lemma QuotedNone(s: string, i: nat, q: char)
    requires i <= |s| && OpenQuote(s, i) == Some(q) && (i == |s| || s[i] == q)
    ensures QuotedLength(s[i..], q) == 0 && QuotedRun(s, i, 0, q)
  {
  }

  lemma LengthMore(s: string, i: nat, q: char)
    requires i < |s| && s[i] != q
    ensures QuotedLength(s[i..], q) == QuotedLength(s[i + 1..], q) + 1
  {
    assert s[i..][1..] == s[i + 1..];
  }

  lemma QuotedMore(s: string, i: nat, n: nat, q: char)
    requires i < |s| && OpenQuote(s, i) == Some(q) && s[i] != q && QuotedRun(s, i + 1, n, q)
    ensures QuotedRun(s, i, n + 1, q)
  {
    QuotedFirst(s, i, n);
  }

  lemma QuotedFirst(s: string, i: nat, n: nat)
    requires i + 1 + n <= |s| && Belongs(s, i) && Text(s, i + 1, i + 1 + n) == s[i + 1..i + 1 + n]
    ensures Text(s, i, i + 1 + n) == s[i..i + 1 + n]
  {
    TextJoin(s, i, i + 1, i + 1 + n);
    assert Text(s, i, i + 1) == Text(s, i, i) + [s[i]];
    assert s[i..i + 1 + n] == [s[i]] + s[i + 1..i + 1 + n];
  }

  /** A word begins at `start`, its characters up to `i` are read, and no quote is open unless the text ends there. */
  predicate Reading(s: string, start: nat, i: nat) {
    && start <= i <= |s| && Unbroken(s, start, i) && (start > 0 ==> Breaks(s, start - 1))
    && (i < |s| ==> OpenQuote(s, i).None?)
  }

  /** The quoted run that begins at `i` ends at `j`. */
  lemma QuoteRead(s: string, start: nat, i: nat) returns (j: nat)
    requires Reading(s, start, i) && i < |s| && IsQuote(s[i])
    ensures i < j && Reading(s, start, j) && s[j..] == AfterQuote(s[i + 1..], s[i])
    ensures Text(s, start, j) == Text(s, start, i) + s[i + 1..][..QuotedLength(s[i + 1..], s[i])]
  {
    var q, n := s[i], QuotedLength(s[i + 1..], s[i]);
    var e := i + 1 + n;
    QuotedStretch(s, i + 1, q);
    QuotedText(s, start, i, e);
    j := if e < |s| then e + 1 else e;
    QuotedRest(s, i + 1, q, n, j);
    QuoteLeft(s, start, i, e, j);
  }

  lemma QuotedRest(s: string, i: nat, q: char, n: nat, j: nat)
    requires i <= |s| && n == QuotedLength(s[i..], q) && j == if i + n < |s| then i + n + 1 else i + n
    ensures s[i..][..n] == s[i..i + n] && s[j..] == AfterQuote(s[i..], q)
  {
  }

  lemma QuoteLeft(s: string, start: nat, i: nat, e: nat, j: nat)
    requires Reading(s, start, i) && i < e <= |s| && IsQuote(s[i]) && Unbroken(s, i + 1, e)
    requires j == (if e < |s| then e + 1 else e) && (e < |s| ==> OpenQuote(s, e) == Some(s[e]))
    ensures Reading(s, start, j)
  {
    assert !Breaks(s, i);
  }

  lemma QuotedText(s: string, start: nat, i: nat, e: nat)
    requires start <= i < e <= |s| && OpenQuote(s, i).None? && IsQuote(s[i])
    requires Text(s, i + 1, e) == s[i + 1..e] && (e < |s| ==> OpenQuote(s, e) == Some(s[e]))
    ensures Text(s, start, e) == Text(s, start, i) + s[i + 1..e]
    ensures e < |s| ==> Text(s, start, e + 1) == Text(s, start, e)
  {
    TextJoin(s, start, i + 1, e);
    assert !Belongs(s, i);
    assert Text(s, start, i + 1) == Text(s, start, i);
  }

  /** The span of the word that ends at `i`, if it has a character. */
  function WordSpans(s: string, start: nat, i: nat): seq<Span>
    requires start <= i <= |s|
  {
    if Text(s, start, i) == [] then [] else [Span(start, i)]
  }

  function SeparatorSpans(s: string, i: nat): seq<Span>
    requires i < |s|
  {
    if Separates(s, i) then [Span(i, i + 1)] else []
  }

  /** Where a word ends, its tokens are those of its span. */
  lemma WordEnds(s: string, start: nat, i: nat)
    requires Reading(s, start, i) && (i < |s| ==> Breaks(s, i))
    ensures AreSpans(s, WordSpans(s, start, i)) && TokensAt(s, WordSpans(s, start, i)) == Flush(Text(s, start, i))
    ensures forall p :: IsSpan(s, p) && start <= p.lo < i ==> p in WordSpans(s, start, i)
    ensures forall p :: IsSpan(s, p) && p.lo >= start && i == |s| ==> p in WordSpans(s, start, i)
  {
    var p := Span(start, i);
    if Text(s, start, i) != [] {
      assert !Breaks(s, start);
      assert IsWordSpan(s, p) && !IsSeparatorSpan(s, p);
    }
    forall p | IsSpan(s, p) && start <= p.lo && (p.lo < i || i == |s|)
      ensures p in WordSpans(s, start, i)
    {
      OnlyWord(s, start, i, p);
    }
  }

  lemma OnlyWord(s: string, start: nat, i: nat, p: Span)
    requires Reading(s, start, i) && (i < |s| ==> Breaks(s, i))
    requires IsSpan(s, p) && start <= p.lo && (p.lo < i || i == |s|)
    ensures p == Span(start, i) && p in WordSpans(s, start, i)
  {
    NonEmpty(s, p);
    assert !Breaks(s, p.lo);
    assert IsWordSpan(s, p);
  }

  lemma SpansJoin(s: string, a: seq<Span>, b: seq<Span>, mid: nat)
    requires AreSpans(s, a) && AreSpans(s, b) && Increasing(a) && Increasing(b)
    requires (forall i :: 0 <= i < |a| ==> a[i].hi <= mid) && (forall i :: 0 <= i < |b| ==> mid <= b[i].lo)
    ensures AreSpans(s, a + b) && Increasing(a + b) && TokensAt(s, a + b) == TokensAt(s, a) + TokensAt(s, b)
  {
  }

  predicate From(ps: seq<Span>, lo: nat) { forall i :: 0 <= i < |ps| ==> ps[i].lo >= lo }

  /** The spans of the rest of a text, with the tokens read from there. */
  lemma {:induction false} LexSpans(s: string, start: nat, i: nat) returns (ps: seq<Span>)
    requires Reading(s, start, i)
    ensures AreSpans(s, ps) && Increasing(ps) && From(ps, start) && Complete(s, start, ps)
    ensures Lex(s[i..], Text(s, start, i)) == TokensAt(s, ps) + [Eof]
    decreases |s| - i
  {
    if i == |s| {
      ps := WordSpans(s, start, i);
      WordEnds(s, start, i);
    } else if Breaks(s, i) {
      var rest := LexSpans(s, i + 1, i + 1);
      ps := BreakSpans(s, start, i, rest);
    } else if IsQuote(s[i]) {
      var j := QuoteRead(s, start, i);
      ps := LexSpans(s, start, j);
      assert s[i..][1..] == s[i + 1..];
    } else {
      assert Text(s, start, i + 1) == Text(s, start, i) + [s[i]];
      ps := LexSpans(s, start, i + 1);
      assert s[i..][1..] == s[i + 1..];
    }
  }

  /** A break puts its word and itself before the spans of the rest. */
  lemma BreakSpans(s: string, start: nat, i: nat, rest: seq<Span>) returns (ps: seq<Span>)
    requires Reading(s, start, i) && i < |s| && Breaks(s, i)
    requires AreSpans(s, rest) && Increasing(rest) && From(rest, i + 1) && Complete(s, i + 1, rest)
    requires Lex(s[i + 1..], []) == TokensAt(s, rest) + [Eof]
    ensures AreSpans(s, ps) && Increasing(ps) && From(ps, start) && Complete(s, start, ps)
    ensures Lex(s[i..], Text(s, start, i)) == TokensAt(s, ps) + [Eof]
  {
    ps := WordSpans(s, start, i) + SeparatorSpans(s, i) + rest;
    BreakOrder(s, start, i, rest);
    BreakComplete(s, start, i, rest);
    BreakTokens(s, start, i, rest);
  }

  lemma BreakOrder(s: string, start: nat, i: nat, rest: seq<Span>)
    requires Reading(s, start, i) && i < |s| && Breaks(s, i)
    requires AreSpans(s, rest) && Increasing(rest) && From(rest, i + 1)
    ensures AreSpans(s, WordSpans(s, start, i)) && AreSpans(s, SeparatorSpans(s, i))
    ensures var ps := WordSpans(s, start, i) + SeparatorSpans(s, i) + rest;
            && AreSpans(s, ps) && Increasing(ps) && From(ps, start)
            && TokensAt(s, ps) ==
               TokensAt(s, WordSpans(s, start, i)) + TokensAt(s, SeparatorSpans(s, i)) + TokensAt(s, rest)
  {
    WordEnds(s, start, i);
    assert Separates(s, i) ==> IsSeparatorSpan(s, Span(i, i + 1));
    SpansJoin(s, WordSpans(s, start, i), SeparatorSpans(s, i), i);
    SpansJoin(s, WordSpans(s, start, i) + SeparatorSpans(s, i), rest, i + 1);
  }

  lemma BreakComplete(s: string, start: nat, i: nat, rest: seq<Span>)
    requires Reading(s, start, i) && i < |s| && Breaks(s, i) && Complete(s, i + 1, rest)
    ensures Complete(s, start, WordSpans(s, start, i) + SeparatorSpans(s, i) + rest)
  {
    WordEnds(s, start, i);
    forall p | IsSpan(s, p) && p.lo >= start
      ensures p in WordSpans(s, start, i) + SeparatorSpans(s, i) + rest
    {
      if p.lo == i {
        assert IsWordSpan(s, p) ==> Text(s, i, i) == [];
        assert IsSeparatorSpan(s, p);
        assert p == Span(i, i + 1) && p in SeparatorSpans(s, i);
      }
    }
  }

  lemma BreakTokens(s: string, start: nat, i: nat, rest: seq<Span>)
    requires Reading(s, start, i) && i < |s| && Breaks(s, i) && AreSpans(s, rest)
    requires Lex(s[i + 1..], []) == TokensAt(s, rest) + [Eof]
    requires AreSpans(s, WordSpans(s, start, i)) && AreSpans(s, SeparatorSpans(s, i))
    ensures Lex(s[i..], Text(s, start, i)) ==
            TokensAt(s, WordSpans(s, start, i)) + TokensAt(s, SeparatorSpans(s, i)) + TokensAt(s, rest) + [Eof]
  {
    WordEnds(s, start, i);
    assert s[i..][1..] == s[i + 1..];
    var sep := TokensAt(s, SeparatorSpans(s, i));
    assert sep == if s[i] == ';' then [Semi] else if s[i] == '\n' then [Newline] else [];
    assert Lex(s[i..], Text(s, start, i)) == Flush(Text(s, start, i)) + sep + Lex(s[i + 1..], []);
  }

  /** Two lists of all spans in order are the same list. */
  lemma {:induction false} SpansUnique(s: string, from: nat, a: seq<Span>, b: seq<Span>)
    requires AreSpans(s, a) && Increasing(a) && From(a, from) && Complete(s, from, a)
    requires AreSpans(s, b) && Increasing(b) && From(b, from) && Complete(s, from, b)
    ensures a == b
    decreases |a|
  {
    if a == [] {
      if b != [] { FirstSpan(s, from, b, a); }
    } else {
      FirstSpan(s, from, a, b);
      var next := a[0].hi;
      RestOfSpans(s, from, a);
      RestOfSpans(s, from, b);
      SpansUnique(s, next, a[1..], b[1..]);
    }
  }

  /** The first span of a list begins first. */
  lemma FirstBegins(s: string, a: seq<Span>, p: Span)
    requires AreSpans(s, a) && Increasing(a) && p in a
    ensures a[0] == p || a[0].lo < p.lo
  {
    var i :| 0 <= i < |a| && a[i] == p;
    NonEmpty(s, a[0]);
  }

  lemma NonEmpty(s: string, p: Span)
    requires IsSpan(s, p)
    ensures p.lo < p.hi
  {
  }

  lemma FirstSpan(s: string, from: nat, a: seq<Span>, b: seq<Span>)
    requires a != [] && AreSpans(s, a) && Increasing(a) && From(a, from) && Complete(s, from, a)
    requires AreSpans(s, b) && Increasing(b) && From(b, from) && Complete(s, from, b)
    ensures b != [] && a[0] == b[0]
  {
    assert a[0] in b;
    FirstBegins(s, b, a[0]);
    assert b[0] in a;
    FirstBegins(s, a, b[0]);
  }

  lemma RestOfSpans(s: string, from: nat, a: seq<Span>)
    requires a != [] && AreSpans(s, a) && Increasing(a) && From(a, from) && Complete(s, from, a)
    ensures AreSpans(s, a[1..]) && Increasing(a[1..]) && From(a[1..], a[0].hi) && Complete(s, a[0].hi, a[1..])
  {
    NonEmpty(s, a[0]);
    forall p | IsSpan(s, p) && p.lo >= a[0].hi
      ensures p in a[1..]
    {
      assert p in a && p != a[0];
    }
  }

  /** The tokens of a text are those of its spans, from left to right, and nothing else. */
  lemma LexExact(s: string, out: seq<Token>)
    ensures out == Lex(s, []) <==> exists ps :: Accounts(s, out, ps)
  {
    var ps := LexSpans(s, 0, 0);
    assert s[0..] == s;
    assert Accounts(s, Lex(s, []), ps);
    if qs :| Accounts(s, out, qs) {
      SpansUnique(s, 0, ps, qs);
    }
  }

  // ---------- The tokenizer ----------

  method FlushWord(buf: string, out: seq<Token>) returns (buf': string, out': seq<Token>)
    ensures buf' == [] && out' == out + Flush(buf)
  {
    buf', out' := [], out;
    if buf != [] {
      out' := out + [Classify(buf)];
    }
  }

  /** The inner loops: take characters until the closing quote, or to the end. */
  method TakeQuoted(input: string, start: nat, q: char, buf: string) returns (i: nat, buf': string)
    requires start <= |input|
    ensures start <= i <= |input|
    ensures input[i..] == AfterQuote(input[start..], q)
    ensures buf' == buf + input[start..][..QuotedLength(input[start..], q)]
  {
    i, buf' := start, buf;
    ghost var s := input[start..];
    while i < |input|
      invariant start <= i <= |input|
      invariant buf' == buf + s[..i - start]
      invariant QuotedLength(s, q) == i - start + QuotedLength(input[i..], q)
    {
      assert input[i..][0] == input[i];
      if input[i] == q {
        assert s[i - start + 1..] == input[i + 1..];
        i := i + 1;
        return;
      }
      assert s[..i + 1 - start] == s[..i - start] + [input[i]];
      assert input[i..][1..] == input[i + 1..];
      buf', i := buf' + [input[i]], i + 1;
    }
  }

  lemma Regroup(a: seq<Token>, b: seq<Token>, c: seq<Token>, d: seq<Token>)
    ensures a + (b + d) == (a + b) + d && a + (b + c + d) == ((a + b) + c) + d
  {
  }

  method Tokenize(input: string) returns (out: seq<Token>)
    ensures out == Lex(input, []) && exists spans :: Accounts(input, out, spans)
  {
    LexExact(input, Lex(input, []));
    out := [];
    var buf: string := [];
    var i := 0;
    while i < |input|
      invariant 0 <= i <= |input|
      invariant out + Lex(input[i..], buf) == Lex(input, [])
    {
      ghost var before, word, rest := out, buf, input[i..];
      assert rest[0] == input[i] && rest[1..] == input[i + 1..];
      var c := input[i];
      if c == ' ' || c == '\t' {
        buf, out := FlushWord(buf, out);
        i := i + 1;
        Regroup(before, Flush(word), [], Lex(input[i..], []));
      } else if c == ';' || c == '\n' {
        buf, out := FlushWord(buf, out);
        var sep := if c == ';' then Semi else Newline;
        out, i := out + [sep], i + 1;
        Regroup(before, Flush(word), [sep], Lex(input[i..], []));
      } else if IsQuote(c) {
        i, buf := TakeQuoted(input, i + 1, c, buf);
      } else {
        buf, i := buf + [c], i + 1;
      }
    }
    buf, out := FlushWord(buf, out);
    out := out + [Eof];
  }

  // ---------- What the tokenizer can produce ----------

  predicate PlainWord(w: string) {
    w != [] && Classify(w) == Word(w)
  }

  /** No `Eof`, and every word non-empty and not a keyword. */
  predicate Producible(ts: seq<Token>) {
    forall i :: 0 <= i < |ts| ==> ts[i] != Eof && (ts[i].Word? ==> PlainWord(ts[i].text))
  }

  /** `Eof` is the last token, and occurs nowhere else. */
  predicate WellTerminated(ts: seq<Token>) {
    ts != [] && ts[|ts| - 1] == Eof && Producible(ts[..|ts| - 1])
  }

  lemma PrependProducible(ps: seq<Token>, ts: seq<Token>)
    requires Producible(ps) && WellTerminated(ts)
    ensures WellTerminated(ps + ts)
  {
    assert (ps + ts)[..|ps + ts| - 1] == ps + ts[..|ts| - 1];
  }

  lemma {:induction false} LexWellTerminated(s: string, buf: string)
    ensures WellTerminated(Lex(s, buf))
    decreases |s|
  {
    assert Producible(Flush(buf));
    if s == [] {
      PrependProducible(Flush(buf), [Eof]);
    } else {
      var c, rest := s[0], s[1..];
      if c == ' ' || c == '\t' || c == ';' || c == '\n' {
        LexWellTerminated(rest, []);
        PrependProducible(Flush(buf), Lex(rest, []));
        PrependProducible(Flush(buf) + [Semi], Lex(rest, []));
        PrependProducible(Flush(buf) + [Newline], Lex(rest, []));
      } else if IsQuote(c) {
        LexWellTerminated(AfterQuote(rest, c), buf + rest[..QuotedLength(rest, c)]);
      } else {
        LexWellTerminated(rest, buf + [c]);
      }
    }
  }

  // ---------- An inverse: text for a token sequence ----------

  /** Every character in its own quotes, so that no character of a word is special. */
  function QuoteWord(w: string): string {
    if w == [] then []
    else (if w[0] == '\"' then ['\'', '\"', '\''] else ['\"', w[0], '\"']) + QuoteWord(w[1..])
  }

  function RenderToken(t: Token): string {
    match t
    case Word(w) => QuoteWord(w) + " "
    case Semi => ";"
    case Newline => "\n"
    case KwIf => "if "
    case KwThen => "then "
    case KwElif => "elif "
    case KwElse => "else "
    case KwFi => "fi "
    case KwWhile => "while "
    case KwDo => "do "
    case KwDone => "done "
    case KwFor => "for "
    case KwIn => "in "
    case Eof => ""
  }

  function Render(ts: seq<Token>): string {
    if ts == [] then [] else RenderToken(ts[0]) + Render(ts[1..])
  }

  lemma LexPlain(c: char, rest: string, buf: string)
    requires c !in {' ', '\t', ';', '\n', '\"', '\''}
    ensures Lex([c] + rest, buf) == Lex(rest, buf + [c])
  {
    assert ([c] + rest)[1..] == rest;
  }

  /** Characters that are not special only lengthen the word under construction. */
  lemma {:induction false} LexUnquoted(w: string, rest: string, buf: string)
    requires forall i :: 0 <= i < |w| ==> w[i] !in {' ', '\t', ';', '\n', '\"', '\''}
    ensures Lex(w + rest, buf) == Lex(rest, buf + w)
    decreases |w|
  {
    if w == [] {
      assert w + rest == rest && buf + w == buf;
    } else {
      assert w + rest == [w[0]] + (w[1..] + rest);
      LexPlain(w[0], w[1..] + rest, buf);
      LexUnquoted(w[1..], rest, buf + [w[0]]);
      assert buf + [w[0]] + w[1..] == buf + w;
    }
  }

  lemma LexOneQuoted(c: char, q: char, rest: string, buf: string)
    requires q in {'\"', '\''} && c != q
    ensures Lex([q, c, q] + rest, buf) == Lex(rest, buf + [c])
  {
    var s := [q, c, q] + rest;
    var t := s[1..];
    assert t == [c, q] + rest && t[1..] == [q] + rest;
    assert QuotedLength(t[1..], q) == 0;
    assert QuotedLength(t, q) == 1;
    assert AfterQuote(t, q) == rest;
    assert t[..1] == [c];
  }

  lemma {:induction false} LexQuoted(w: string, rest: string, buf: string)
    ensures Lex(QuoteWord(w) + rest, buf) == Lex(rest, buf + w)
    decreases |w|
  {
    if w == [] {
      assert QuoteWord(w) + rest == rest && buf + w == buf;
    } else {
      var q := if w[0] == '\"' then '\'' else '\"';
      assert QuoteWord(w) + rest == [q, w[0], q] + (QuoteWord(w[1..]) + rest);
      LexOneQuoted(w[0], q, QuoteWord(w[1..]) + rest, buf);
      LexQuoted(w[1..], rest, buf + [w[0]]);
      assert buf + [w[0]] + w[1..] == buf + w;
    }
  }

  lemma LexKeyword(k: string, rest: string)
    requires k != [] && forall i :: 0 <= i < |k| ==> k[i] !in {' ', '\t', ';', '\n', '\"', '\''}
    ensures Lex((k + " ") + rest, []) == [Classify(k)] + Lex(rest, [])
  {
    assert (k + " ") + rest == k + (" " + rest);
    LexUnquoted(k, " " + rest, []);
    assert [] + k == k;
    assert (" " + rest)[1..] == rest;
  }

  /** The spelling of a keyword and a blank lex to the keyword. */
  lemma LexLoneKeyword(t: Token, k: string, rest: string)
    requires Classify(k) == t && RenderToken(t) == k + " "
    requires k != [] && forall i :: 0 <= i < |k| ==> k[i] !in {' ', '\t', ';', '\n', '\"', '\''}
    ensures Lex(RenderToken(t) + rest, []) == [t] + Lex(rest, [])
  {
    LexKeyword(k, rest);
  }

  /** How a keyword is spelled. */
  function Spelling(t: Token): string {
    match t
    case KwIf => "if"
    case KwThen => "then"
    case KwElif => "elif"
    case KwElse => "else"
    case KwFi => "fi"
    case KwWhile => "while"
    case KwDo => "do"
    case KwDone => "done"
    case KwFor => "for"
    case KwIn => "in"
    case _ => ""
  }

  lemma SpellingIs(t: Token)
    requires !t.Word? && !t.Semi? && !t.Newline? && !t.Eof?
    ensures Classify(Spelling(t)) == t && RenderToken(t) == Spelling(t) + " " && Spelling(t) != []
    ensures forall i :: 0 <= i < |Spelling(t)| ==> Spelling(t)[i] !in {' ', '\t', ';', '\n', '\"', '\''}
  {
  }

  lemma LexWord(w: string, rest: string)
    requires Producible([Word(w)])
    ensures Lex(RenderToken(Word(w)) + rest, []) == [Word(w)] + Lex(rest, [])
  {
    assert [Word(w)][0] == Word(w);
    assert RenderToken(Word(w)) + rest == QuoteWord(w) + (" " + rest);
    LexQuoted(w, " " + rest, []);
    assert [] + w == w;
    assert (" " + rest)[1..] == rest;
  }

  lemma LexToken(t: Token, rest: string)
    requires Producible([t])
    ensures Lex(RenderToken(t) + rest, []) == [t] + Lex(rest, [])
  {
    assert [t][0] == t;
    if t.Word? {
      LexWord(t.text, rest);
    } else if t.Semi? {
      assert (";" + rest)[1..] == rest;
    } else if t.Newline? {
      assert ("\n" + rest)[1..] == rest;
    } else {
      SpellingIs(t);
      LexLoneKeyword(t, Spelling(t), rest);
    }
  }

  /** Every producible token sequence is the tokenization of its rendering. */
  lemma {:induction false} LexRender(ts: seq<Token>)
    requires Producible(ts)
    ensures Lex(Render(ts), []) == ts + [Eof]
    decreases |ts|
  {
    if ts != [] {
      assert [ts[0]][0] == ts[0];
      LexToken(ts[0], Render(ts[1..]));
      LexRender(ts[1..]);
    }
  }
}
