/**
  `join_simple` (src/shell_parser.rs): turning a command's words back into one line.

  Main results: tokenizing the line gives the words back if and only if every word is free of the
  characters its form cannot carry, and the dispatcher that executes the line, which knows no
  quotes, reads the words back if and only if none is empty or holds white space or `;`.
*/
module ShellJoin {
  import opened ShellLexer
  import opened ShellGrammar

  predicate HasBlank(w: string) { ' ' in w || '\t' in w }

  function JoinedWord(w: string): string {
    if HasBlank(w) then "\"" + w + "\"" else w
  }

  function Joined(ws: seq<string>): string {
    if ws == [] then []
    else if |ws| == 1 then JoinedWord(ws[0])
    else JoinedWord(ws[0]) + " " + Joined(ws[1..])
  }

  function JoinedTail(ws: seq<string>): string {
    if ws == [] then [] else " " + Joined(ws)
  }

  lemma {:induction false} JoinedSplit(ws: seq<string>, n: nat)
    requires 0 < n <= |ws|
    ensures Joined(ws) == Joined(ws[..n]) + JoinedTail(ws[n..])
    decreases n
  {
    if n == 1 {
      assert ws[..1] == [ws[0]];
      Regrouped(JoinedWord(ws[0]), " ", Joined(ws[1..]));
    } else {
      JoinedSplit(ws[1..], n - 1);
      assert ws[..n][1..] == ws[1..][..n - 1] && ws[1..][n - 1..] == ws[n..];
      Regrouped(JoinedWord(ws[0]) + " ", Joined(ws[1..][..n - 1]), JoinedTail(ws[n..]));
    }
  }

  lemma Regrouped(a: string, b: string, c: string)
    ensures a + (b + c) == (a + b) + c
  {
  }

  method JoinSimple(words: seq<string>) returns (s: string)
    ensures s == Joined(words)
  {
    s := [];
    for i := 0 to |words|
      invariant s == Joined(words[..i])
    {
      JoinedGrows(words, i);
      if i > 0 {
        s := s + " ";
      }
      var w := words[i];
      if ' ' in w || '\t' in w {
        s := s + ("\"" + w + "\"");
      } else {
        s := s + w;
      }
    }
    assert words[..|words|] == words;
  }

  lemma JoinedGrows(ws: seq<string>, i: nat)
    requires i < |ws|
    ensures Joined(ws[..i + 1]) == (if i > 0 then Joined(ws[..i]) + " " else Joined(ws[..i])) + JoinedWord(ws[i])
  {
    if i == 0 {
      assert ws[..1] == [ws[0]];
    } else {
      JoinedSplit(ws[..i + 1], i);
      assert ws[..i + 1][..i] == ws[..i] && ws[..i + 1][i..] == [ws[i]];
      var a, w := Joined(ws[..i]), JoinedWord(ws[i]);
      assert a + (" " + w) == (a + " ") + w;
    }
  }

  // ---------- When the line means the words ----------

  predicate IsSpecial(c: char) { c in {' ', '\t', ';', '\n', '\"', '\''} }

  /** Free of the characters its joined form cannot carry. */
  predicate Carried(w: string) {
    if HasBlank(w) then '\"' !in w
    else forall i :: 0 <= i < |w| ==> !IsSpecial(w[i])
  }

  predicate AllCarried(ws: seq<string>) {
    forall i :: 0 <= i < |ws| ==> PlainWord(ws[i]) && Carried(ws[i])
  }

  lemma {:induction false} QuotedWhole(w: string, q: char, rest: string)
    requires q !in w
    ensures QuotedLength(w + [q] + rest, q) == |w|
    decreases |w|
  {
    if w != [] {
      assert (w + [q] + rest)[1..] == w[1..] + [q] + rest;
      QuotedWhole(w[1..], q, rest);
    }
  }

  lemma LexJoinedWord(w: string, rest: string)
    requires Carried(w)
    ensures Lex(JoinedWord(w) + rest, []) == Lex(rest, w)
  {
    if HasBlank(w) {
      var s := JoinedWord(w) + rest;
      assert s[1..] == w + "\"" + rest;
      QuotedWhole(w, '\"', rest);
      assert AfterQuote(s[1..], '\"') == rest;
      assert [] + s[1..][..|w|] == w;
    } else {
      LexUnquoted(w, rest, []);
      assert [] + w == w;
    }
  }

  lemma {:induction false} CarriedLexes(ws: seq<string>)
    requires AllCarried(ws)
    ensures Lex(Joined(ws), []) == WordTokens(ws) + [Eof]
    decreases |ws|
  {
    if |ws| == 1 {
      assert ws == [ws[0]];
      assert JoinedWord(ws[0]) + [] == JoinedWord(ws[0]);
      LexJoinedWord(ws[0], []);
    } else if |ws| > 1 {
      var rest := " " + Joined(ws[1..]);
      assert Joined(ws) == JoinedWord(ws[0]) + rest;
      LexJoinedWord(ws[0], rest);
      assert rest[1..] == Joined(ws[1..]);
      CarriedLexes(ws[1..]);
    }
  }

  // The converse counts quotes: lexing never creates one, and drops those that open or close.

  function Count(s: string, q: char): nat {
    if s == [] then 0 else (if s[0] == q then 1 else 0) + Count(s[1..], q)
  }

  function CountTokens(ts: seq<Token>, q: char): nat {
    if ts == [] then 0 else (if ts[0].Word? then Count(ts[0].text, q) else 0) + CountTokens(ts[1..], q)
  }

  lemma {:induction false} CountAppend(s: string, t: string, q: char)
    ensures Count(s + t, q) == Count(s, q) + Count(t, q)
    decreases |s|
  {
    if s == [] {
      assert s + t == t;
    } else {
      assert (s + t)[1..] == s[1..] + t;
      CountAppend(s[1..], t, q);
    }
  }

  lemma {:induction false} CountMember(s: string, q: char)
    ensures q in s <==> Count(s, q) > 0
    decreases |s|
  {
    if s != [] {
      CountMember(s[1..], q);
      assert s == [s[0]] + s[1..];
    }
  }

  lemma {:induction false} CountTokensAppend(ts: seq<Token>, us: seq<Token>, q: char)
    ensures CountTokens(ts + us, q) == CountTokens(ts, q) + CountTokens(us, q)
    decreases |ts|
  {
    if ts == [] {
      assert ts + us == us;
    } else {
      assert (ts + us)[1..] == ts[1..] + us;
      CountTokensAppend(ts[1..], us, q);
    }
  }

  lemma CountOne(t: Token, q: char)
    ensures CountTokens([t], q) == if t.Word? then Count(t.text, q) else 0
  {
    assert [t][1..] == [];
  }

  lemma CountFlush(buf: string, q: char)
    requires IsQuote(q)
    ensures CountTokens(Flush(buf), q) == Count(buf, q)
  {
    if buf != [] {
      CountOne(Classify(buf), q);
      CountMember(buf, q);
    }
  }

  /** Lexing meets a `'` outside any `"` pair. */
  predicate OpensSingle(s: string)
    decreases |s|
  {
    s != [] &&
    (s[0] == '\'' || OpensSingle(if s[0] == '\"' then AfterQuote(s[1..], '\"') else s[1..]))
  }

  lemma SplitQuoted(rest: string, q: char, p: char)
    ensures Count(rest[..QuotedLength(rest, q)], p) + Count(AfterQuote(rest, q), p) <= Count(rest, p)
    ensures p != q ==> Count(rest[..QuotedLength(rest, q)], p) + Count(AfterQuote(rest, q), p) == Count(rest, p)
    ensures Count(rest[..QuotedLength(rest, q)], q) == 0
    decreases |rest|
  {
    if rest != [] && rest[0] != q {
      SplitQuoted(rest[1..], q, p);
      var n := QuotedLength(rest[1..], q);
      assert rest[..n + 1][1..] == rest[1..][..n];
      assert n < |rest[1..]| ==> rest[1..][n + 1..] == rest[n + 2..];
    }
  }

  lemma {:induction false} SingleQuotesDrop(s: string, buf: string)
    ensures CountTokens(Lex(s, buf), '\'') <= Count(buf, '\'') + Count(s, '\'')
    ensures OpensSingle(s) ==> CountTokens(Lex(s, buf), '\'') < Count(buf, '\'') + Count(s, '\'')
    decreases |s|
  {
    CountFlush(buf, '\'');
    if s == [] {
      CountTokensAppend(Flush(buf), [Eof], '\'');
    } else {
      var c, rest := s[0], s[1..];
      if c == ' ' || c == '\t' {
        SingleQuotesDrop(rest, []);
        CountTokensAppend(Flush(buf), Lex(rest, []), '\'');
      } else if c == ';' || c == '\n' {
        SingleQuotesDrop(rest, []);
        var sep := [if c == ';' then Semi else Newline];
        CountTokensAppend(Flush(buf) + sep, Lex(rest, []), '\'');
        CountTokensAppend(Flush(buf), sep, '\'');
      } else if IsQuote(c) {
        var inside := rest[..QuotedLength(rest, c)];
        SingleQuotesDrop(AfterQuote(rest, c), buf + inside);
        CountAppend(buf, inside, '\'');
        SplitQuoted(rest, c, '\'');
      } else {
        SingleQuotesDrop(rest, buf + [c]);
        CountAppend(buf, [c], '\'');
      }
    }
  }

  /** A `"` reaches a word only from between single quotes. */
  lemma {:induction false} DoubleQuotesDrop(s: string, buf: string)
    requires !OpensSingle(s)
    ensures CountTokens(Lex(s, buf), '\"') == Count(buf, '\"')
    decreases |s|
  {
    CountFlush(buf, '\"');
    if s == [] {
      CountTokensAppend(Flush(buf), [Eof], '\"');
    } else {
      var c, rest := s[0], s[1..];
      if c == ' ' || c == '\t' {
        DoubleQuotesDrop(rest, []);
        CountTokensAppend(Flush(buf), Lex(rest, []), '\"');
      } else if c == ';' || c == '\n' {
        DoubleQuotesDrop(rest, []);
        var sep := [if c == ';' then Semi else Newline];
        CountTokensAppend(Flush(buf) + sep, Lex(rest, []), '\"');
        CountTokensAppend(Flush(buf), sep, '\"');
      } else if c == '\"' {
        var inside := rest[..QuotedLength(rest, c)];
        DoubleQuotesDrop(AfterQuote(rest, c), buf + inside);
        CountAppend(buf, inside, '\"');
        SplitQuoted(rest, c, '\"');
      } else {
        DoubleQuotesDrop(rest, buf + [c]);
        CountAppend(buf, [c], '\"');
      }
    }
  }

  function CountAll(ws: seq<string>, q: char): nat {
    if ws == [] then 0 else Count(ws[0], q) + CountAll(ws[1..], q)
  }

  lemma {:induction false} CountWordTokens(ws: seq<string>, q: char)
    ensures CountTokens(WordTokens(ws) + [Eof], q) == CountAll(ws, q)
    decreases |ws|
  {
    if ws != [] {
      assert WordTokens(ws) + [Eof] == [Word(ws[0])] + (WordTokens(ws[1..]) + [Eof]);
      CountWordTokens(ws[1..], q);
    }
  }

  lemma {:induction false} CountJoined(ws: seq<string>)
    ensures Count(Joined(ws), '\'') == CountAll(ws, '\'')
    decreases |ws|
  {
    if ws != [] {
      var w := ws[0];
      CountAppend("\"" + w, "\"", '\'');
      CountAppend("\"", w, '\'');
      CountJoined(ws[1..]);
      CountAppend(JoinedWord(w) + " ", Joined(ws[1..]), '\'');
      CountAppend(JoinedWord(w), " ", '\'');
    }
  }

  lemma {:induction false} NoneInAny(ws: seq<string>, q: char)
    requires CountAll(ws, q) == 0
    ensures forall i :: 0 <= i < |ws| ==> q !in ws[i]
    decreases |ws|
  {
    if ws != [] {
      CountMember(ws[0], q);
      NoneInAny(ws[1..], q);
    }
  }

  lemma {:induction false} OpensSkip(w: string, rest: string)
    requires forall i :: 0 <= i < |w| ==> !IsSpecial(w[i])
    ensures OpensSingle(w + rest) == OpensSingle(rest)
    decreases |w|
  {
    if w == [] {
      assert w + rest == rest;
    } else {
      assert (w + rest)[1..] == w[1..] + rest;
      OpensSkip(w[1..], rest);
    }
  }

  lemma OpensJoined(w: string, rest: string)
    requires Carried(w)
    ensures OpensSingle(JoinedWord(w) + rest) == OpensSingle(rest)
  {
    if HasBlank(w) {
      var s := JoinedWord(w) + rest;
      assert s[1..] == w + "\"" + rest;
      QuotedWhole(w, '\"', rest);
      assert AfterQuote(s[1..], '\"') == rest;
    } else {
      OpensSkip(w, rest);
    }
  }

  /** A bare word with a separator or a `'` is not read back as a word. */
  lemma BareWord(w: string, rest: string, ts: seq<Token>)
    requires !HasBlank(w) && '\"' !in w && !OpensSingle(w + rest)
    requires Lex(w + rest, []) == ts && Semi !in ts && Newline !in ts
    ensures Carried(w)
  {
    var n := PlainPrefix(w);
    if n < |w| {
      assert w[n] in w;
      var after := w[n..] + rest;
      assert w + rest == w[..n] + after;
      OpensSkip(w[..n], after);
      LexUnquoted(w[..n], after, []);
      var sep := if w[n] == ';' then Semi else Newline;
      assert ts == (Flush([] + w[..n]) + [sep]) + Lex(after[1..], []);
      assert sep in Flush([] + w[..n]) + [sep];
    }
  }

  function PlainPrefix(w: string): (n: nat)
    ensures n <= |w| && forall i :: 0 <= i < n ==> !IsSpecial(w[i])
    ensures n < |w| ==> IsSpecial(w[n])
  {
    if w == [] || IsSpecial(w[0]) then 0 else 1 + PlainPrefix(w[1..])
  }

  lemma {:induction false} OnlyWords(ws: seq<string>)
    ensures |WordTokens(ws)| == |ws| && forall i :: 0 <= i < |ws| ==> WordTokens(ws)[i] == Word(ws[i])
    decreases |ws|
  {
    if ws != [] { OnlyWords(ws[1..]); }
  }

  lemma {:induction false} LexesCarried(ws: seq<string>)
    requires Lex(Joined(ws), []) == WordTokens(ws) + [Eof] && !OpensSingle(Joined(ws))
    requires forall i :: 0 <= i < |ws| ==> PlainWord(ws[i]) && '\"' !in ws[i]
    ensures AllCarried(ws)
    decreases |ws|
  {
    if ws != [] {
      var w, rest := ws[0], JoinedTail(ws[1..]);
      JoinedSplit(ws, 1);
      assert ws[..1] == [w];
      OnlyWords(ws);
      var ts := WordTokens(ws) + [Eof];
      if !HasBlank(w) {
        BareWord(w, rest, ts);
      }
      LexJoinedWord(w, rest);
      OpensJoined(w, rest);
      assert Flush(w) == [Word(w)];
      if |ws| > 1 {
        assert rest[1..] == Joined(ws[1..]);
        assert ts[1..] == WordTokens(ws[1..]) + [Eof];
        assert ([Word(w)] + Lex(Joined(ws[1..]), []))[1..] == Lex(Joined(ws[1..]), []);
        LexesCarried(ws[1..]);
      }
    }
  }

  /** Tokenizing the joined line gives the words back exactly when each word can be carried. */
  lemma JoinFaithful(ws: seq<string>)
    ensures Lex(Joined(ws), []) == WordTokens(ws) + [Eof] <==> AllCarried(ws)
  {
    if AllCarried(ws) {
      CarriedLexes(ws);
    }
    if Lex(Joined(ws), []) == WordTokens(ws) + [Eof] {
      var ts := WordTokens(ws) + [Eof];
      LexWellTerminated(Joined(ws), []);
      OnlyWords(ws);
      assert forall i :: 0 <= i < |ws| ==> ts[..|ts| - 1][i] == Word(ws[i]);
      CountWordTokens(ws, '\'');
      CountWordTokens(ws, '\"');
      CountJoined(ws);
      SingleQuotesDrop(Joined(ws), []);
      DoubleQuotesDrop(Joined(ws), []);
      NoneInAny(ws, '\"');
      LexesCarried(ws);
    }
  }

  /** A word holding `;`, which quoting can produce, is lost: the joined line means two commands. */
  lemma JoinLosesSeparator()
    ensures PlainWord("a;b") && Lex(Joined(["a;b"]), []) != WordTokens(["a;b"]) + [Eof]
  {
    var ws := ["a;b"];
    assert IsSpecial(ws[0][1]);
    assert !HasBlank(ws[0]);
    JoinFaithful(ws);
  }

  // ---------- What the dispatcher makes of the line ----------

  /** `char::is_whitespace`. */
  predicate IsSpace(c: char) {
    var n := c as int;
    || 0x09 <= n <= 0x0d || n == 0x20 || n == 0x85 || n == 0xa0 || n == 0x1680 || 0x2000 <= n <= 0x200a
    || n == 0x2028 || n == 0x2029 || n == 0x202f || n == 0x205f || n == 0x3000
  }

  function Finished(word: string): seq<string> { if word == [] then [] else [word] }

  /** `split_whitespace`, with `word` read before. */
  function Fields(s: string, word: string): seq<string> {
    if s == [] then Finished(word)
    else if IsSpace(s[0]) then Finished(word) + Fields(s[1..], [])
    else Fields(s[1..], word + [s[0]])
  }

  function Command(piece: string): seq<seq<string>> { if Fields(piece, []) == [] then [] else [Fields(piece, [])] }

  /** The commands of a line as their words: pieces between semicolons that are not blank; `piece` is read before. */
  function Commands(s: string, piece: string): seq<seq<string>> {
    if s == [] then Command(piece)
    else if s[0] == ';' then Command(piece) + Commands(s[1..], [])
    else Commands(s[1..], piece + [s[0]])
  }

  /** Not empty, and free of what the dispatcher splits at. */
  predicate Atom(w: string) { w != [] && forall i :: 0 <= i < |w| ==> !IsSpace(w[i]) && w[i] != ';' }

  predicate Atoms(ws: seq<string>) { forall i :: 0 <= i < |ws| ==> Atom(ws[i]) }

  predicate AtomLists(cs: seq<seq<string>>) { forall i :: 0 <= i < |cs| ==> cs[i] != [] && Atoms(cs[i]) }

  predicate NoSplits(w: string) { forall i :: 0 <= i < |w| ==> !IsSpace(w[i]) && w[i] != ';' }

  predicate NoSemicolons(s: string) { forall i :: 0 <= i < |s| ==> s[i] != ';' }

  lemma {:induction false} FieldsAreAtoms(s: string, word: string)
    requires NoSplits(word) && NoSemicolons(s)
    ensures Atoms(Fields(s, word))
    decreases |s|
  {
    if s != [] {
      if IsSpace(s[0]) { FieldsAreAtoms(s[1..], []); } else { FieldsAreAtoms(s[1..], word + [s[0]]); }
    }
  }

  lemma {:induction false} CommandsAreAtoms(s: string, piece: string)
    requires NoSemicolons(piece)
    ensures AtomLists(Commands(s, piece))
    decreases |s|
  {
    FieldsAreAtoms(piece, []);
    if s != [] {
      if s[0] == ';' {
        CommandsAreAtoms(s[1..], []);
        MoreAtomLists(Command(piece), Commands(s[1..], []));
      } else {
        CommandsAreAtoms(s[1..], piece + [s[0]]);
      }
    }
  }

  lemma MoreAtomLists(a: seq<seq<string>>, b: seq<seq<string>>)
    requires AtomLists(a) && AtomLists(b)
    ensures AtomLists(a + b)
  {
  }

  lemma {:induction false} OnePiece(s: string, piece: string)
    requires NoSemicolons(s)
    ensures Commands(s, piece) == Command(piece + s)
    decreases |s|
  {
    if s == [] {
      assert piece + s == piece;
    } else {
      OnePiece(s[1..], piece + [s[0]]);
      assert (piece + [s[0]]) + s[1..] == piece + s;
    }
  }

  lemma {:induction false} FieldsOfWord(w: string, rest: string, word: string)
    requires NoSplits(w)
    ensures Fields(w + rest, word) == Fields(rest, word + w)
    decreases |w|
  {
    if w == [] {
      assert w + rest == rest && word + w == word;
    } else {
      assert (w + rest)[1..] == w[1..] + rest && (word + [w[0]]) + w[1..] == word + w;
      FieldsOfWord(w[1..], rest, word + [w[0]]);
    }
  }

  lemma {:induction false} FieldsOfJoined(ws: seq<string>)
    requires Atoms(ws)
    ensures Fields(Joined(ws), []) == ws && NoSemicolons(Joined(ws))
    decreases |ws|
  {
    if ws != [] {
      var w, rest := ws[0], JoinedTail(ws[1..]);
      FieldsOfJoined(ws[1..]);
      JoinedSplit(ws, 1);
      assert ws[..1] == [w] && [] + w == w;
      assert IsSpace(' ') && IsSpace('\t');
      FieldsOfWord(w, rest, []);
      if |ws| > 1 { assert rest[1..] == Joined(ws[1..]); }
    }
  }

  /** A word with a blank, which the parser's quotes can produce, comes out as something else. */
  lemma DispatchLosesBlank()
    ensures PlainWord("a b") && Commands(Joined(["a b"]), []) != [["a b"]]
  {
    var ws := ["a b"];
    assert IsSpace(ws[0][1]) && !Atom(ws[0]);
    DispatchExact(ws);
  }

  /** Executing the joined line runs one command, of the same words, exactly when there are some and all are atoms. */
  lemma DispatchExact(ws: seq<string>)
    ensures Commands(Joined(ws), []) == [ws] <==> ws != [] && Atoms(ws)
  {
    CommandsAreAtoms(Joined(ws), []);
    if Commands(Joined(ws), []) == [ws] {
      assert Commands(Joined(ws), [])[0] == ws;
    }
    if ws != [] && Atoms(ws) {
      FieldsOfJoined(ws);
      OnePiece(Joined(ws), []);
      assert [] + Joined(ws) == Joined(ws);
    }
  }
}
