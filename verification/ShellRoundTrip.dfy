/**
  Main results about the shell parser: what it returns is always canonical, every canonical
  tree is returned for some text, and its text is a sentence of the documented grammar.
*/
module ShellRoundTrip {
  import opened Wrappers
  import opened ShellLexer
  import opened ShellParser
  import opened ShellGrammar

  // ---------- Writing a tree in the documented grammar ----------

  /** A list for the tree `c`, with `end` after it. */
  function Write(c: Cmd, end: Option<Token>): Phrase
    requires Canonical(c)
    decreases c, 2
  {
    if c.Sequence? then Phrase(WriteItem(c.items[0]), WriteMore(c.items[1..], end))
    else Phrase(WriteItem(c), End(end))
  }

  function WriteMore(items: seq<Cmd>, end: Option<Token>): More
    requires forall i :: 0 <= i < |items| ==> CanonicalItem(items[i])
    decreases items, 0
  {
    if items == [] then End(end) else Next(Semi, WriteItem(items[0]), WriteMore(items[1..], end))
  }

  function WriteItem(c: Cmd): Node
    requires CanonicalItem(c)
    decreases c, 1
  {
    match c
    case Simple(words) => Words(words)
    case If(branches, elseBranch) => IfNode(WriteBranch(branches[0]), WriteArms(branches[1..], WriteElse(elseBranch)))
    case While(cond, body) => WhileNode(Write(cond, Some(Semi)), WriteBlock(body))
    case For(x, values, body) => ForNode(x, values, [Semi], WriteBlock(body))
  }

  function WriteBlock(c: Cmd): Block
    requires Canonical(c)
    decreases c, 3
  {
    Block([], Write(c, Some(Semi)))
  }

  function WriteBranch(b: Branch): Clause
    requires CanonicalBranch(b)
    decreases b, 0
  {
    Clause(Write(b.cond, Some(Semi)), WriteBlock(b.body))
  }

  function WriteElse(e: Option<Cmd>): Arms
    requires CanonicalElse(e)
    decreases e, 0
  {
    if e.None? then Fi else Else(WriteBlock(e.value), Fi)
  }

  function WriteArms(bs: seq<Branch>, last: Arms): Arms
    requires forall i :: 0 <= i < |bs| ==> CanonicalBranch(bs[i])
    decreases bs, 0
  {
    if bs == [] then last else Elif(WriteBranch(bs[0]), WriteArms(bs[1..], last))
  }

  /** The list written for `c` is one of the documented grammar, and its tree is `c`. */
  lemma {:induction false} WriteGrammatical(c: Cmd, end: Option<Token>)
    requires Canonical(c)
    ensures GrammarPhrase(Write(c, end), end) && TreePhrase(Write(c, end)) == c
    decreases c, 2
  {
    if c.Sequence? {
      ItemGrammatical(c.items[0]);
      MoreGrammatical(c.items[1..], end);
      assert [c.items[0]] + c.items[1..] == c.items;
    } else {
      ItemGrammatical(c);
      assert [c] + [] == [c];
    }
  }

  lemma {:induction false} MoreGrammatical(items: seq<Cmd>, end: Option<Token>)
    requires forall i :: 0 <= i < |items| ==> CanonicalItem(items[i])
    ensures GrammarMore(WriteMore(items, end), end) && TreeMore(WriteMore(items, end)) == items
    decreases items, 0
  {
    if items != [] {
      ItemGrammatical(items[0]);
      MoreGrammatical(items[1..], end);
    }
  }

  lemma {:induction false} ItemGrammatical(c: Cmd)
    requires CanonicalItem(c)
    ensures GrammarNode(WriteItem(c)) && TreeNode(WriteItem(c)) == c
    decreases c, 1
  {
    match c
    case Simple(_) =>
    case If(branches, elseBranch) =>
      BranchGrammatical(branches[0]);
      ElseGrammatical(elseBranch);
      ArmsGrammatical(branches[1..], WriteElse(elseBranch));
      assert [branches[0]] + branches[1..] == branches;
    case While(cond, body) =>
      WriteGrammatical(cond, Some(Semi));
      WriteGrammatical(body, Some(Semi));
    case For(_, _, body) => WriteGrammatical(body, Some(Semi));
  }

  lemma {:induction false} BranchGrammatical(b: Branch)
    requires CanonicalBranch(b)
    ensures GrammarClause(WriteBranch(b)) && TreeClause(WriteBranch(b)) == b
    decreases b, 0
  {
    WriteGrammatical(b.cond, Some(Semi));
    WriteGrammatical(b.body, Some(Semi));
  }

  lemma {:induction false} ElseGrammatical(e: Option<Cmd>)
    requires CanonicalElse(e)
    ensures var arms := WriteElse(e); GrammarArms(arms) && TreeBranches(arms) == [] && TreeElse(None, arms) == e
    decreases e, 0
  {
    if e.Some? { WriteGrammatical(e.value, Some(Semi)); }
  }

  lemma {:induction false} ArmsGrammatical(bs: seq<Branch>, last: Arms)
    requires (forall i :: 0 <= i < |bs| ==> CanonicalBranch(bs[i])) && GrammarArms(last) && TreeBranches(last) == []
    ensures var arms := WriteArms(bs, last);
            GrammarArms(arms) && TreeBranches(arms) == bs && TreeElse(None, arms) == TreeElse(None, last)
    decreases bs, 0
  {
    if bs != [] {
      BranchGrammatical(bs[0]);
      ArmsGrammatical(bs[1..], last);
    }
  }

  /** The tokens of a canonical tree, followed by `k`. */
  function Unparse(c: Cmd, k: seq<Token>): seq<Token>
    requires Canonical(c)
  {
    SpellPhrase(Write(c, None), k)
  }

  // ---------- Every tree the parser returns is canonical, in the words of its input ----------

  predicate WordsIn(c: Cmd, vocabulary: iset<string>) {
    match c
    case Simple(words) => AllIn(words, vocabulary)
    case Sequence(items) => forall i :: 0 <= i < |items| ==> WordsIn(items[i], vocabulary)
    case If(branches, elseBranch) =>
      && (forall i :: 0 <= i < |branches| ==>
           WordsIn(branches[i].cond, vocabulary) && WordsIn(branches[i].body, vocabulary))
      && (elseBranch.Some? ==> WordsIn(elseBranch.value, vocabulary))
    case While(cond, body) => WordsIn(cond, vocabulary) && WordsIn(body, vocabulary)
    case For(x, values, body) => x in vocabulary && AllIn(values, vocabulary) && WordsIn(body, vocabulary)
  }

  predicate AllIn(ws: seq<string>, vocabulary: iset<string>) {
    forall i :: 0 <= i < |ws| ==> ws[i] in vocabulary
  }

  /** The words of the tokens all belong to the vocabulary. */
  predicate Speaks(ts: seq<Token>, v: iset<string>) {
    forall i :: 0 <= i < |ts| && ts[i].Word? ==> ts[i].text in v
  }

  predicate GoodCmd(c: Cmd, v: iset<string>) {
    Canonical(c) && WordsIn(c, v)
  }

  predicate GoodItems(items: seq<Cmd>, v: iset<string>) {
    forall i :: 0 <= i < |items| ==> !items[i].Sequence? && GoodCmd(items[i], v)
  }

  predicate GoodBranch(b: Branch, v: iset<string>) {
    GoodCmd(b.cond, v) && GoodCmd(b.body, v)
  }

  predicate GoodBranches(bs: seq<Branch>, v: iset<string>) {
    forall i :: 0 <= i < |bs| ==> GoodBranch(bs[i], v)
  }

  lemma SpeaksParts(a: seq<Token>, b: seq<Token>, v: iset<string>)
    ensures Speaks(a + b, v) <==> Speaks(a, v) && Speaks(b, v)
  {
    assert forall i :: 0 <= i < |a| ==> (a + b)[i] == a[i];
    assert forall i :: 0 <= i < |b| ==> (a + b)[|a| + i] == b[i];
  }

  lemma {:induction false} WordsSpeak(ws: seq<string>, v: iset<string>)
    ensures Speaks(WordTokens(ws), v) <==> AllIn(ws, v)
    decreases |ws|
  {
    if ws != [] {
      WordsSpeak(ws[1..], v);
      SpeaksParts([Word(ws[0])], WordTokens(ws[1..]), v);
      assert [Word(ws[0])][0] == Word(ws[0]);
      assert forall i :: 0 < i < |ws| ==> ws[i] == ws[1..][i - 1];
    }
  }

  /** The tree of a derivation is canonical, in the words of its tokens. */
  lemma {:induction false} PhraseGood(p: Phrase, k: seq<Token>, v: iset<string>)
    requires FormedPhrase(p) && Speaks(SpellPhrase(p, k), v)
    ensures GoodCmd(TreePhrase(p), v) && Speaks(k, v)
    decreases p, 0
  {
    NodeGood(p.first, SpellMore(p.more, k), v);
    MoreGood(p.more, k, v);
  }

  lemma {:induction false} MoreGood(m: More, k: seq<Token>, v: iset<string>)
    requires FormedMore(m) && Speaks(SpellMore(m, k), v)
    ensures GoodItems(TreeMore(m), v) && Speaks(k, v)
    decreases m, 0
  {
    match m
    case End(trailing) => if trailing.Some? { SpeaksParts([trailing.value], k, v); }
    case Next(sep, node, rest) =>
      SpeaksParts([sep], SpellNode(node, SpellMore(rest, k)), v);
      NodeGood(node, SpellMore(rest, k), v);
      MoreGood(rest, k, v);
  }

  lemma {:induction false} BlockGood(b: Block, k: seq<Token>, v: iset<string>)
    requires FormedBlock(b) && Speaks(SpellBlock(b, k), v)
    ensures GoodCmd(TreePhrase(b.list), v) && Speaks(k, v)
    decreases b, 0
  {
    SpeaksParts(b.gap, SpellPhrase(b.list, k), v);
    PhraseGood(b.list, k, v);
  }

  lemma {:induction false} BodyGood(b: Block, k: seq<Token>, v: iset<string>)
    requires FormedBlock(b) && Speaks(SpellBody(b, k), v)
    ensures GoodCmd(TreePhrase(b.list), v) && Speaks(k, v)
    decreases b, 1
  {
    SpeaksParts([KwDo], SpellBlock(b, [KwDone] + k), v);
    BlockGood(b, [KwDone] + k, v);
    SpeaksParts([KwDone], k, v);
  }

  lemma {:induction false} ClauseGood(c: Clause, k: seq<Token>, v: iset<string>)
    requires FormedClause(c) && Speaks(SpellClause(c, k), v)
    ensures GoodBranch(TreeClause(c), v) && Speaks(k, v)
    decreases c, 0
  {
    PhraseGood(c.cond, [KwThen] + SpellBlock(c.body, k), v);
    SpeaksParts([KwThen], SpellBlock(c.body, k), v);
    BlockGood(c.body, k, v);
  }

  lemma {:induction false} ArmsGood(e: Option<Cmd>, arms: Arms, k: seq<Token>, v: iset<string>)
    requires FormedArms(arms) && Speaks(SpellArms(arms, k), v) && (e.Some? ==> GoodCmd(e.value, v))
    ensures GoodBranches(TreeBranches(arms), v) && Speaks(k, v)
    ensures TreeElse(e, arms).Some? ==> GoodCmd(TreeElse(e, arms).value, v)
    decreases arms, 0
  {
    match arms
    case Fi => SpeaksParts([KwFi], k, v);
    case Elif(c, rest) =>
      SpeaksParts([KwElif], SpellClause(c, SpellArms(rest, k)), v);
      ClauseGood(c, SpellArms(rest, k), v);
      ArmsGood(e, rest, k, v);
    case Else(b, rest) =>
      SpeaksParts([KwElse], SpellBlock(b, SpellArms(rest, k)), v);
      BlockGood(b, SpellArms(rest, k), v);
      ArmsGood(Some(TreePhrase(b.list)), rest, k, v);
  }

  lemma {:induction false} NodeGood(n: Node, k: seq<Token>, v: iset<string>)
    requires FormedNode(n) && Speaks(SpellNode(n, k), v)
    ensures GoodCmd(TreeNode(n), v) && !TreeNode(n).Sequence? && Speaks(k, v)
    decreases n, 0
  {
    match n
    case Words(words) =>
      SpeaksParts(WordTokens(words), k, v);
      WordsSpeak(words, v);
    case IfNode(head, arms) =>
      SpeaksParts([KwIf], SpellClause(head, SpellArms(arms, k)), v);
      ClauseGood(head, SpellArms(arms, k), v);
      ArmsGood(None, arms, k, v);
    case WhileNode(cond, body) =>
      SpeaksParts([KwWhile], SpellPhrase(cond, SpellBody(body, k)), v);
      PhraseGood(cond, SpellBody(body, k), v);
      BodyGood(body, k, v);
    case ForNode(x, values, gap, body) =>
      ForSpeaks(x, values, gap, SpellBody(body, k), v);
      BodyGood(body, k, v);
  }

  lemma ForSpeaks(x: string, values: seq<string>, gap: seq<Token>, k: seq<Token>, v: iset<string>)
    requires Separators(gap)
    ensures Speaks([KwFor] + ([Word(x)] + ([KwIn] + (WordTokens(values) + (gap + k)))), v) <==>
            x in v && AllIn(values, v) && Speaks(k, v)
  {
    var inner := WordTokens(values) + (gap + k);
    SpeaksParts([KwFor], [Word(x)] + ([KwIn] + inner), v);
    SpeaksParts([Word(x)], [KwIn] + inner, v);
    SpeaksParts([KwIn], inner, v);
    SpeaksParts(WordTokens(values), gap + k, v);
    SpeaksParts(gap, k, v);
    WordsSpeak(values, v);
    assert [Word(x)][0] == Word(x);
  }

  // ---------- Writing a tree adds no word of its own ----------

  lemma {:induction false} WriteSpeaks(c: Cmd, end: Option<Token>, k: seq<Token>, v: iset<string>)
    requires GoodCmd(c, v) && Speaks(k, v) && (end.Some? ==> end.value == Semi)
    ensures Speaks(SpellPhrase(Write(c, end), k), v)
    decreases c, 2
  {
    if c.Sequence? {
      MoreSpeaks(c.items[1..], end, k, v);
      ItemSpeaks(c.items[0], SpellMore(WriteMore(c.items[1..], end), k), v);
    } else {
      SpeaksParts([Semi], k, v);
      ItemSpeaks(c, SpellMore(End(end), k), v);
    }
  }

  lemma {:induction false} MoreSpeaks(items: seq<Cmd>, end: Option<Token>, k: seq<Token>, v: iset<string>)
    requires GoodItems(items, v) && Speaks(k, v) && (end.Some? ==> end.value == Semi)
    ensures Speaks(SpellMore(WriteMore(items, end), k), v)
    decreases items, 0
  {
    if items == [] {
      SpeaksParts([Semi], k, v);
    } else {
      var rest := SpellMore(WriteMore(items[1..], end), k);
      MoreSpeaks(items[1..], end, k, v);
      ItemSpeaks(items[0], rest, v);
      SpeaksParts([Semi], SpellNode(WriteItem(items[0]), rest), v);
    }
  }

  lemma {:induction false} ItemSpeaks(c: Cmd, k: seq<Token>, v: iset<string>)
    requires GoodCmd(c, v) && !c.Sequence? && Speaks(k, v)
    ensures Speaks(SpellNode(WriteItem(c), k), v)
    decreases c, 1
  {
    match c
    case Simple(words) =>
      WordsSpeak(words, v);
      SpeaksParts(WordTokens(words), k, v);
    case If(branches, elseBranch) =>
      var last := WriteElse(elseBranch);
      var arms := SpellArms(WriteArms(branches[1..], last), k);
      ElseSpeaks(elseBranch, k, v);
      ArmsSpeak(branches[1..], last, k, v);
      BranchSpeaks(branches[0], arms, v);
      SpeaksParts([KwIf], SpellClause(WriteBranch(branches[0]), arms), v);
    case While(cond, body) =>
      var loop := SpellBody(WriteBlock(body), k);
      BodySpeaks(body, k, v);
      WriteSpeaks(cond, Some(Semi), loop, v);
      SpeaksParts([KwWhile], SpellPhrase(Write(cond, Some(Semi)), loop), v);
    case For(x, values, body) =>
      BodySpeaks(body, k, v);
      ForSpeaks(x, values, [Semi], SpellBody(WriteBlock(body), k), v);
  }

  lemma {:induction false} BlockSpeaks(c: Cmd, k: seq<Token>, v: iset<string>)
    requires GoodCmd(c, v) && Speaks(k, v)
    ensures Speaks(SpellBlock(WriteBlock(c), k), v)
    decreases c, 3
  {
    WriteSpeaks(c, Some(Semi), k, v);
    SpeaksParts([], SpellPhrase(Write(c, Some(Semi)), k), v);
  }

  lemma {:induction false} BodySpeaks(c: Cmd, k: seq<Token>, v: iset<string>)
    requires GoodCmd(c, v) && Speaks(k, v)
    ensures Speaks(SpellBody(WriteBlock(c), k), v)
    decreases c, 4
  {
    SpeaksParts([KwDone], k, v);
    BlockSpeaks(c, [KwDone] + k, v);
    SpeaksParts([KwDo], SpellBlock(WriteBlock(c), [KwDone] + k), v);
  }

  lemma {:induction false} BranchSpeaks(b: Branch, k: seq<Token>, v: iset<string>)
    requires GoodBranch(b, v) && Speaks(k, v)
    ensures Speaks(SpellClause(WriteBranch(b), k), v)
    decreases b, 0
  {
    BlockSpeaks(b.body, k, v);
    SpeaksParts([KwThen], SpellBlock(WriteBlock(b.body), k), v);
    WriteSpeaks(b.cond, Some(Semi), [KwThen] + SpellBlock(WriteBlock(b.body), k), v);
  }

  lemma {:induction false} ElseSpeaks(e: Option<Cmd>, k: seq<Token>, v: iset<string>)
    requires (e.Some? ==> GoodCmd(e.value, v)) && Speaks(k, v)
    ensures Speaks(SpellArms(WriteElse(e), k), v)
    decreases e, 0
  {
    SpeaksParts([KwFi], k, v);
    if e.Some? {
      BlockSpeaks(e.value, [KwFi] + k, v);
      SpeaksParts([KwElse], SpellBlock(WriteBlock(e.value), [KwFi] + k), v);
    }
  }

  lemma {:induction false} ArmsSpeak(bs: seq<Branch>, last: Arms, k: seq<Token>, v: iset<string>)
    requires GoodBranches(bs, v) && Speaks(SpellArms(last, k), v)
    ensures Speaks(SpellArms(WriteArms(bs, last), k), v)
    decreases bs, 0
  {
    if bs != [] {
      var rest := SpellArms(WriteArms(bs[1..], last), k);
      ArmsSpeak(bs[1..], last, k, v);
      BranchSpeaks(bs[0], rest, v);
      SpeaksParts([KwElif], SpellClause(WriteBranch(bs[0]), rest), v);
    }
  }

  // ---------- Main results ----------

  /** The words a text can produce: non-empty, and not a keyword. */
  ghost function PlainWords(): iset<string> {
    iset w: string | PlainWord(w)
  }

  lemma LexSpoken(s: string)
    ensures Stream(Lex(s, [])) && Speaks(Lex(s, []), PlainWords())
  {
    LexWellTerminated(s, []);
    var ts := Lex(s, []);
    assert forall i :: 0 <= i < |ts| - 1 ==> ts[i] == ts[..|ts| - 1][i];
  }

  /** `parse(input)`: what the parser answers for a text, and the tokens it did not read. */
  function Parse(s: string): Parsed {
    LexSpoken(s);
    ParseProgram(Lex(s, []))
  }

  method ParseText(input: string) returns (r: Result<Cmd, ParseError>)
    ensures match Parse(input) case Parsed(c, _) => r == Ok(c) case Failed(e) => r == Err(e)
  {
    var parser := new Parser(input);
    r := parser.Program();
  }

  /** A text for a tree. */
  function Text(c: Cmd): string
    requires Canonical(c)
  {
    Render(Unparse(c, [Eof]))
  }

  /** The trees some text stands for. */
  ghost predicate Writable(c: Cmd) {
    Canonical(c) && WordsIn(c, PlainWords())
  }

  /** Tokens of a canonical tree are a sentence, parse back to exactly that tree, and are all consumed. */
  lemma UnparseParses(c: Cmd)
    requires Canonical(c)
    ensures Sentence(Unparse(c, [Eof]))
    ensures Stream(Unparse(c, [Eof])) && ParseProgram(Unparse(c, [Eof])) == Parsed(c, [Eof])
  {
    WriteGrammatical(c, None);
    SentenceParses(Write(c, None));
  }

  lemma {:induction false} RenderEof(ts: seq<Token>)
    ensures Render(ts + [Eof]) == Render(ts)
    decreases |ts|
  {
    if ts != [] {
      assert (ts + [Eof])[1..] == ts[1..] + [Eof];
      RenderEof(ts[1..]);
    }
  }

  /** Text of a writable tree parses back to exactly that tree, and is all consumed. */
  lemma TextParses(c: Cmd)
    requires Writable(c)
    ensures Parse(Text(c)) == Parsed(c, [Eof])
  {
    UnparseParses(c);
    WriteSpeaks(c, None, [Eof], PlainWords());
    SpokenLexes(Unparse(c, [Eof]));
  }

  lemma SpokenLexes(ts: seq<Token>)
    requires Stream(ts) && Speaks(ts, PlainWords())
    ensures Lex(Render(ts), []) == ts
  {
    var inner := ts[..|ts| - 1];
    assert forall i :: 0 <= i < |inner| ==> inner[i] == ts[i];
    assert ts == inner + [Eof];
    LexRender(inner);
    RenderEof(inner);
  }

  lemma ParseWritable(s: string)
    ensures Parse(s).Parsed? ==> Writable(Parse(s).cmd)
  {
    LexSpoken(s);
    if Parse(s).Parsed? {
      var gap, p := ParsedDerives(Lex(s, []));
      SpeaksParts(gap, SpellPhrase(p, Parse(s).rest), PlainWords());
      PhraseGood(p, Parse(s).rest, PlainWords());
    }
  }

  /** The parser's image: a tree is the answer for some text exactly when it is writable. */
  lemma ParserImage(c: Cmd)
    ensures (exists s :: Parse(s).Parsed? && Parse(s).cmd == c) <==> Writable(c)
  {
    if Writable(c) {
      TextParses(c);
    }
    forall s | Parse(s).Parsed? && Parse(s).cmd == c
      ensures Writable(c)
    {
      ParseWritable(s);
    }
  }

  /** Writing a parsed tree out and parsing it again changes nothing. */
  lemma ParseStable(s: string)
    requires Parse(s).Parsed?
    ensures Canonical(Parse(s).cmd) && Parse(Text(Parse(s).cmd)) == Parsed(Parse(s).cmd, [Eof])
  {
    ParseWritable(s);
    TextParses(Parse(s).cmd);
  }
}
