/**
  What the shell parser accepts, exactly. A derivation records how a stretch of tokens is made
  up, separators and every `else` included. The parser succeeds on the tokens that have a
  derivation and on no others, each stream has one derivation, and the grammar the source
  documents is a condition on it.
*/
module ShellGrammar {
  import opened Wrappers
  import opened ShellLexer
  import opened ShellParser

  // ---------- Derivations ----------

  /** A list: a command and what follows it. */
  datatype Phrase = Phrase(first: Node, more: More)

  /** Further commands, each behind one separator, and at the end perhaps one separator more. */
  datatype More = End(trailing: Option<Token>) | Next(sep: Token, node: Node, rest: More)

  /** Separators after a keyword, then a list. */
  datatype Block = Block(gap: seq<Token>, list: Phrase)

  /** A condition, `then`, and a body. */
  datatype Clause = Clause(cond: Phrase, body: Block)

  datatype Arms = Fi | Elif(clause: Clause, rest: Arms) | Else(body: Block, rest: Arms)

  datatype Node =
    | Words(words: seq<string>)
    | IfNode(head: Clause, arms: Arms)
    | WhileNode(cond: Phrase, body: Block)
    | ForNode(variable: string, values: seq<string>, gap: seq<Token>, body: Block)

  predicate Separators(ts: seq<Token>) { forall i :: 0 <= i < |ts| ==> IsSeparator(ts[i]) }

  predicate FormedPhrase(p: Phrase) { FormedNode(p.first) && FormedMore(p.more) }

  predicate FormedMore(m: More) {
    match m
    case End(trailing) => trailing.Some? ==> IsSeparator(trailing.value)
    case Next(sep, node, rest) => IsSeparator(sep) && FormedNode(node) && FormedMore(rest)
  }

  predicate FormedBlock(b: Block) { Separators(b.gap) && FormedPhrase(b.list) }

  predicate FormedClause(c: Clause) { FormedPhrase(c.cond) && FormedBlock(c.body) }

  predicate FormedArms(arms: Arms) {
    match arms
    case Fi => true
    case Elif(c, rest) => FormedClause(c) && FormedArms(rest)
    case Else(b, rest) => FormedBlock(b) && FormedArms(rest)
  }

  predicate FormedNode(n: Node) {
    match n
    case Words(words) => words != []
    case IfNode(head, arms) => FormedClause(head) && FormedArms(arms)
    case WhileNode(cond, body) => FormedPhrase(cond) && FormedBlock(body)
    case ForNode(_, _, gap, body) => Separators(gap) && FormedBlock(body)
  }

  // ---------- The tokens of a derivation, followed by `k` ----------

  function WordTokens(ws: seq<string>): seq<Token> {
    if ws == [] then [] else [Word(ws[0])] + WordTokens(ws[1..])
  }

  function SpellPhrase(p: Phrase, k: seq<Token>): seq<Token>
    decreases p, 0
  {
    SpellNode(p.first, SpellMore(p.more, k))
  }

  function SpellMore(m: More, k: seq<Token>): seq<Token>
    decreases m, 0
  {
    match m
    case End(trailing) => if trailing.Some? then [trailing.value] + k else k
    case Next(sep, node, rest) => [sep] + SpellNode(node, SpellMore(rest, k))
  }

  function SpellBlock(b: Block, k: seq<Token>): seq<Token>
    decreases b, 0
  {
    b.gap + SpellPhrase(b.list, k)
  }

  /** The body of a loop. */
  function SpellBody(b: Block, k: seq<Token>): seq<Token>
    decreases b, 1
  {
    [KwDo] + SpellBlock(b, [KwDone] + k)
  }

  function SpellClause(c: Clause, k: seq<Token>): seq<Token>
    decreases c, 0
  {
    SpellPhrase(c.cond, [KwThen] + SpellBlock(c.body, k))
  }

  function SpellArms(arms: Arms, k: seq<Token>): seq<Token>
    decreases arms, 0
  {
    match arms
    case Fi => [KwFi] + k
    case Elif(c, rest) => [KwElif] + SpellClause(c, SpellArms(rest, k))
    case Else(b, rest) => [KwElse] + SpellBlock(b, SpellArms(rest, k))
  }

  function SpellNode(n: Node, k: seq<Token>): seq<Token>
    decreases n, 0
  {
    match n
    case Words(words) => WordTokens(words) + k
    case IfNode(head, arms) => [KwIf] + SpellClause(head, SpellArms(arms, k))
    case WhileNode(cond, body) => [KwWhile] + SpellPhrase(cond, SpellBody(body, k))
    case ForNode(x, values, gap, body) =>
      [KwFor] + ([Word(x)] + ([KwIn] + (WordTokens(values) + (gap + SpellBody(body, k)))))
  }

  // ---------- The tree of a derivation ----------

  function TreePhrase(p: Phrase): Cmd { Collect([TreeNode(p.first)] + TreeMore(p.more)) }

  function TreeMore(m: More): seq<Cmd> {
    match m
    case End(_) => []
    case Next(_, node, rest) => [TreeNode(node)] + TreeMore(rest)
  }

  function TreeClause(c: Clause): Branch { Branch(TreePhrase(c.cond), TreePhrase(c.body.list)) }

  /** The branches of the arms, in order. */
  function TreeBranches(arms: Arms): seq<Branch> {
    match arms
    case Fi => []
    case Elif(c, rest) => [TreeClause(c)] + TreeBranches(rest)
    case Else(_, rest) => TreeBranches(rest)
  }

  /** The last `else` of the arms, or `e` when there is none. */
  function TreeElse(e: Option<Cmd>, arms: Arms): Option<Cmd>
    decreases arms
  {
    match arms
    case Fi => e
    case Elif(_, rest) => TreeElse(e, rest)
    case Else(b, rest) => TreeElse(Some(TreePhrase(b.list)), rest)
  }

  function TreeNode(n: Node): Cmd {
    match n
    case Words(words) => Simple(words)
    case IfNode(head, arms) => If([TreeClause(head)] + TreeBranches(arms), TreeElse(None, arms))
    case WhileNode(cond, body) => While(TreePhrase(cond), TreePhrase(body.list))
    case ForNode(x, values, _, body) => For(x, values, TreePhrase(body.list))
  }

  lemma TreeNext(items: seq<Cmd>, sep: Token, n: Node, m: More)
    ensures (items + [TreeNode(n)]) + TreeMore(m) == items + TreeMore(Next(sep, n, m))
  {
  }

  lemma TreeElif(bs: seq<Branch>, c: Clause, arms: Arms)
    ensures (bs + [TreeClause(c)]) + TreeBranches(arms) == bs + TreeBranches(Elif(c, arms))
  {
  }

  // ---------- Where a list can stop ----------

  function LastNode(n: Node, m: More): Node
    decreases m
  {
    if m.End? then n else LastNode(m.node, m.rest)
  }

  function Trailing(m: More): Option<Token> { if m.End? then m.trailing else Trailing(m.rest) }

  /** A list of `n` and `m` ends before the token `t`. */
  predicate StopsAfter(n: Node, m: More, t: Token) {
    if Trailing(m).Some? then IsTerminator(t) else !IsSeparator(t) && (LastNode(n, m).Words? ==> !t.Word?)
  }

  predicate Stops(p: Phrase, t: Token) { StopsAfter(p.first, p.more, t) }

  // ---------- Every derivation parses to its tree ----------

  predicate StartsCommand(ts: seq<Token>) {
    Stream(ts) && (ts[0].Word? || ts[0] == KwIf || ts[0] == KwWhile || ts[0] == KwFor)
  }

  lemma StreamCons(t: Token, ts: seq<Token>)
    requires t != Eof && Stream(ts)
    ensures Stream([t] + ts) && ([t] + ts)[1..] == ts
  {
  }

  lemma {:induction false} WordsBack(ws: seq<string>, k: seq<Token>)
    requires Stream(k) && !k[0].Word?
    ensures Stream(WordTokens(ws) + k)
    ensures TakeWords(WordTokens(ws) + k).0 == ws && TakeWords(WordTokens(ws) + k).1 == k
    decreases |ws|
  {
    if ws == [] {
      assert WordTokens(ws) + k == k;
    } else {
      WordsBack(ws[1..], k);
      WordFirst(ws[0], WordTokens(ws[1..]) + k);
      WordsSplit(ws, k);
    }
  }

  lemma WordsSplit(ws: seq<string>, k: seq<Token>)
    requires ws != []
    ensures WordTokens(ws) + k == [Word(ws[0])] + (WordTokens(ws[1..]) + k) && [ws[0]] + ws[1..] == ws
  {
  }

  lemma WordFirst(w: string, ts: seq<Token>)
    requires Stream(ts)
    ensures Stream([Word(w)] + ts)
    ensures TakeWords([Word(w)] + ts).0 == [w] + TakeWords(ts).0 && TakeWords([Word(w)] + ts).1 == TakeWords(ts).1
  {
    StreamCons(Word(w), ts);
  }

  lemma {:induction false} GapSkipped(gap: seq<Token>, k: seq<Token>)
    requires Separators(gap) && Stream(k) && !IsSeparator(k[0])
    ensures Stream(gap + k) && SkipSeparators(gap + k) == k
    decreases |gap|
  {
    if gap == [] {
      assert gap + k == k;
    } else {
      GapSkipped(gap[1..], k);
      StreamCons(gap[0], gap[1..] + k);
      assert gap + k == [gap[0]] + (gap[1..] + k);
    }
  }

  lemma {:induction false} NodeParses(n: Node, k: seq<Token>)
    requires FormedNode(n) && Stream(k) && (n.Words? ==> !k[0].Word?)
    ensures StartsCommand(SpellNode(n, k)) && ParseItem(SpellNode(n, k)) == Parsed(TreeNode(n), k)
    decreases n, 0
  {
    match n
    case Words(words) =>
      WordsBack(words, k);
      assert WordTokens(words)[0].Word?;
    case IfNode(head, arms) =>
      ArmsParse([TreeClause(head)], None, arms, k);
      var ts := SpellArms(arms, k);
      ClauseParses(head, IfExpectedThen, ts);
      StreamCons(KwIf, SpellClause(head, ts));
    case WhileNode(cond, body) =>
      var ts := SpellBody(body, k);
      BodyParses(body, WhileLoop, [], k);
      assert [] + ts == ts;
      PhraseParses(cond, ts);
      WhileStep(SpellPhrase(cond, ts), TreePhrase(cond), ts, TreePhrase(body.list), k);
    case ForNode(x, values, gap, body) =>
      var ts := gap + SpellBody(body, k);
      BodyParses(body, ForLoop, gap, k);
      WordsBack(values, ts);
      ForStep(x, values, WordTokens(values) + ts, ts, TreePhrase(body.list), k);
  }

  lemma WhileStep(ts: seq<Token>, cond: Cmd, after: seq<Token>, body: Cmd, k: seq<Token>)
    requires Stream(ts) && Stream(after)
    requires ParseList(ts) == Parsed(cond, after) && ParseBody(after, WhileLoop) == Parsed(body, k)
    ensures Stream([KwWhile] + ts) && ParseItem([KwWhile] + ts) == Parsed(While(cond, body), k)
  {
    StreamCons(KwWhile, ts);
  }

  /** The head of a `for`, before values and a body that parse. */
  lemma ForStep(x: string, values: seq<string>, vs: seq<Token>, after: seq<Token>, body: Cmd, k: seq<Token>)
    requires Stream(vs) && Stream(after) && TakeWords(vs) == (values, after)
    requires ParseBody(after, ForLoop) == Parsed(body, k)
    ensures var ts := [KwFor] + ([Word(x)] + ([KwIn] + vs));
            Stream(ts) && ParseItem(ts) == Parsed(For(x, values, body), k)
  {
    var named := [Word(x)] + ([KwIn] + vs);
    StreamCons(KwIn, vs);
    StreamCons(Word(x), [KwIn] + vs);
    StreamCons(KwFor, named);
    ForHead(x, [KwFor] + named, named, [KwIn] + vs);
  }

  lemma ForHead(x: string, ts: seq<Token>, ts1: seq<Token>, ts2: seq<Token>)
    requires Stream(ts) && ts[0] == KwFor && ts[1..] == ts1
    requires Stream(ts1) && ts1[0] == Word(x) && ts1[1..] == ts2
    requires Stream(ts2) && ts2[0] == KwIn
    ensures ParseItem(ts) == ParseForValues(x, ts2[1..])
  {
  }

  lemma {:induction false} PhraseParses(p: Phrase, k: seq<Token>)
    requires FormedPhrase(p) && Stream(k) && Stops(p, k[0])
    ensures StartsCommand(SpellPhrase(p, k)) && ParseList(SpellPhrase(p, k)) == Parsed(TreePhrase(p), k)
    decreases p, 1
  {
    var ts := SpellMore(p.more, k);
    MoreParses(p.first, [TreeNode(p.first)], p.more, k);
    NodeParses(p.first, ts);
  }

  function Collected(items: seq<Cmd>, k: seq<Token>): Parsed
    requires items != []
  {
    Parsed(Collect(items), k)
  }

  /** What follows a command, with the commands read before it. */
  lemma {:induction false} MoreParses(n: Node, items: seq<Cmd>, m: More, k: seq<Token>)
    requires FormedMore(m) && Stream(k) && StopsAfter(n, m, k[0]) && items != []
    ensures var ts := SpellMore(m, k);
            && Stream(ts) && (n.Words? ==> !ts[0].Word?)
            && ParseMore(items, ts) == Collected(items + TreeMore(m), k)
    decreases m, 1
  {
    match m
    case End(trailing) =>
      assert items + TreeMore(m) == items;
      MoreEnds(n, items, trailing, k);
    case Next(sep, node, rest) =>
      var ts := SpellMore(rest, k);
      MoreParses(node, items + [TreeNode(node)], rest, k);
      NodeParses(node, ts);
      MoreStep(items, sep, SpellNode(node, ts), TreeNode(node), ts);
      TreeNext(items, sep, node, rest);
  }

  lemma MoreEnds(n: Node, items: seq<Cmd>, trailing: Option<Token>, k: seq<Token>)
    requires FormedMore(End(trailing)) && Stream(k) && StopsAfter(n, End(trailing), k[0]) && items != []
    ensures var ts := SpellMore(End(trailing), k);
            Stream(ts) && (n.Words? ==> !ts[0].Word?) && ParseMore(items, ts) == Collected(items, k)
  {
    if trailing.Some? { StreamCons(trailing.value, k); }
  }

  lemma MoreStep(items: seq<Cmd>, sep: Token, ts: seq<Token>, c: Cmd, after: seq<Token>)
    requires items != [] && IsSeparator(sep) && StartsCommand(ts) && Stream(after) && ParseItem(ts) == Parsed(c, after)
    ensures Stream([sep] + ts) && ParseMore(items, [sep] + ts) == ParseMore(items + [c], after)
  {
    StreamCons(sep, ts);
  }

  /** A list before a closing keyword. */
  lemma {:induction false} BlockParses(b: Block, k: seq<Token>)
    requires FormedBlock(b) && Stream(k) && IsTerminator(k[0])
    ensures Stream(SpellBlock(b, k)) && ParseList(SkipSeparators(SpellBlock(b, k))) == Parsed(TreePhrase(b.list), k)
    decreases b, 1
  {
    PhraseParses(b.list, k);
    GapSkipped(b.gap, SpellPhrase(b.list, k));
  }

  lemma {:induction false} ClauseParses(c: Clause, error: ParseError, k: seq<Token>)
    requires FormedClause(c) && Stream(k) && IsTerminator(k[0])
    ensures Stream(SpellClause(c, k)) && ParseBranch(SpellClause(c, k), error) == Group(TreeClause(c), k)
    decreases c, 1
  {
    BlockParses(c.body, k);
    StreamCons(KwThen, SpellBlock(c.body, k));
    PhraseParses(c.cond, [KwThen] + SpellBlock(c.body, k));
  }

  lemma {:induction false} BodyParses(b: Block, what: LoopKind, gap: seq<Token>, k: seq<Token>)
    requires FormedBlock(b) && Separators(gap) && Stream(k)
    ensures var ts := gap + SpellBody(b, k);
            && Stream(SpellBody(b, k)) && SpellBody(b, k)[0] == KwDo && Stream(ts) && !ts[0].Word?
            && ParseBody(ts, what) == Parsed(TreePhrase(b.list), k)
    decreases b, 2
  {
    var end := [KwDone] + k;
    StreamCons(KwDone, k);
    BlockParses(b, end);
    BodyStep(gap, SpellBlock(b, end), TreePhrase(b.list), what, end, k);
  }

  lemma BodyStep(gap: seq<Token>, ts: seq<Token>, body: Cmd, what: LoopKind, end: seq<Token>, k: seq<Token>)
    requires Separators(gap) && Stream(ts) && Stream(end) && end[0] == KwDone && end[1..] == k
    requires ParseList(SkipSeparators(ts)) == Parsed(body, end)
    ensures Stream([KwDo] + ts) && Stream(gap + ([KwDo] + ts)) && !(gap + ([KwDo] + ts))[0].Word?
    ensures ParseBody(gap + ([KwDo] + ts), what) == Parsed(body, k)
  {
    StreamCons(KwDo, ts);
    GapSkipped(gap, [KwDo] + ts);
    assert gap != [] ==> (gap + ([KwDo] + ts))[0] == gap[0];
    assert SkipSeparators(end) == end;
  }

  lemma {:induction false} ArmsParse(bs: seq<Branch>, e: Option<Cmd>, arms: Arms, k: seq<Token>)
    requires FormedArms(arms) && Stream(k)
    ensures var ts := SpellArms(arms, k);
            && Stream(ts) && IsTerminator(ts[0])
            && ParseArms(bs, e, ts) == Parsed(If(bs + TreeBranches(arms), TreeElse(e, arms)), k)
    decreases arms, 1
  {
    match arms
    case Fi =>
      StreamCons(KwFi, k);
      assert bs + [] == bs;
    case Elif(c, rest) =>
      var ts := SpellArms(rest, k);
      ArmsParse(bs + [TreeClause(c)], e, rest, k);
      ClauseParses(c, ElifExpectedThen, ts);
      ElifStep(bs, e, SpellClause(c, ts), TreeClause(c), ts);
      TreeElif(bs, c, rest);
    case Else(b, rest) =>
      var ts := SpellArms(rest, k);
      ArmsParse(bs, Some(TreePhrase(b.list)), rest, k);
      BlockParses(b, ts);
      ElseStep(bs, e, SpellBlock(b, ts), TreePhrase(b.list), ts);
  }

  lemma ElifStep(bs: seq<Branch>, e: Option<Cmd>, ts: seq<Token>, b: Branch, after: seq<Token>)
    requires Stream(ts) && Stream(after) && ParseBranch(ts, ElifExpectedThen) == Group(b, after)
    ensures Stream([KwElif] + ts) && ParseArms(bs, e, [KwElif] + ts) == ParseArms(bs + [b], e, after)
  {
    StreamCons(KwElif, ts);
  }

  lemma ElseStep(bs: seq<Branch>, e: Option<Cmd>, ts: seq<Token>, body: Cmd, after: seq<Token>)
    requires Stream(ts) && Stream(after) && ParseList(SkipSeparators(ts)) == Parsed(body, after)
    ensures Stream([KwElse] + ts) && ParseArms(bs, e, [KwElse] + ts) == ParseArms(bs, Some(body), after)
  {
    StreamCons(KwElse, ts);
  }

  // ---------- Every success is a derivation ----------

  /** A list never stops before a separator. */
  lemma {:induction false} ListStopsClean(ts: seq<Token>)
    requires Stream(ts) && ParseList(ts).Parsed?
    ensures !IsSeparator(ParseList(ts).rest[0])
  {
    var first := ParseItem(ts);
    MoreStopsClean([first.cmd], first.rest);
  }

  lemma {:induction false} MoreStopsClean(items: seq<Cmd>, ts: seq<Token>)
    requires Stream(ts) && items != [] && ParseMore(items, ts).Parsed?
    ensures !IsSeparator(ParseMore(items, ts).rest[0])
    decreases |ts|
  {
    if IsSeparator(ts[0]) && !IsTerminator(ts[1]) {
      var next := ParseItem(ts[1..]);
      MoreStopsClean(items + [next.cmd], next.rest);
    }
  }

  lemma {:induction false} SkipSplits(ts: seq<Token>)
    requires Stream(ts)
    ensures var n := |ts| - |SkipSeparators(ts)|; Separators(ts[..n]) && ts[n..] == SkipSeparators(ts)
    decreases |ts|
  {
    if IsSeparator(ts[0]) {
      SkipSplits(ts[1..]);
      var n := |ts| - |SkipSeparators(ts)|;
      assert ts[1..][n - 1..] == ts[n..] && ts[..n] == [ts[0]] + ts[1..][..n - 1];
    }
  }

  lemma GapOf(ts: seq<Token>) returns (gap: seq<Token>)
    requires Stream(ts)
    ensures Separators(gap) && ts == gap + SkipSeparators(ts)
  {
    SkipSplits(ts);
    gap := ts[..|ts| - |SkipSeparators(ts)|];
  }

  lemma {:induction false} WordsOf(ts: seq<Token>)
    requires Stream(ts)
    ensures ts == WordTokens(TakeWords(ts).0) + TakeWords(ts).1
    decreases |ts|
  {
    if ts[0].Word? {
      WordsOf(ts[1..]);
      WordsGlue(ts, TakeWords(ts[1..]).0, TakeWords(ts[1..]).1);
    }
  }

  lemma WordsGlue(ts: seq<Token>, ws: seq<string>, k: seq<Token>)
    requires ts != [] && ts[0].Word? && ts[1..] == WordTokens(ws) + k
    ensures ts == WordTokens([ts[0].text] + ws) + k
  {
    assert ([ts[0].text] + ws)[1..] == ws;
    assert ts == [ts[0]] + ts[1..];
  }

  /** The derivation of a list that parsed. */
  lemma {:induction false} PhraseOf(ts: seq<Token>) returns (p: Phrase)
    requires Stream(ts) && ParseList(ts).Parsed?
    ensures var r := ParseList(ts);
            && FormedPhrase(p) && TreePhrase(p) == r.cmd && Stream(r.rest) && Stops(p, r.rest[0])
            && ts == SpellPhrase(p, r.rest)
    decreases |ts|, 3
  {
    var first := ParseItem(ts);
    var n := NodeOf(ts);
    var m := MoreOf(n, [first.cmd], first.rest);
    p := Phrase(n, m);
  }

  lemma {:induction false} MoreOf(n: Node, items: seq<Cmd>, ts: seq<Token>) returns (m: More)
    requires Stream(ts) && items != [] && ParseMore(items, ts).Parsed? && (n.Words? ==> !ts[0].Word?)
    ensures var r := ParseMore(items, ts);
            && FormedMore(m) && r.cmd == Collect(items + TreeMore(m)) && Stream(r.rest) && StopsAfter(n, m, r.rest[0])
            && ts == SpellMore(m, r.rest)
    decreases |ts|, 3
  {
    if !IsSeparator(ts[0]) {
      m := End(None);
      assert items + TreeMore(m) == items;
    } else if IsTerminator(ts[1]) {
      m := End(Some(ts[0]));
      assert items + TreeMore(m) == items;
      assert ts == [ts[0]] + ts[1..];
    } else {
      var next := ParseItem(ts[1..]);
      MoreSplit(items, ts);
      var node := NodeOf(ts[1..]);
      var rest := MoreOf(node, items + [next.cmd], next.rest);
      m := Next(ts[0], node, rest);
      TreeNext(items, ts[0], node, rest);
      MoreGlue(ts, node, rest, next.rest, ParseMore(items, ts).rest);
    }
  }

  lemma MoreSplit(items: seq<Cmd>, ts: seq<Token>)
    requires Stream(ts) && items != [] && ParseMore(items, ts).Parsed? && IsSeparator(ts[0]) && !IsTerminator(ts[1])
    ensures Stream(ts[1..])
    ensures var next := ParseItem(ts[1..]);
            next.Parsed? && Stream(next.rest) && ParseMore(items, ts) == ParseMore(items + [next.cmd], next.rest)
  {
  }

  lemma MoreGlue(ts: seq<Token>, node: Node, rest: More, after: seq<Token>, k: seq<Token>)
    requires ts != [] && ts[1..] == SpellNode(node, after) && after == SpellMore(rest, k)
    ensures ts == SpellMore(Next(ts[0], node, rest), k)
  {
    assert ts == [ts[0]] + ts[1..];
  }

  lemma {:induction false} NodeOf(ts: seq<Token>) returns (n: Node)
    requires Stream(ts) && ParseItem(ts).Parsed?
    ensures var r := ParseItem(ts);
            && FormedNode(n) && TreeNode(n) == r.cmd && Stream(r.rest) && (n.Words? ==> !r.rest[0].Word?)
            && ts == SpellNode(n, r.rest)
    decreases |ts|, 2
  {
    assert ts == [ts[0]] + ts[1..];
    if ts[0] == KwIf {
      n := IfOf(ts);
    } else if ts[0] == KwWhile {
      n := WhileOf(ts);
    } else if ts[0] == KwFor {
      n := ForOf(ts);
    } else {
      WordsOf(ts);
      n := Words(TakeWords(ts).0);
    }
  }

  lemma {:induction false} IfOf(ts: seq<Token>) returns (n: Node)
    requires Stream(ts) && ts[0] == KwIf && ParseIf(ts).Parsed?
    ensures var r := ParseIf(ts);
            n.IfNode? && FormedNode(n) && TreeNode(n) == r.cmd && Stream(r.rest) && ts == SpellNode(n, r.rest)
    decreases |ts|, 1
  {
    var g := ParseBranch(ts[1..], IfExpectedThen);
    var head := ClauseOf(ts[1..], IfExpectedThen);
    var arms := ArmsOf([g.branch], None, g.rest);
    n := IfNode(head, arms);
    assert ts == [KwIf] + ts[1..];
  }

  lemma {:induction false} WhileOf(ts: seq<Token>) returns (n: Node)
    requires Stream(ts) && ts[0] == KwWhile && ParseWhile(ts).Parsed?
    ensures var r := ParseWhile(ts);
            n.WhileNode? && FormedNode(n) && TreeNode(n) == r.cmd && Stream(r.rest) && ts == SpellNode(n, r.rest)
    decreases |ts|, 1
  {
    var cond := PhraseOf(ts[1..]);
    var after := ParseList(ts[1..]).rest;
    var gap, body := BodyOf(after, WhileLoop);
    n := WhileNode(cond, body);
    WhileGlue(ts, cond, after, gap, body, ParseWhile(ts).rest);
  }

  /** A condition stops before no separator, so nothing lies between it and `do`. */
  lemma WhileGlue(ts: seq<Token>, cond: Phrase, after: seq<Token>, gap: seq<Token>, body: Block, k: seq<Token>)
    requires ts != [] && ts[0] == KwWhile && ts[1..] == SpellPhrase(cond, after)
    requires after != [] && !IsSeparator(after[0]) && Separators(gap) && after == gap + SpellBody(body, k)
    ensures ts == SpellNode(WhileNode(cond, body), k)
  {
    assert after == SpellBody(body, k);
    assert ts == [KwWhile] + ts[1..];
  }

  lemma {:induction false} ForOf(ts: seq<Token>) returns (n: Node)
    requires Stream(ts) && ts[0] == KwFor && ParseFor(ts).Parsed?
    ensures var r := ParseFor(ts);
            n.ForNode? && FormedNode(n) && TreeNode(n) == r.cmd && Stream(r.rest) && ts == SpellNode(n, r.rest)
    decreases |ts|, 1
  {
    var x, vs := ForSplit(ts);
    WordsOf(vs);
    var gap, body := BodyOf(TakeWords(vs).1, ForLoop);
    n := ForNode(x, TakeWords(vs).0, gap, body);
  }

  lemma ForSplit(ts: seq<Token>) returns (x: string, vs: seq<Token>)
    requires Stream(ts) && ts[0] == KwFor && ParseFor(ts).Parsed?
    ensures ts == [KwFor] + ([Word(x)] + ([KwIn] + vs)) && Stream(vs)
    ensures ParseFor(ts) == ParseForValues(x, vs)
  {
    var ts1 := ts[1..];
    StreamTail(ts);
    StreamTail(ts1);
    StreamTail(ts1[1..]);
    x, vs := ts1[0].text, ts1[1..][1..];
    assert ts1[1..] == [KwIn] + vs;
    assert ts1 == [Word(x)] + ts1[1..];
  }

  /** The block after `then`, `else` or `do`. */
  lemma {:induction false} BlockOf(ts: seq<Token>) returns (b: Block)
    requires Stream(ts) && ParseList(SkipSeparators(ts)).Parsed?
    ensures var r := ParseList(SkipSeparators(ts));
            && FormedBlock(b) && TreePhrase(b.list) == r.cmd && Stream(r.rest) && Stops(b.list, r.rest[0])
            && ts == SpellBlock(b, r.rest)
    decreases |ts|, 4
  {
    var gap := GapOf(ts);
    var p := PhraseOf(SkipSeparators(ts));
    b := Block(gap, p);
  }

  lemma {:induction false} BodyOf(ts: seq<Token>, what: LoopKind) returns (gap: seq<Token>, b: Block)
    requires Stream(ts) && ParseBody(ts, what).Parsed?
    ensures var r := ParseBody(ts, what);
            && Separators(gap) && FormedBlock(b) && TreePhrase(b.list) == r.cmd && Stream(r.rest)
            && ts == gap + SpellBody(b, r.rest)
    decreases |ts|, 5
  {
    gap := GapOf(ts);
    var ts1, end := BodySplit(ts, what);
    b := BlockOf(ts1);
    BodyGlue(SkipSeparators(ts), b, end);
  }

  lemma BodySplit(ts: seq<Token>, what: LoopKind) returns (ts1: seq<Token>, end: seq<Token>)
    requires Stream(ts) && ParseBody(ts, what).Parsed?
    ensures Stream(ts1) && |ts1| < |ts| && SkipSeparators(ts) == [KwDo] + ts1
    ensures Stream(end) && end[0] == KwDone && ParseList(SkipSeparators(ts1)) == Parsed(ParseBody(ts, what).cmd, end)
    ensures ParseBody(ts, what).rest == end[1..]
    decreases |ts|, 4
  {
    ts1 := SkipSeparators(ts)[1..];
    end := ParseList(SkipSeparators(ts1)).rest;
    ListStopsClean(SkipSeparators(ts1));
    assert SkipSeparators(end) == end;
  }

  lemma BodyGlue(ts: seq<Token>, b: Block, end: seq<Token>)
    requires ts == [KwDo] + SpellBlock(b, end) && end != [] && end[0] == KwDone
    ensures ts == SpellBody(b, end[1..])
  {
    assert end == [KwDone] + end[1..];
  }

  lemma {:induction false} ClauseOf(ts: seq<Token>, error: ParseError) returns (c: Clause)
    requires Stream(ts) && ParseBranch(ts, error).Group?
    ensures var g := ParseBranch(ts, error);
            && FormedClause(c) && TreeClause(c) == g.branch && Stream(g.rest) && !IsSeparator(g.rest[0])
            && ts == SpellClause(c, g.rest)
    decreases |ts|, 5
  {
    var cond := PhraseOf(ts);
    var after := ClauseSplit(ts, error);
    var body := BlockOf(after);
    c := Clause(cond, body);
  }

  lemma ClauseSplit(ts: seq<Token>, error: ParseError) returns (after: seq<Token>)
    requires Stream(ts) && ParseBranch(ts, error).Group?
    ensures var g := ParseBranch(ts, error);
            && Stream(after) && |after| < |ts| && ParseList(ts) == Parsed(g.branch.cond, [KwThen] + after)
            && ParseList(SkipSeparators(after)) == Parsed(g.branch.body, g.rest)
    decreases |ts|, 4
  {
    var end := ParseList(ts).rest;
    ListStopsClean(ts);
    assert SkipSeparators(end) == end;
    after := end[1..];
    assert end == [KwThen] + after;
  }

  lemma {:induction false} ArmsOf(bs: seq<Branch>, e: Option<Cmd>, ts: seq<Token>) returns (arms: Arms)
    requires Stream(ts) && !IsSeparator(ts[0]) && ParseArms(bs, e, ts).Parsed?
    ensures var r := ParseArms(bs, e, ts);
            && FormedArms(arms) && r.cmd == If(bs + TreeBranches(arms), TreeElse(e, arms)) && Stream(r.rest)
            && ts == SpellArms(arms, r.rest)
    decreases |ts|, 6
  {
    ArmsSplit(bs, e, ts);
    if ts[0] == KwElif {
      var g := ParseBranch(ts[1..], ElifExpectedThen);
      var c := ClauseOf(ts[1..], ElifExpectedThen);
      var rest := ArmsOf(bs + [g.branch], e, g.rest);
      arms := Elif(c, rest);
      TreeElif(bs, c, rest);
    } else if ts[0] == KwElse {
      var body := ParseList(SkipSeparators(ts[1..]));
      var b := BlockOf(ts[1..]);
      var rest := ArmsOf(bs, Some(body.cmd), body.rest);
      arms := Else(b, rest);
    } else {
      arms := Fi;
      assert bs + TreeBranches(Fi) == bs;
    }
  }

  lemma ArmsSplit(bs: seq<Branch>, e: Option<Cmd>, ts: seq<Token>)
    requires Stream(ts) && !IsSeparator(ts[0]) && ParseArms(bs, e, ts).Parsed?
    ensures Stream(ts[1..]) && ts == [ts[0]] + ts[1..]
    ensures ts[0] == KwElif || ts[0] == KwElse || ts[0] == KwFi
    ensures ts[0] == KwElif ==>
      var g := ParseBranch(ts[1..], ElifExpectedThen);
      g.Group? && Stream(g.rest) && ParseArms(bs, e, ts) == ParseArms(bs + [g.branch], e, g.rest)
    ensures ts[0] == KwElse ==>
      var body := ParseList(SkipSeparators(ts[1..]));
      body.Parsed? && Stream(body.rest) && ParseArms(bs, e, ts) == ParseArms(bs, Some(body.cmd), body.rest)
    ensures ts[0] == KwFi ==> ParseArms(bs, e, ts) == Parsed(If(bs, e), ts[1..])
  {
    assert SkipSeparators(ts) == ts;
  }

  // ---------- A stream has one derivation ----------

  lemma {:induction false} NodeUnique(n: Node, k: seq<Token>, n': Node, k': seq<Token>)
    requires FormedNode(n) && Stream(k) && (n.Words? ==> !k[0].Word?)
    requires FormedNode(n') && Stream(k') && (n'.Words? ==> !k'[0].Word?)
    requires SpellNode(n, k) == SpellNode(n', k')
    ensures n == n' && k == k'
    decreases n, 0
  {
    NodeParses(n, k);
    NodeParses(n', k');
    if n.IfNode? {
      ArmsParse([], None, n.arms, k);
      ArmsParse([], None, n'.arms, k);
      SameTail(KwIf, SpellClause(n.head, SpellArms(n.arms, k)), SpellClause(n'.head, SpellArms(n'.arms, k)));
      ClauseUnique(n.head, SpellArms(n.arms, k), n'.head, SpellArms(n'.arms, k));
      ArmsUnique(n.arms, k, n'.arms, k);
    } else if n.WhileNode? {
      BodyParses(n.body, WhileLoop, [], k);
      BodyParses(n'.body, WhileLoop, [], k);
      SameTail(KwWhile, SpellPhrase(n.cond, SpellBody(n.body, k)), SpellPhrase(n'.cond, SpellBody(n'.body, k)));
      PhraseUnique(n.cond, SpellBody(n.body, k), n'.cond, SpellBody(n'.body, k));
      BodyUnique(n.body, n'.body, k);
    } else if n.ForNode? {
      ForUnique(n, n', k);
    }
  }

  lemma {:induction false} ForUnique(n: Node, n': Node, k: seq<Token>)
    requires n.ForNode? && FormedNode(n) && n'.ForNode? && FormedNode(n') && Stream(k) && TreeNode(n) == TreeNode(n')
    requires SpellNode(n, k) == SpellNode(n', k)
    ensures n == n'
    decreases n, 0, 0
  {
    var ts, ts' := n.gap + SpellBody(n.body, k), n'.gap + SpellBody(n'.body, k);
    BodyParses(n.body, ForLoop, n.gap, k);
    BodyParses(n'.body, ForLoop, n'.gap, k);
    ForTail(n.variable, n.values, ts, ts');
    GapUnique(n.gap, SpellBody(n.body, k), n'.gap, SpellBody(n'.body, k));
    BodyUnique(n.body, n'.body, k);
  }

  lemma ForTail(x: string, values: seq<string>, ts: seq<Token>, ts': seq<Token>)
    requires Stream(ts) && !ts[0].Word? && Stream(ts') && !ts'[0].Word?
    requires [KwFor] + ([Word(x)] + ([KwIn] + (WordTokens(values) + ts))) ==
             [KwFor] + ([Word(x)] + ([KwIn] + (WordTokens(values) + ts')))
    ensures ts == ts'
  {
    var vs, vs' := WordTokens(values) + ts, WordTokens(values) + ts';
    SameTail(KwFor, [Word(x)] + ([KwIn] + vs), [Word(x)] + ([KwIn] + vs'));
    SameTail(Word(x), [KwIn] + vs, [KwIn] + vs');
    SameTail(KwIn, vs, vs');
    WordsBack(values, ts);
    WordsBack(values, ts');
  }

  lemma SameTail(t: Token, ts: seq<Token>, ts': seq<Token>)
    requires [t] + ts == [t] + ts'
    ensures ts == ts'
  {
    assert ([t] + ts)[1..] == ts && ([t] + ts')[1..] == ts';
  }

  lemma GapUnique(gap: seq<Token>, k: seq<Token>, gap': seq<Token>, k': seq<Token>)
    requires Separators(gap) && Stream(k) && !IsSeparator(k[0])
    requires Separators(gap') && Stream(k') && !IsSeparator(k'[0]) && gap + k == gap' + k'
    ensures gap == gap' && k == k'
  {
    GapSkipped(gap, k);
    GapSkipped(gap', k');
    assert gap == (gap + k)[..|gap|] && gap' == (gap' + k')[..|gap'|];
  }

  lemma {:induction false} PhraseUnique(p: Phrase, k: seq<Token>, p': Phrase, k': seq<Token>)
    requires FormedPhrase(p) && Stream(k) && Stops(p, k[0])
    requires FormedPhrase(p') && Stream(k') && Stops(p', k'[0]) && SpellPhrase(p, k) == SpellPhrase(p', k')
    ensures p == p' && k == k'
    decreases p, 1
  {
    MoreParses(p.first, [Simple([])], p.more, k);
    MoreParses(p'.first, [Simple([])], p'.more, k');
    NodeUnique(p.first, SpellMore(p.more, k), p'.first, SpellMore(p'.more, k'));
    MoreUnique(p.first, p.more, k, p'.more, k');
  }

  lemma {:induction false} MoreUnique(n: Node, m: More, k: seq<Token>, m': More, k': seq<Token>)
    requires FormedMore(m) && Stream(k) && StopsAfter(n, m, k[0])
    requires FormedMore(m') && Stream(k') && StopsAfter(n, m', k'[0]) && SpellMore(m, k) == SpellMore(m', k')
    ensures m == m' && k == k'
    decreases m, 1
  {
    MoreParses(n, [Simple([])], m, k);
    MoreParses(n, [Simple([])], m', k');
    MoreHead(n, m, k);
    MoreHead(n, m', k');
    if m.Next? {
      var ts, ts' := SpellMore(m.rest, k), SpellMore(m'.rest, k');
      SameTail(m.sep, SpellNode(m.node, ts), SpellNode(m'.node, ts'));
      MoreParses(m.node, [Simple([])], m.rest, k);
      MoreParses(m'.node, [Simple([])], m'.rest, k');
      NodeUnique(m.node, ts, m'.node, ts');
      MoreUnique(m.node, m.rest, k, m'.rest, k');
    }
  }

  /** The first two tokens after a command tell how its list goes on. */
  lemma MoreHead(n: Node, m: More, k: seq<Token>)
    requires FormedMore(m) && Stream(k) && StopsAfter(n, m, k[0])
    ensures Heads(m, SpellMore(m, k))
  {
    if m.Next? {
      MoreParses(m.node, [Simple([])], m.rest, k);
      NodeParses(m.node, SpellMore(m.rest, k));
      NextHead(m.sep, m.node, m.rest, SpellNode(m.node, SpellMore(m.rest, k)));
    } else if m.trailing.Some? {
      SecondToken(m.trailing.value, k);
    }
  }

  predicate Heads(m: More, ts: seq<Token>) {
    if m == End(None) then ts != [] && !IsSeparator(ts[0])
    else
      && |ts| > 1 && IsSeparator(ts[0])
      && if m.Next? then ts[0] == m.sep && !IsTerminator(ts[1]) else ts[0] == m.trailing.value && IsTerminator(ts[1])
  }

  lemma NextHead(sep: Token, node: Node, rest: More, ts: seq<Token>)
    requires IsSeparator(sep) && StartsCommand(ts)
    ensures Heads(Next(sep, node, rest), [sep] + ts)
  {
    SecondToken(sep, ts);
  }

  lemma SecondToken(t: Token, ts: seq<Token>)
    requires ts != []
    ensures ([t] + ts)[0] == t && ([t] + ts)[1] == ts[0]
  {
  }

  lemma {:induction false} BlockUnique(b: Block, k: seq<Token>, b': Block, k': seq<Token>)
    requires FormedBlock(b) && Stream(k) && IsTerminator(k[0])
    requires FormedBlock(b') && Stream(k') && IsTerminator(k'[0]) && SpellBlock(b, k) == SpellBlock(b', k')
    ensures b == b' && k == k'
    decreases b, 1
  {
    PhraseStarts(b.list, k);
    PhraseStarts(b'.list, k');
    GapUnique(b.gap, SpellPhrase(b.list, k), b'.gap, SpellPhrase(b'.list, k'));
    PhraseUnique(b.list, k, b'.list, k');
  }

  lemma PhraseStarts(p: Phrase, k: seq<Token>)
    requires FormedPhrase(p) && Stream(k) && IsTerminator(k[0])
    ensures Stops(p, k[0]) && Stream(SpellPhrase(p, k)) && !IsSeparator(SpellPhrase(p, k)[0])
  {
    PhraseParses(p, k);
  }

  lemma {:induction false} BodyUnique(b: Block, b': Block, k: seq<Token>)
    requires FormedBlock(b) && FormedBlock(b') && Stream(k) && SpellBody(b, k) == SpellBody(b', k)
    ensures b == b'
    decreases b, 2
  {
    StreamCons(KwDone, k);
    SameTail(KwDo, SpellBlock(b, [KwDone] + k), SpellBlock(b', [KwDone] + k));
    BlockUnique(b, [KwDone] + k, b', [KwDone] + k);
  }

  lemma {:induction false} ClauseUnique(c: Clause, k: seq<Token>, c': Clause, k': seq<Token>)
    requires FormedClause(c) && Stream(k) && IsTerminator(k[0])
    requires FormedClause(c') && Stream(k') && IsTerminator(k'[0]) && SpellClause(c, k) == SpellClause(c', k')
    ensures c == c' && k == k'
    decreases c, 1
  {
    BlockParses(c.body, k);
    BlockParses(c'.body, k');
    var ts, ts' := SpellBlock(c.body, k), SpellBlock(c'.body, k');
    StreamCons(KwThen, ts);
    StreamCons(KwThen, ts');
    PhraseUnique(c.cond, [KwThen] + ts, c'.cond, [KwThen] + ts');
    SameTail(KwThen, ts, ts');
    BlockUnique(c.body, k, c'.body, k');
  }

  lemma {:induction false} ArmsUnique(arms: Arms, k: seq<Token>, arms': Arms, k': seq<Token>)
    requires FormedArms(arms) && Stream(k) && FormedArms(arms') && Stream(k')
    requires SpellArms(arms, k) == SpellArms(arms', k')
    ensures arms == arms' && k == k'
    decreases arms, 1
  {
    assert SpellArms(arms, k)[0] == if arms.Fi? then KwFi else if arms.Elif? then KwElif else KwElse;
    assert SpellArms(arms', k')[0] == if arms'.Fi? then KwFi else if arms'.Elif? then KwElif else KwElse;
    if arms.Fi? {
      SameTail(KwFi, k, k');
    } else {
      var ts, ts' := SpellArms(arms.rest, k), SpellArms(arms'.rest, k');
      ArmsParse([], None, arms.rest, k);
      ArmsParse([], None, arms'.rest, k');
      if arms.Elif? {
        SameTail(KwElif, SpellClause(arms.clause, ts), SpellClause(arms'.clause, ts'));
        ClauseUnique(arms.clause, ts, arms'.clause, ts');
      } else {
        SameTail(KwElse, SpellBlock(arms.body, ts), SpellBlock(arms'.body, ts'));
        BlockUnique(arms.body, ts, arms'.body, ts');
      }
      ArmsUnique(arms.rest, k, arms'.rest, k');
    }
  }

  // ---------- What a program parses to, exactly ----------

  /** `ts` is separators, the derivation `p`, and `rest`, before which `p` stops. */
  predicate Derives(ts: seq<Token>, gap: seq<Token>, p: Phrase, rest: seq<Token>) {
    && Separators(gap) && FormedPhrase(p) && Stream(rest) && Stops(p, rest[0])
    && ts == gap + SpellPhrase(p, rest)
  }

  lemma DerivedParses(ts: seq<Token>, gap: seq<Token>, p: Phrase, rest: seq<Token>)
    requires Derives(ts, gap, p, rest)
    ensures Stream(ts) && ParseProgram(ts) == Parsed(TreePhrase(p), rest)
  {
    PhraseParses(p, rest);
    GapSkipped(gap, SpellPhrase(p, rest));
  }

  lemma ParsedDerives(ts: seq<Token>) returns (gap: seq<Token>, p: Phrase)
    requires Stream(ts) && ParseProgram(ts).Parsed?
    ensures Derives(ts, gap, p, ParseProgram(ts).rest) && TreePhrase(p) == ParseProgram(ts).cmd
  {
    gap := GapOf(ts);
    p := PhraseOf(SkipSeparators(ts));
  }

  /** The parser answers `c` and leaves `rest` exactly when the tokens before `rest` derive `c` and may end there. */
  lemma ParseExact(ts: seq<Token>, c: Cmd, rest: seq<Token>)
    requires Stream(ts)
    ensures ParseProgram(ts) == Parsed(c, rest) <==> exists gap, p :: Derives(ts, gap, p, rest) && TreePhrase(p) == c
  {
    if ParseProgram(ts) == Parsed(c, rest) {
      var gap, p := ParsedDerives(ts);
    }
    if gap, p :| Derives(ts, gap, p, rest) && TreePhrase(p) == c {
      DerivedParses(ts, gap, p, rest);
    }
  }

  /** No stream of tokens can be read in two ways. */
  lemma DerivationUnique(ts: seq<Token>, gap: seq<Token>, p: Phrase, rest: seq<Token>,
                         gap': seq<Token>, p': Phrase, rest': seq<Token>)
    requires Derives(ts, gap, p, rest) && Derives(ts, gap', p', rest')
    ensures gap == gap' && p == p' && rest == rest'
  {
    PhraseParses(p, rest);
    PhraseParses(p', rest');
    GapUnique(gap, SpellPhrase(p, rest), gap', SpellPhrase(p', rest'));
    PhraseUnique(p, rest, p', rest');
  }

  // ---------- The tokens a program can stop at ----------

  predicate EndsIn(ts: seq<Token>, k: seq<Token>) { |k| < |ts| && ts[|ts| - |k|..] == k }

  /** The token before `k`. */
  function Before(ts: seq<Token>, k: seq<Token>): Token
    requires EndsIn(ts, k)
  {
    ts[|ts| - |k| - 1]
  }

  lemma EndsThrough(ts: seq<Token>, mid: seq<Token>, k: seq<Token>)
    requires EndsIn(ts, mid) && EndsIn(mid, k)
    ensures EndsIn(ts, k) && Before(ts, k) == Before(mid, k)
  {
    var d := |ts| - |mid|;
    assert mid[|mid| - |k|..] == ts[d..][|mid| - |k|..] == ts[|ts| - |k|..];
  }

  lemma EndsCons(t: Token, k: seq<Token>)
    ensures EndsIn([t] + k, k) && Before([t] + k, k) == t
  {
  }

  lemma {:induction false} WordsEnd(ws: seq<string>, k: seq<Token>)
    requires ws != []
    ensures EndsIn(WordTokens(ws) + k, k) && Before(WordTokens(ws) + k, k).Word?
    decreases |ws|
  {
    var tail := WordTokens(ws[1..]) + k;
    assert WordTokens(ws) + k == [Word(ws[0])] + tail;
    EndsCons(Word(ws[0]), tail);
    if |ws| > 1 {
      WordsEnd(ws[1..], k);
      EndsThrough(WordTokens(ws) + k, tail, k);
    } else {
      assert tail == k;
    }
  }

  /** The last token of a command. */
  predicate NodeEndedBy(n: Node, t: Token) { (t.Word? <==> n.Words?) && !IsSeparator(t) }

  lemma {:induction false} NodeEnds(n: Node, k: seq<Token>)
    requires FormedNode(n)
    ensures EndsIn(SpellNode(n, k), k) && NodeEndedBy(n, Before(SpellNode(n, k), k))
    decreases n, 1
  {
    match n
    case Words(words) => WordsEnd(words, k);
    case IfNode(_, _) => IfEnds(n, k);
    case WhileNode(_, _) => WhileEnds(n, k);
    case ForNode(x, values, gap, body) =>
      BodyEnds(body, k);
      ForEnds(x, values, gap, SpellBody(body, k), k);
  }

  lemma {:induction false} IfEnds(n: Node, k: seq<Token>)
    requires n.IfNode? && FormedNode(n)
    ensures EndsIn(SpellNode(n, k), k) && Before(SpellNode(n, k), k) == KwFi
    decreases n, 0
  {
    var arms := SpellArms(n.arms, k);
    ArmsEnd(n.arms, k);
    ClauseEnds(n.head, arms);
    KeywordEnds(KwIf, SpellClause(n.head, arms), arms, k);
  }

  lemma {:induction false} WhileEnds(n: Node, k: seq<Token>)
    requires n.WhileNode? && FormedNode(n)
    ensures EndsIn(SpellNode(n, k), k) && Before(SpellNode(n, k), k) == KwDone
    decreases n, 0
  {
    var body := SpellBody(n.body, k);
    BodyEnds(n.body, k);
    PhraseEnds(n.cond, body);
    KeywordEnds(KwWhile, SpellPhrase(n.cond, body), body, k);
  }

  lemma KeywordEnds(t: Token, ts: seq<Token>, mid: seq<Token>, k: seq<Token>)
    requires EndsIn(ts, mid) && EndsIn(mid, k)
    ensures EndsIn([t] + ts, k) && Before([t] + ts, k) == Before(mid, k)
  {
    EndsCons(t, ts);
    EndsThrough([t] + ts, ts, mid);
    EndsThrough([t] + ts, mid, k);
  }

  lemma ForEnds(x: string, values: seq<string>, gap: seq<Token>, body: seq<Token>, k: seq<Token>)
    requires EndsIn(body, k)
    ensures var ts := [KwFor] + ([Word(x)] + ([KwIn] + (WordTokens(values) + (gap + body))));
            EndsIn(ts, k) && Before(ts, k) == Before(body, k)
  {
    var ts := [KwFor] + ([Word(x)] + ([KwIn] + (WordTokens(values) + (gap + body))));
    assert ts == ([KwFor, Word(x), KwIn] + WordTokens(values) + gap) + body;
    EndsThrough(ts, body, k);
  }

  lemma {:induction false} BodyEnds(b: Block, k: seq<Token>)
    requires FormedBlock(b)
    ensures EndsIn(SpellBody(b, k), k) && Before(SpellBody(b, k), k) == KwDone
    decreases b, 1
  {
    var end := [KwDone] + k;
    EndsCons(KwDone, k);
    BlockEnds(b, end);
    KeywordEnds(KwDo, SpellBlock(b, end), end, k);
  }

  lemma {:induction false} BlockEnds(b: Block, k: seq<Token>)
    requires FormedBlock(b)
    ensures EndsIn(SpellBlock(b, k), k)
    decreases b, 0
  {
    PhraseEnds(b.list, k);
    var list := SpellPhrase(b.list, k);
    assert SpellBlock(b, k)[|b.gap|..] == list;
    if b.gap != [] { EndsThrough(SpellBlock(b, k), list, k); }
  }

  lemma {:induction false} ClauseEnds(c: Clause, k: seq<Token>)
    requires FormedClause(c)
    ensures EndsIn(SpellClause(c, k), k)
    decreases c, 0
  {
    var block := SpellBlock(c.body, k);
    BlockEnds(c.body, k);
    EndsCons(KwThen, block);
    PhraseEnds(c.cond, [KwThen] + block);
    EndsThrough(SpellClause(c, k), [KwThen] + block, block);
    EndsThrough(SpellClause(c, k), block, k);
  }

  lemma {:induction false} ArmsEnd(arms: Arms, k: seq<Token>)
    requires FormedArms(arms)
    ensures EndsIn(SpellArms(arms, k), k) && Before(SpellArms(arms, k), k) == KwFi
    decreases arms, 0
  {
    if arms.Fi? {
      EndsCons(KwFi, k);
    } else {
      var rest := SpellArms(arms.rest, k);
      ArmsEnd(arms.rest, k);
      if arms.Elif? {
        ClauseEnds(arms.clause, rest);
        KeywordEnds(KwElif, SpellClause(arms.clause, rest), rest, k);
      } else {
        BlockEnds(arms.body, rest);
        KeywordEnds(KwElse, SpellBlock(arms.body, rest), rest, k);
      }
    }
  }

  /** The last token of a list: its trailing separator, or the last token of its last command. */
  lemma {:induction false} PhraseEnds(p: Phrase, k: seq<Token>)
    requires FormedPhrase(p)
    ensures var ts := SpellPhrase(p, k);
            EndsIn(ts, k) && EndedBy(LastNode(p.first, p.more), Trailing(p.more), Before(ts, k))
    decreases p, 0
  {
    NodeEnds(p.first, SpellMore(p.more, k));
    if p.more != End(None) {
      MoreLast(p.first, p.more, k);
      EndsThrough(SpellPhrase(p, k), SpellMore(p.more, k), k);
    }
  }

  predicate EndedBy(last: Node, trailing: Option<Token>, t: Token) {
    && (IsSeparator(t) <==> trailing.Some?)
    && (trailing.None? ==> (t.Word? <==> last.Words?))
  }

  lemma {:induction false} MoreLast(n: Node, m: More, k: seq<Token>)
    requires FormedMore(m) && m != End(None)
    ensures var ts := SpellMore(m, k); EndsIn(ts, k) && EndedBy(LastNode(n, m), Trailing(m), Before(ts, k))
    decreases m, 0
  {
    if m.End? {
      EndsCons(m.trailing.value, k);
    } else {
      var rest := SpellMore(m.rest, k);
      NodeEnds(m.node, rest);
      if m.rest != End(None) {
        MoreLast(m.node, m.rest, k);
        KeywordEnds(m.sep, SpellNode(m.node, rest), rest, k);
      } else {
        EndsCons(m.sep, SpellNode(m.node, rest));
        EndsThrough(SpellMore(m, k), SpellNode(m.node, rest), rest);
      }
    }
  }

  /**
    The exact stopping places: after the derivation `p` the program ends before `k`, dropping it
    without an error, if and only if `p` may stop at its first token.
  */
  lemma StopExact(p: Phrase, k: seq<Token>)
    requires FormedPhrase(p) && Stream(k) && Stream(SpellPhrase(p, k))
    ensures ParseProgram(SpellPhrase(p, k)) == Parsed(TreePhrase(p), k) <==> Stops(p, k[0])
  {
    var ts := SpellPhrase(p, k);
    NoGap(ts);
    if Stops(p, k[0]) {
      DerivedParses(ts, [], p, k);
    } else if ParseProgram(ts) == Parsed(TreePhrase(p), k) {
      var gap, q := ParsedDerives(ts);
      SameStops(gap, p, q, k);
    }
  }

  lemma NoGap(ts: seq<Token>)
    ensures [] + ts == ts
  {
  }

  lemma SameStops(gap: seq<Token>, p: Phrase, q: Phrase, k: seq<Token>)
    requires FormedPhrase(p) && FormedPhrase(q) && k != [] && SpellPhrase(p, k) == gap + SpellPhrase(q, k)
    ensures Stops(p, k[0]) == Stops(q, k[0])
  {
    PhraseEnds(p, k);
    PhraseEnds(q, k);
    SameBefore(gap, SpellPhrase(q, k), k);
  }

  lemma SameBefore(gap: seq<Token>, ts: seq<Token>, k: seq<Token>)
    requires EndsIn(ts, k)
    ensures EndsIn(gap + ts, k) && Before(gap + ts, k) == Before(ts, k)
  {
    assert (gap + ts)[|gap|..] == ts;
    if gap != [] { EndsThrough(gap + ts, ts, k); }
  }

  /** After `fi` or `done` any token but a separator is dropped with all that follows it. */
  lemma DroppedAfterBlock(n: Node, k: seq<Token>)
    requires FormedNode(n) && !n.Words? && Stream(k) && !IsSeparator(k[0])
    ensures Stream(SpellNode(n, k)) && ParseProgram(SpellNode(n, k)) == Parsed(TreeNode(n), k)
  {
    var p := Phrase(n, End(None));
    NoGap(SpellNode(n, k));
    DerivedParses(SpellNode(n, k), [], p, k);
  }

  /** `w;` */
  function OneCommand(w: string): Phrase { Phrase(Words([w]), End(Some(Semi))) }

  /** `if a; then b; fi` */
  function OneArm(a: string, b: string): Node { IfNode(Clause(OneCommand(a), Block([], OneCommand(b))), Fi) }

  lemma OneCommandSpelled(w: string, k: seq<Token>)
    ensures FormedPhrase(OneCommand(w)) && SpellPhrase(OneCommand(w), k) == [Word(w), Semi] + k
    ensures TreePhrase(OneCommand(w)) == Simple([w])
  {
    OneWord(w);
    var p := OneCommand(w);
    assert FormedNode(p.first) && FormedMore(p.more);
    assert SpellMore(p.more, k) == [Semi] + k;
    assert [TreeNode(p.first)] + [] == [TreeNode(p.first)];
  }

  lemma OneArmSpelled(a: string, b: string, k: seq<Token>)
    ensures SpellNode(OneArm(a, b), k) == [KwIf, Word(a), Semi, KwThen, Word(b), Semi, KwFi] + k
  {
    var n := OneArm(a, b);
    var end := [KwFi] + k;
    OneCommandSpelled(b, end);
    var block := SpellBlock(n.head.body, end);
    assert block == [Word(b), Semi] + end;
    OneCommandSpelled(a, [KwThen] + block);
    OneArmGlue(a, b, k);
  }

  lemma OneArmGlue(a: string, b: string, k: seq<Token>)
    ensures [KwIf] + ([Word(a), Semi] + ([KwThen] + ([Word(b), Semi] + ([KwFi] + k)))) ==
            [KwIf, Word(a), Semi, KwThen, Word(b), Semi, KwFi] + k
  {
  }

  lemma OneArmTree(a: string, b: string)
    ensures FormedNode(OneArm(a, b)) && TreeNode(OneArm(a, b)) == If([Branch(Simple([a]), Simple([b]))], None)
  {
    var n := OneArm(a, b);
    OneCommandSpelled(a, []);
    OneCommandSpelled(b, []);
    assert FormedBlock(n.head.body) && FormedArms(n.arms);
    assert TreeBranches(n.arms) == [] && TreeElse(None, n.arms) == None;
  }

  lemma OneWord(w: string)
    ensures WordTokens([w]) == [Word(w)]
  {
    assert [w][1..] == [];
  }

  /** `if a; then b; fi c` is read as if the `c` were not there. */
  lemma WordAfterFi(a: string, b: string, c: string)
    ensures var ts := [KwIf, Word(a), Semi, KwThen, Word(b), Semi, KwFi, Word(c), Eof];
            Stream(ts) && ParseProgram(ts) == Parsed(If([Branch(Simple([a]), Simple([b]))], None), [Word(c), Eof])
  {
    var k := [Word(c), Eof];
    OneArmSpelled(a, b, k);
    OneArmTree(a, b);
    assert [KwIf, Word(a), Semi, KwThen, Word(b), Semi, KwFi] + k ==
           [KwIf, Word(a), Semi, KwThen, Word(b), Semi, KwFi, Word(c), Eof];
    DroppedAfterBlock(OneArm(a, b), k);
  }

  lemma TreeElseFirst(e: Option<Cmd>, b: Block, rest: Arms)
    ensures TreeElse(e, Else(b, rest)) == TreeElse(Some(TreePhrase(b.list)), rest)
    ensures TreeBranches(Else(b, rest)) == TreeBranches(rest)
  {
  }

  /** A second `else` is accepted, and the body of the first is lost. */
  lemma RepeatedElse(head: Clause, lost: Block, kept: Block, k: seq<Token>)
    requires FormedClause(head) && FormedBlock(lost) && FormedBlock(kept) && Stream(k)
    ensures var ts := SpellNode(IfNode(head, Else(lost, Else(kept, Fi))), k);
            Stream(ts) && ParseItem(ts) == Parsed(If([TreeClause(head)], Some(TreePhrase(kept.list))), k)
  {
    var last := Else(kept, Fi);
    var n := IfNode(head, Else(lost, last));
    assert FormedArms(last) && FormedArms(n.arms);
    TreeElseFirst(Some(TreePhrase(lost.list)), kept, Fi);
    TreeElseFirst(None, lost, last);
    assert [TreeClause(head)] + [] == [TreeClause(head)];
    NodeParses(n, k);
  }

  // ---------- The grammar the source documents ----------

  /** A list with one `;` between commands, and `end` after the last. */
  predicate GrammarPhrase(p: Phrase, end: Option<Token>) { GrammarNode(p.first) && GrammarMore(p.more, end) }

  predicate GrammarMore(m: More, end: Option<Token>) {
    match m
    case End(trailing) => trailing == end
    case Next(sep, node, rest) => sep == Semi && GrammarNode(node) && GrammarMore(rest, end)
  }

  predicate GrammarBlock(b: Block) { b.gap == [] && GrammarPhrase(b.list, Some(Semi)) }

  predicate GrammarClause(c: Clause) { GrammarPhrase(c.cond, Some(Semi)) && GrammarBlock(c.body) }

  /** Any number of `elif` arms, and after them at most one `else`. */
  predicate GrammarArms(arms: Arms) {
    match arms
    case Fi => true
    case Elif(c, rest) => GrammarClause(c) && GrammarArms(rest)
    case Else(b, rest) => GrammarBlock(b) && rest.Fi?
  }

  predicate GrammarNode(n: Node) {
    match n
    case Words(words) => words != []
    case IfNode(head, arms) => GrammarClause(head) && GrammarArms(arms)
    case WhileNode(cond, body) => GrammarPhrase(cond, Some(Semi)) && GrammarBlock(body)
    case ForNode(_, _, gap, body) => gap == [Semi] && GrammarBlock(body)
  }

  /** The tokens of a program of the documented grammar. */
  ghost predicate Sentence(ts: seq<Token>) { exists p :: GrammarPhrase(p, None) && ts == SpellPhrase(p, [Eof]) }

  lemma {:induction false} GrammarFormed(p: Phrase, end: Option<Token>)
    requires GrammarPhrase(p, end) && (end.Some? ==> end.value == Semi)
    ensures FormedPhrase(p) && Trailing(p.more) == end
    decreases p, 1
  {
    GrammarNodeFormed(p.first);
    GrammarMoreFormed(p.more, end);
  }

  lemma {:induction false} GrammarMoreFormed(m: More, end: Option<Token>)
    requires GrammarMore(m, end) && (end.Some? ==> end.value == Semi)
    ensures FormedMore(m) && Trailing(m) == end
    decreases m, 1
  {
    if m.Next? {
      GrammarNodeFormed(m.node);
      GrammarMoreFormed(m.rest, end);
    }
  }

  lemma {:induction false} GrammarClauseFormed(c: Clause)
    requires GrammarClause(c)
    ensures FormedClause(c)
    decreases c, 1
  {
    GrammarFormed(c.cond, Some(Semi));
    GrammarFormed(c.body.list, Some(Semi));
  }

  lemma {:induction false} GrammarArmsFormed(arms: Arms)
    requires GrammarArms(arms)
    ensures FormedArms(arms)
    decreases arms, 1
  {
    if arms.Elif? {
      GrammarClauseFormed(arms.clause);
      GrammarArmsFormed(arms.rest);
    } else if arms.Else? {
      GrammarFormed(arms.body.list, Some(Semi));
    }
  }

  lemma {:induction false} GrammarNodeFormed(n: Node)
    requires GrammarNode(n)
    ensures FormedNode(n)
    decreases n, 1
  {
    match n
    case Words(_) =>
    case IfNode(head, arms) =>
      GrammarClauseFormed(head);
      GrammarArmsFormed(arms);
    case WhileNode(cond, body) =>
      GrammarFormed(cond, Some(Semi));
      GrammarFormed(body.list, Some(Semi));
    case ForNode(_, _, _, body) => GrammarFormed(body.list, Some(Semi));
  }

  /** A sentence of the grammar is read to its end, as the tree it spells. */
  lemma SentenceParses(p: Phrase)
    requires GrammarPhrase(p, None)
    ensures Derives(SpellPhrase(p, [Eof]), [], p, [Eof])
    ensures Stream(SpellPhrase(p, [Eof])) && ParseProgram(SpellPhrase(p, [Eof])) == Parsed(TreePhrase(p), [Eof])
  {
    GrammarFormed(p, None);
    assert [] + SpellPhrase(p, [Eof]) == SpellPhrase(p, [Eof]);
    DerivedParses(SpellPhrase(p, [Eof]), [], p, [Eof]);
  }

  /**
    Tokens form a sentence of the documented grammar exactly when the parser reads them to `Eof` and
    their derivation has one `;` where the grammar has one, no other separators, and in each `if` at
    most one `else`, after the `elif` arms.
  */
  lemma GrammarExact(ts: seq<Token>)
    requires Stream(ts)
    ensures Sentence(ts) <==>
            && ParseProgram(ts).Parsed? && ParseProgram(ts).rest == [Eof]
            && forall gap, p :: Derives(ts, gap, p, [Eof]) ==> gap == [] && GrammarPhrase(p, None)
  {
    if p :| GrammarPhrase(p, None) && ts == SpellPhrase(p, [Eof]) {
      SentenceParses(p);
      forall gap', p' | Derives(ts, gap', p', [Eof])
        ensures gap' == [] && GrammarPhrase(p', None)
      {
        DerivationUnique(ts, [], p, [Eof], gap', p', [Eof]);
      }
    }
    if ParseProgram(ts).Parsed? && ParseProgram(ts).rest == [Eof] {
      var gap, p := ParsedDerives(ts);
      assert gap == [] ==> ts == SpellPhrase(p, [Eof]);
    }
  }

  // ---------- The grammar with free separators ----------

  /** In each `if`, at most one `else`, after the `elif` arms. */
  predicate OrderlyPhrase(p: Phrase) { OrderlyNode(p.first) && OrderlyMore(p.more) }

  predicate OrderlyMore(m: More) { m.End? || (OrderlyNode(m.node) && OrderlyMore(m.rest)) }

  predicate OrderlyArms(arms: Arms) {
    match arms
    case Fi => true
    case Elif(c, rest) => OrderlyPhrase(c.cond) && OrderlyPhrase(c.body.list) && OrderlyArms(rest)
    case Else(b, rest) => OrderlyPhrase(b.list) && rest.Fi?
  }

  predicate OrderlyNode(n: Node) {
    match n
    case Words(_) => true
    case IfNode(head, arms) => OrderlyPhrase(head.cond) && OrderlyPhrase(head.body.list) && OrderlyArms(arms)
    case WhileNode(cond, body) => OrderlyPhrase(cond) && OrderlyPhrase(body.list)
    case ForNode(_, _, _, body) => OrderlyPhrase(body.list)
  }

  /**
    With separators wherever the parser takes them: tokens derive in the grammar up to `Eof` exactly
    when the parser reads them to `Eof` and no `if` in their derivation has a second or misplaced arm.
  */
  lemma FreeGrammarExact(ts: seq<Token>)
    requires Stream(ts)
    ensures (exists gap, p :: Derives(ts, gap, p, [Eof]) && OrderlyPhrase(p)) <==>
            && ParseProgram(ts).Parsed? && ParseProgram(ts).rest == [Eof]
            && forall gap, p :: Derives(ts, gap, p, [Eof]) ==> OrderlyPhrase(p)
  {
    if gap, p :| Derives(ts, gap, p, [Eof]) && OrderlyPhrase(p) {
      DerivedParses(ts, gap, p, [Eof]);
      forall gap', p' | Derives(ts, gap', p', [Eof])
        ensures OrderlyPhrase(p')
      {
        DerivationUnique(ts, gap, p, [Eof], gap', p', [Eof]);
      }
    }
    if ParseProgram(ts).Parsed? && ParseProgram(ts).rest == [Eof] {
      var gap, p := ParsedDerives(ts);
    }
  }
}
