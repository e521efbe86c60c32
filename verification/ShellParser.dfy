/**
  The shell's recursive-descent parser (src/shell_parser.rs).

  The specification functions work on the tokens still to be read; the class `Parser`
  keeps the source's position into a fixed token vector and is proved to compute them.
  `ShellGrammar` has the grammar it accepts, and `ShellRoundTrip` the text of a tree.
*/
module ShellParser {
  import opened Wrappers
  import opened ShellLexer

  datatype Branch = Branch(cond: Cmd, body: Cmd)

  datatype Cmd =
    | Simple(words: seq<string>)
    | Sequence(items: seq<Cmd>)
    | If(branches: seq<Branch>, elseBranch: Option<Cmd>)
    | While(cond: Cmd, body: Cmd)
    | For(variable: string, values: seq<string>, loop: Cmd)

  /** The trees that have a single way of being written. */
  predicate Canonical(c: Cmd) {
    match c
    case Simple(words) => words != []
    case Sequence(items) =>
      |items| >= 2 && forall i :: 0 <= i < |items| ==> !items[i].Sequence? && Canonical(items[i])
    case If(branches, elseBranch) =>
      && branches != []
      && (forall i :: 0 <= i < |branches| ==> Canonical(branches[i].cond) && Canonical(branches[i].body))
      && (elseBranch.Some? ==> Canonical(elseBranch.value))
    case While(cond, body) => Canonical(cond) && Canonical(body)
    case For(_, _, body) => Canonical(body)
  }

  predicate CanonicalItem(c: Cmd) {
    !c.Sequence? && Canonical(c)
  }

  predicate CanonicalBranch(b: Branch) {
    Canonical(b.cond) && Canonical(b.body)
  }

  predicate CanonicalElse(e: Option<Cmd>) {
    e.Some? ==> Canonical(e.value)
  }

  // ---------- Specification over the remaining tokens ----------

  /** Tokens left to read: `Eof` is last and occurs nowhere else. */
  predicate Stream(ts: seq<Token>) {
    ts != [] && ts[|ts| - 1] == Eof && forall i :: 0 <= i < |ts| - 1 ==> ts[i] != Eof
  }

  lemma StreamTail(ts: seq<Token>)
    requires Stream(ts) && ts[0] != Eof
    ensures Stream(ts[1..]) && |ts[1..]| == |ts| - 1
  {
  }

  datatype LoopKind = WhileLoop | ForLoop

  /** The source's static messages. */
  datatype ParseError =
    | ExpectedCommand
    | IfExpectedThen
    | ElifExpectedThen
    | IfExpectedArm
    | ForExpectedVariable
    | ForExpectedIn
    | ExpectedDo(what: LoopKind)
    | ExpectedDone(what: LoopKind)

  datatype Parsed = Parsed(cmd: Cmd, rest: seq<Token>) | Failed(error: ParseError)

  predicate IsSeparator(t: Token) { t == Semi || t == Newline }

  predicate IsTerminator(t: Token) {
    t == Eof || t == KwFi || t == KwDone || t == KwElse || t == KwElif || t == KwThen || t == KwDo
  }

  function SkipSeparators(ts: seq<Token>): (r: seq<Token>)
    requires Stream(ts)
    ensures Stream(r) && |r| <= |ts| && !IsSeparator(r[0])
  {
    if IsSeparator(ts[0]) then SkipSeparators(ts[1..]) else ts
  }

  function TakeWords(ts: seq<Token>): (r: (seq<string>, seq<Token>))
    requires Stream(ts)
    ensures Stream(r.1) && |r.1| == |ts| - |r.0| && !r.1[0].Word?
  {
    if ts[0].Word? then
      var (ws, rest) := TakeWords(ts[1..]);
      ([ts[0].text] + ws, rest)
    else ([], ts)
  }

  lemma OneMoreWord(words: seq<string>, ts: seq<Token>)
    requires Stream(ts) && ts[0].Word?
    ensures Stream(ts[1..]) && TakeWords(ts).1 == TakeWords(ts[1..]).1
    ensures words + TakeWords(ts).0 == (words + [ts[0].text]) + TakeWords(ts[1..]).0
  {
  }

  function Collect(items: seq<Cmd>): Cmd
    requires items != []
  {
    if |items| == 1 then items[0] else Sequence(items)
  }

  predicate Fine(p: Parsed, ts: seq<Token>) {
    p.Parsed? ==> Stream(p.rest) && |p.rest| < |ts|
  }

  function ParseList(ts: seq<Token>): (p: Parsed)
    requires Stream(ts)
    ensures Fine(p, ts)
    decreases |ts|, 3
  {
    var first := ParseItem(ts);
    if first.Failed? then first else ParseMore([first.cmd], first.rest)
  }

  function ParseMore(items: seq<Cmd>, ts: seq<Token>): (p: Parsed)
    requires Stream(ts) && items != []
    ensures p.Parsed? ==> Stream(p.rest) && |p.rest| <= |ts|
    decreases |ts|, 3
  {
    if !IsSeparator(ts[0]) then Parsed(Collect(items), ts)
    else if IsTerminator(ts[1]) then Parsed(Collect(items), ts[1..])
    else
      var next := ParseItem(ts[1..]);
      if next.Failed? then next else ParseMore(items + [next.cmd], next.rest)
  }

  function ParseItem(ts: seq<Token>): (p: Parsed)
    requires Stream(ts)
    ensures Fine(p, ts)
    decreases |ts|, 2
  {
    if ts[0] == KwIf then ParseIf(ts)
    else if ts[0] == KwWhile then ParseWhile(ts)
    else if ts[0] == KwFor then ParseFor(ts)
    else ParseSimple(ts)
  }

  function ParseSimple(ts: seq<Token>): (p: Parsed)
    requires Stream(ts)
    ensures Fine(p, ts)
  {
    var (words, rest) := TakeWords(ts);
    if words == [] then Failed(ExpectedCommand) else Parsed(Simple(words), rest)
  }

  /** One `cond ; then body` group, whose opening keyword has been read. */
  datatype Group = Group(branch: Branch, rest: seq<Token>) | NoGroup(error: ParseError)

  function ParseBranch(ts: seq<Token>, error: ParseError): (g: Group)
    requires Stream(ts)
    ensures g.Group? ==> Stream(g.rest) && |g.rest| < |ts|
    decreases |ts|, 4
  {
    var cond := ParseList(ts);
    if cond.Failed? then NoGroup(cond.error) else
    var ts1 := SkipSeparators(cond.rest);
    if ts1[0] != KwThen then NoGroup(error) else
    var body := ParseList(SkipSeparators(ts1[1..]));
    if body.Failed? then NoGroup(body.error) else Group(Branch(cond.cmd, body.cmd), body.rest)
  }

  function ParseIf(ts: seq<Token>): (p: Parsed)
    requires Stream(ts) && ts[0] == KwIf
    ensures Fine(p, ts)
    decreases |ts|, 1
  {
    var g := ParseBranch(ts[1..], IfExpectedThen);
    if g.NoGroup? then Failed(g.error) else ParseArms([g.branch], None, g.rest)
  }

  function ParseArms(branches: seq<Branch>, elseBranch: Option<Cmd>, ts: seq<Token>): (p: Parsed)
    requires Stream(ts)
    ensures Fine(p, ts)
    decreases |ts|, 5
  {
    var ts1 := SkipSeparators(ts);
    if ts1[0] == KwElif then
      var g := ParseBranch(ts1[1..], ElifExpectedThen);
      if g.NoGroup? then Failed(g.error) else ParseArms(branches + [g.branch], elseBranch, g.rest)
    else if ts1[0] == KwElse then
      var body := ParseList(SkipSeparators(ts1[1..]));
      if body.Failed? then body else ParseArms(branches, Some(body.cmd), body.rest)
    else if ts1[0] == KwFi then Parsed(If(branches, elseBranch), ts1[1..])
    else Failed(IfExpectedArm)
  }

  /** The `do body done` part shared by `while` and `for`. */
  function ParseBody(ts: seq<Token>, what: LoopKind): (p: Parsed)
    requires Stream(ts)
    ensures Fine(p, ts)
    decreases |ts|, 4
  {
    var ts1 := SkipSeparators(ts);
    if ts1[0] != KwDo then Failed(ExpectedDo(what)) else
    var body := ParseList(SkipSeparators(ts1[1..]));
    if body.Failed? then body else
    var ts2 := SkipSeparators(body.rest);
    if ts2[0] != KwDone then Failed(ExpectedDone(what)) else Parsed(body.cmd, ts2[1..])
  }

  function ParseWhile(ts: seq<Token>): (p: Parsed)
    requires Stream(ts) && ts[0] == KwWhile
    ensures Fine(p, ts)
    decreases |ts|, 1
  {
    var cond := ParseList(ts[1..]);
    if cond.Failed? then cond else
    var body := ParseBody(cond.rest, WhileLoop);
    if body.Failed? then body else Parsed(While(cond.cmd, body.cmd), body.rest)
  }

  function ParseFor(ts: seq<Token>): (p: Parsed)
    requires Stream(ts) && ts[0] == KwFor
    ensures Fine(p, ts)
    decreases |ts|, 1
  {
    StreamTail(ts);
    var ts1 := ts[1..];
    if !ts1[0].Word? then Failed(ForExpectedVariable) else
    StreamTail(ts1);
    var ts2 := ts1[1..];
    if ts2[0] != KwIn then Failed(ForExpectedIn) else
    StreamTail(ts2);
    ParseForValues(ts1[0].text, ts2[1..])
  }

  function ParseForValues(variable: string, ts: seq<Token>): (p: Parsed)
    requires Stream(ts)
    ensures Fine(p, ts)
    decreases |ts|, 5
  {
    var (values, rest) := TakeWords(ts);
    var body := ParseBody(rest, ForLoop);
    if body.Failed? then body else Parsed(For(variable, values, body.cmd), body.rest)
  }

  function ParseProgram(ts: seq<Token>): (p: Parsed)
    requires Stream(ts)
    ensures p.Parsed? ==> Stream(p.rest)
  {
    ParseList(SkipSeparators(ts))
  }

  // ---------- The parser object ----------

  class Parser {
    const tokens: seq<Token>
    /** `tokens[pos..]` is what has not been read. */
    var pos: nat

    ghost predicate Valid()
      reads this
    {
      Stream(tokens) && pos < |tokens|
    }

    constructor (input: string)
      ensures Valid() && tokens[pos..] == Lex(input, [])
    {
      var ts := Tokenize(input);
      LexWellTerminated(input, []);
      assert forall i :: 0 <= i < |ts| - 1 ==> ts[i] == ts[..|ts| - 1][i];
      tokens := ts;
      pos := 0;
    }

    function Peek(): (t: Token)
      requires Valid()
      reads this
      ensures t == tokens[pos..][0]
    {
      tokens[pos]
    }

    /** Reads a token; the closing `Eof` is never passed. */
    method Bump() returns (t: Token)
      requires Valid()
      modifies this
      ensures Valid() && t == tokens[old(pos)..][0]
      ensures tokens[pos..] == if t == Eof then tokens[old(pos)..] else tokens[old(pos)..][1..]
    {
      t := tokens[pos];
      if pos + 1 < |tokens| {
        pos := pos + 1;
      }
    }

    method Eat(t: Token) returns (eaten: bool)
      requires Valid() && t != Eof
      modifies this
      ensures Valid() && eaten == (tokens[old(pos)..][0] == t)
      ensures tokens[pos..] == if eaten then tokens[old(pos)..][1..] else tokens[old(pos)..]
    {
      eaten := Peek() == t;
      if eaten {
        var _ := Bump();
      }
    }

    method SkipSep()
      requires Valid()
      modifies this
      ensures Valid() && tokens[pos..] == SkipSeparators(tokens[old(pos)..])
      ensures pos >= old(pos)
    {
      while IsSeparator(Peek())
        invariant Valid() && pos >= old(pos)
        invariant SkipSeparators(tokens[pos..]) == SkipSeparators(tokens[old(pos)..])
        decreases |tokens| - pos
      {
        var _ := Bump();
      }
    }

    method Words() returns (words: seq<string>)
      requires Valid()
      modifies this
      ensures Valid() && words == TakeWords(tokens[old(pos)..]).0 && tokens[pos..] == TakeWords(tokens[old(pos)..]).1
    {
      words := [];
      while Peek().Word?
        invariant Valid() && pos >= old(pos)
        invariant TakeWords(tokens[old(pos)..]).0 == words + TakeWords(tokens[pos..]).0
        invariant TakeWords(tokens[old(pos)..]).1 == TakeWords(tokens[pos..]).1
        decreases |tokens| - pos
      {
        OneMoreWord(words, tokens[pos..]);
        words := words + [Peek().text];
        var _ := Bump();
      }
    }

    /** What every parsing method promises: the specification's answer, and on success its rest. */
    ghost predicate Agrees(r: Result<Cmd, ParseError>, p: Parsed)
      reads this
    {
      && Valid()
      && (r.Ok? <==> p.Parsed?)
      && (r.Ok? ==> r.value == p.cmd && tokens[pos..] == p.rest)
      && (r.Err? ==> r.error == p.error)
    }

    method Program() returns (r: Result<Cmd, ParseError>)
      requires Valid()
      modifies this
      ensures Agrees(r, ParseProgram(tokens[old(pos)..]))
    {
      SkipSep();
      r := List();
    }

    method List() returns (r: Result<Cmd, ParseError>)
      requires Valid()
      modifies this
      ensures Agrees(r, ParseList(tokens[old(pos)..]))
      decreases |tokens| - pos, 3
    {
      r := Item();
      if r.Err? { return; }
      var items := [r.value];
      while IsSeparator(Peek())
        invariant Valid() && pos > old(pos) && items != []
        invariant ParseList(tokens[old(pos)..]) == ParseMore(items, tokens[pos..])
        decreases |tokens| - pos
      {
        var _ := Bump();
        if IsTerminator(Peek()) {
          break;
        }
        r := Item();
        if r.Err? { return; }
        items := items + [r.value];
      }
      r := Ok(if |items| == 1 then items[0] else Sequence(items));
    }

    method Item() returns (r: Result<Cmd, ParseError>)
      requires Valid()
      modifies this
      ensures Agrees(r, ParseItem(tokens[old(pos)..]))
      decreases |tokens| - pos, 2
    {
      if Peek() == KwIf { r := IfCommand(); }
      else if Peek() == KwWhile { r := WhileCommand(); }
      else if Peek() == KwFor { r := ForCommand(); }
      else { r := SimpleCommand(); }
    }

    method SimpleCommand() returns (r: Result<Cmd, ParseError>)
      requires Valid()
      modifies this
      ensures Agrees(r, ParseSimple(tokens[old(pos)..]))
    {
      var words := Words();
      if words == [] { return Err(ExpectedCommand); }
      r := Ok(Simple(words));
    }

    method BranchGroup(error: ParseError) returns (r: Result<Branch, ParseError>)
      requires Valid()
      modifies this
      ensures Valid()
      ensures match ParseBranch(tokens[old(pos)..], error)
              case Group(b, rest) => r == Ok(b) && tokens[pos..] == rest
              case NoGroup(m) => r == Err(m)
      decreases |tokens| - pos, 4
    {
      var cond := List();
      if cond.Err? { return Err(cond.error); }
      SkipSep();
      var eaten := Eat(KwThen);
      if !eaten { return Err(error); }
      SkipSep();
      var body := List();
      if body.Err? { return Err(body.error); }
      r := Ok(Branch(cond.value, body.value));
    }

    method IfCommand() returns (r: Result<Cmd, ParseError>)
      requires Valid() && Peek() == KwIf
      modifies this
      ensures Agrees(r, ParseIf(tokens[old(pos)..]))
      decreases |tokens| - pos, 1
    {
      var _ := Bump();
      var first := BranchGroup(IfExpectedThen);
      if first.Err? { return Err(first.error); }
      r := Arms(first.value);
    }

    method Arms(first: Branch) returns (r: Result<Cmd, ParseError>)
      requires Valid()
      modifies this
      ensures Agrees(r, ParseArms([first], None, tokens[old(pos)..]))
      decreases |tokens| - pos, 5
    {
      var branches := [first];
      var elseBranch: Option<Cmd> := None;
      ghost var goal := ParseArms(branches, elseBranch, tokens[pos..]);
      while true
        invariant Valid() && pos >= old(pos)
        invariant goal == ParseArms(branches, elseBranch, tokens[pos..])
        decreases |tokens| - pos
      {
        SkipSep();
        if Peek() == KwElif {
          var _ := Bump();
          var g := BranchGroup(ElifExpectedThen);
          if g.Err? { return Err(g.error); }
          branches := branches + [g.value];
        } else if Peek() == KwElse {
          var _ := Bump();
          SkipSep();
          var body := List();
          if body.Err? { return body; }
          elseBranch := Some(body.value);
        } else if Peek() == KwFi {
          var _ := Bump();
          return Ok(If(branches, elseBranch));
        } else {
          return Err(IfExpectedArm);
        }
      }
    }

    method LoopBody(what: LoopKind) returns (r: Result<Cmd, ParseError>)
      requires Valid()
      modifies this
      ensures Agrees(r, ParseBody(tokens[old(pos)..], what))
      decreases |tokens| - pos, 4
    {
      SkipSep();
      var eaten := Eat(KwDo);
      if !eaten { return Err(ExpectedDo(what)); }
      SkipSep();
      r := List();
      if r.Err? { return; }
      SkipSep();
      eaten := Eat(KwDone);
      if !eaten { return Err(ExpectedDone(what)); }
    }

    method WhileCommand() returns (r: Result<Cmd, ParseError>)
      requires Valid() && Peek() == KwWhile
      modifies this
      ensures Agrees(r, ParseWhile(tokens[old(pos)..]))
      decreases |tokens| - pos, 1
    {
      var _ := Bump();
      var cond := List();
      if cond.Err? { return cond; }
      var body := LoopBody(WhileLoop);
      if body.Err? { return body; }
      r := Ok(While(cond.value, body.value));
    }

    method ForCommand() returns (r: Result<Cmd, ParseError>)
      requires Valid() && Peek() == KwFor
      modifies this
      ensures Agrees(r, ParseFor(tokens[old(pos)..]))
      decreases |tokens| - pos, 1
    {
      var _ := Bump();
      var t := Bump();
      if !t.Word? { return Err(ForExpectedVariable); }
      var eaten := Eat(KwIn);
      if !eaten { return Err(ForExpectedIn); }
      r := ForValues(t.text);
    }

    method ForValues(variable: string) returns (r: Result<Cmd, ParseError>)
      requires Valid()
      modifies this
      ensures Agrees(r, ParseForValues(variable, tokens[old(pos)..]))
      decreases |tokens| - pos, 5
    {
      var values := Words();
      var body := LoopBody(ForLoop);
      if body.Err? { return body; }
      r := Ok(For(variable, values, body.value));
    }
  }
}
