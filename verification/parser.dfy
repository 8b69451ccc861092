/** The parser (src/calc.rs, src/interpreter/parser.rs).

    `Parser::parse` is a recursive method over mutable state: a position in
    the tokens, a stack of open brackets and a stack of built nodes. Here
    the state is a value and `Parse` returns the state it leaves together
    with the outcome; the original's `while` loop is a tail call. */
module Parsing {
  import opened Wrappers
  import opened I32
  import opened Errors
  import opened Lexer
  import opened Nodes

  /** The original's `token_count` is always `|tokens|` and is not kept. */
  datatype Parser = Parser(tokens: seq<Token>, pos: nat, parens: seq<Token>, nodes: seq<Node>)

  /** `Parser::new`. */
  function New(tokens: seq<Token>): (p: Parser)
    ensures p.tokens == tokens && p.pos == 0 && p.parens == [] && p.nodes == []
  {
    Parser(tokens, 0, [], [])
  }

  /** `Parser::set_tokens`: new tokens, position 0, both stacks cleared. */
  function SetTokens(p: Parser, tokens: seq<Token>): (r: Parser)
    ensures r == New(tokens)
  {
    p.(tokens := tokens, pos := 0, nodes := [], parens := [])
  }

  /** Nothing of the previous state survives `set_tokens`. */
  lemma SetTokensForgets(p: Parser, p': Parser, tokens: seq<Token>)
    ensures SetTokens(p, tokens) == SetTokens(p', tokens) == New(tokens)
    ensures SetTokens(p, tokens).pos == 0
    ensures SetTokens(p, tokens).parens == [] && SetTokens(p, tokens).nodes == []
  {
  }

  predicate Valid(p: Parser) {
    p.pos <= |p.tokens|
  }

  /** The tokens `parse` recognises but does not implement. */
  predicate Refused(t: Token) {
    t.Sym? || t.DecVar? || t.Asgn?
  }

  function RefusedFeature(t: Token): Feature
    requires Refused(t)
  {
    if t.Sym? then Symbol else if t.DecVar? then Declaration else Assignment
  }

  // ---------------------------------------------------------------------
  // Stack steps of the branches

  function Advance(p: Parser): Parser {
    p.(pos := p.pos + 1)
  }

  /** Moves past a number and pushes its node. */
  function Push(p: Parser, n: Node): Parser {
    p.(pos := p.pos + 1, nodes := p.nodes + [n])
  }

  /** Moves past a `[` and records it on the bracket stack. */
  function Open(p: Parser): Parser {
    p.(pos := p.pos + 1, parens := p.parens + [OpenBlock])
  }

  /** Pops right, then left, and pushes the operator node joining them. */
  function Combine(q: Parser, operator: Token): (r: Parser)
    requires |q.nodes| >= 2
    ensures |r.nodes| == |q.nodes| - 1
    ensures r.nodes[..|r.nodes| - 1] == q.nodes[..|q.nodes| - 2]
    ensures r.nodes[|r.nodes| - 1] ==
      Operator(operator, Some(q.nodes[|q.nodes| - 2]), Some(q.nodes[|q.nodes| - 1]))
    ensures r.tokens == q.tokens && r.pos == q.pos && r.parens == q.parens
  {
    var right := q.nodes[|q.nodes| - 1];
    var left := q.nodes[|q.nodes| - 2];
    q.(nodes := q.nodes[..|q.nodes| - 2] + [Operator(operator, Some(left), Some(right))])
  }

  /** Pops the body and pushes the block holding it. */
  function Wrap(q: Parser): (r: Parser)
    requires |q.nodes| >= 1
    ensures |r.nodes| == |q.nodes|
    ensures r.nodes[..|r.nodes| - 1] == q.nodes[..|q.nodes| - 1]
    ensures r.nodes[|r.nodes| - 1] == Block(Some(q.nodes[|q.nodes| - 1]))
    ensures r.tokens == q.tokens && r.pos == q.pos && r.parens == q.parens
  {
    q.(nodes := q.nodes[..|q.nodes| - 1] + [Block(Some(q.nodes[|q.nodes| - 1]))])
  }

  // ---------------------------------------------------------------------
  // Parsing

  /** `Parser::parse`. Each frame loops over the tokens: an operator
      recurses for what follows and then joins the top two nodes; `[`
      pushes a bracket marker, recurses, and wraps the top node; `]` pops
      the marker and returns from the current frame only; a number pushes
      its node; names, `let` and `=` are refused. At the end of the input a
      frame fails if a bracket is still open. */
  function Parse(p: Parser): (res: (Parser, Outcome<Error>))
    requires Valid(p)
    ensures res.0.tokens == p.tokens
    ensures p.pos <= res.0.pos <= |p.tokens|
    decreases |p.tokens| - p.pos
  {
    if p.pos >= |p.tokens| then
      (p, if |p.parens| != 0 then Fail(UnclosedBracket) else Pass)
    else
      var t := p.tokens[p.pos];
      match t
      case Add | Sub | Mul | Div =>
        var operator := CloneTokenFixed(t);
        var (q, o) := Parse(Advance(p));
        if o.Fail? then (q, o)
        else if |q.nodes| < 2 then (q, Fail(MissingOperand))
        else Parse(Combine(q, operator))
      case OpenBlock =>
        var (q, o) := Parse(Open(p));
        if o.Fail? then (q, o)
        else if |q.nodes| == 0 then (q, Fail(EmptyBracket))
        else Parse(Wrap(q))
      case CloseBlock =>
        if |p.parens| == 0 then (p, Fail(UnmatchedClose))
        else
          var top := p.parens[|p.parens| - 1];
          var popped := p.(parens := p.parens[..|p.parens| - 1]);
          if top == OpenBlock then (Advance(popped), Pass) else (popped, Fail(MismatchedBracket))
      case Int(v) => Parse(Push(p, Num(v)))
      case Sym(_) => (p, Fail(NotImplemented(Symbol)))
      case DecVar => (p, Fail(NotImplemented(Declaration)))
      case Asgn => (p, Fail(NotImplemented(Assignment)))
  }

  // ---------------------------------------------------------------------
  // One branch of `parse` at a time

  /** At the end of the input a frame succeeds exactly when no bracket is
      open. */
  lemma ParseEnd(p: Parser)
    requires p.pos == |p.tokens|
    ensures Parse(p).0 == p
    ensures Parse(p).1 == if p.parens == [] then Pass else Fail(UnclosedBracket)
  {
  }

  /** An operator parses the rest first, then takes the top node as its
      right operand and the one below as its left. */
  lemma ParseOperatorStep(p: Parser)
    requires p.pos < |p.tokens| && IsArith(p.tokens[p.pos])
    ensures var (q, o) := Parse(Advance(p));
      Parse(p) ==
        if o.Fail? then (q, o)
        else if |q.nodes| < 2 then (q, Fail(MissingOperand))
        else Parse(Combine(q, p.tokens[p.pos]))
  {
    CloneFixedIsIdentity(p.tokens[p.pos]);
  }

  /** `[` opens a bracket for a nested frame and wraps the node it leaves
      on top. */
  lemma ParseOpenStep(p: Parser)
    requires p.pos < |p.tokens| && p.tokens[p.pos] == OpenBlock
    ensures var (q, o) := Parse(Open(p));
      Parse(p) ==
        if o.Fail? then (q, o)
        else if |q.nodes| == 0 then (q, Fail(EmptyBracket))
        else Parse(Wrap(q))
  {
  }

  /** `]` ends the current frame: it fails with no bracket open, and
      otherwise pops the bracket and moves past itself. */
  lemma ParseCloseStep(p: Parser)
    requires p.pos < |p.tokens| && p.tokens[p.pos] == CloseBlock
    ensures p.parens == [] ==> Parse(p) == (p, Fail(UnmatchedClose))
    ensures p.parens != [] && p.parens[|p.parens| - 1] == OpenBlock ==>
      Parse(p) == (p.(pos := p.pos + 1, parens := p.parens[..|p.parens| - 1]), Pass)
    ensures p.parens != [] && p.parens[|p.parens| - 1] != OpenBlock ==>
      Parse(p) == (p.(parens := p.parens[..|p.parens| - 1]), Fail(MismatchedBracket))
  {
  }

  /** A number pushes its node and the frame goes on. */
  lemma ParseIntStep(p: Parser)
    requires p.pos < |p.tokens| && p.tokens[p.pos].Int?
    ensures Parse(p) == Parse(Push(p, Num(p.tokens[p.pos].val)))
  {
  }

  /** Names, `let` and `=` stop the parse where they stand. */
  lemma ParseRefusedStep(p: Parser)
    requires p.pos < |p.tokens| && Refused(p.tokens[p.pos])
    ensures Parse(p) == (p, Fail(NotImplemented(RefusedFeature(p.tokens[p.pos]))))
  {
  }

  // ---------------------------------------------------------------------
  // What a successful parse has consumed

  /** How a token changes the number of nodes on the stack of a successful
      parse: a number adds one, an operator joins two into one. */
  function NodeDelta(t: Token): int {
    if t.Int? then 1 else if IsArith(t) then -1 else 0
  }

  /** How a token changes the depth of open brackets. */
  function DepthDelta(t: Token): int {
    if t.OpenBlock? then 1 else if t.CloseBlock? then -1 else 0
  }

  function Total(ts: seq<Token>, f: Token -> int): int {
    if ts == [] then 0 else f(ts[0]) + Total(ts[1..], f)
  }

  lemma {:induction false} TotalConcat(a: seq<Token>, b: seq<Token>, f: Token -> int)
    ensures Total(a + b, f) == Total(a, f) + Total(b, f)
  {
    if a == [] {
      assert a + b == b;
    } else {
      assert (a + b)[1..] == a[1..] + b;
      TotalConcat(a[1..], b, f);
    }
  }

  lemma TotalEmpty(ts: seq<Token>, f: Token -> int)
    requires ts == []
    ensures Total(ts, f) == 0
  {
  }

  /** Splitting the segment `ts[i..k]` after its first token and at `j`. */
  lemma TotalSegments(ts: seq<Token>, i: nat, j: nat, k: nat, f: Token -> int)
    requires i < j <= k <= |ts|
    ensures Total(ts[i..k], f) == f(ts[i]) + Total(ts[i + 1..j], f) + Total(ts[j..k], f)
  {
    assert ts[i..k] == [ts[i]] + ts[i + 1..j] + ts[j..k];
    TotalConcat([ts[i]] + ts[i + 1..j], ts[j..k], f);
    TotalConcat([ts[i]], ts[i + 1..j], f);
  }

  /** Every token in `ts[i..j]` is one `parse` implements. */
  predicate Supported(ts: seq<Token>, i: nat, j: nat)
    requires i <= j <= |ts|
  {
    forall k | i <= k < j :: !Refused(ts[k])
  }

  predicate OnlyOpens(parens: seq<Token>) {
    forall i | 0 <= i < |parens| :: parens[i] == OpenBlock
  }

  predicate Built(nodes: seq<Node>) {
    forall i | 0 <= i < |nodes| :: Complete(nodes[i]) && Cells(nodes[i]) == {}
  }

  /** A successful frame either reaches the end of the input with no
      bracket open, or returns at a `]` that closes a bracket opened before
      it began. */
  lemma {:induction false} ParsePassEnds(p: Parser)
    requires Valid(p)
    ensures var (q, o) := Parse(p);
      o.Pass? ==> (q.pos == |p.tokens| && q.parens == []) || |q.parens| < |p.parens|
    decreases |p.tokens| - p.pos
  {
    hide Parse;
    if p.pos == |p.tokens| {
      ParseEnd(p);
    } else {
      var t := p.tokens[p.pos];
      if IsArith(t) {
        ParseOperatorStep(p);
        ParsePassEnds(Advance(p));
        var (q1, o1) := Parse(Advance(p));
        if o1.Pass? && |q1.nodes| >= 2 {
          ParsePassEnds(Combine(q1, t));
        }
      } else if t == OpenBlock {
        ParseOpenStep(p);
        var p1 := Open(p);
        ParsePassEnds(p1);
        var (q1, o1) := Parse(p1);
        if o1.Pass? && |q1.nodes| != 0 {
          ParsePassEnds(Wrap(q1));
        }
      } else if t == CloseBlock {
        ParseCloseStep(p);
      } else if t.Int? {
        ParseIntStep(p);
        ParsePassEnds(Push(p, Num(t.val)));
      } else {
        ParseRefusedStep(p);
      }
    }
  }

  /** A successful frame has met only tokens `parse` implements. */
  lemma {:induction false} ParsePassSupported(p: Parser)
    requires Valid(p)
    ensures var (q, o) := Parse(p); o.Pass? ==> Supported(p.tokens, p.pos, q.pos)
    decreases |p.tokens| - p.pos
  {
    hide Parse;
    if p.pos == |p.tokens| {
      ParseEnd(p);
    } else {
      var t := p.tokens[p.pos];
      if IsArith(t) {
        ParseOperatorStep(p);
        ParsePassSupported(Advance(p));
        var (q1, o1) := Parse(Advance(p));
        if o1.Pass? && |q1.nodes| >= 2 {
          ParsePassSupported(Combine(q1, t));
        }
      } else if t == OpenBlock {
        ParseOpenStep(p);
        var p1 := Open(p);
        ParsePassSupported(p1);
        var (q1, o1) := Parse(p1);
        if o1.Pass? && |q1.nodes| != 0 {
          ParsePassSupported(Wrap(q1));
        }
      } else if t == CloseBlock {
        ParseCloseStep(p);
      } else if t.Int? {
        ParseIntStep(p);
        ParsePassSupported(Push(p, Num(t.val)));
      } else {
        ParseRefusedStep(p);
      }
    }
  }

  /** The bracket stack only ever holds `[`, so the mismatch error of the
      `]` branch cannot be raised. */
  lemma {:induction false} ParseKeepsOpens(p: Parser)
    requires Valid(p)
    ensures var (q, o) := Parse(p);
      OnlyOpens(p.parens) ==> OnlyOpens(q.parens) && o != Fail(MismatchedBracket)
    decreases |p.tokens| - p.pos
  {
    hide Parse;
    if p.pos == |p.tokens| {
      ParseEnd(p);
    } else {
      var t := p.tokens[p.pos];
      if IsArith(t) {
        ParseOperatorStep(p);
        ParseKeepsOpens(Advance(p));
        var (q1, o1) := Parse(Advance(p));
        if o1.Pass? && |q1.nodes| >= 2 {
          ParseKeepsOpens(Combine(q1, t));
        }
      } else if t == OpenBlock {
        ParseOpenStep(p);
        var p1 := Open(p);
        ParseKeepsOpens(p1);
        var (q1, o1) := Parse(p1);
        if o1.Pass? && |q1.nodes| != 0 {
          ParseKeepsOpens(Wrap(q1));
        }
      } else if t == CloseBlock {
        ParseCloseStep(p);
      } else if t.Int? {
        ParseIntStep(p);
        ParseKeepsOpens(Push(p, Num(t.val)));
      } else {
        ParseRefusedStep(p);
      }
    }
  }

  /** Every node the parser builds is complete (each operator is one of
      `+ - * /` with both operands, each block has a body) and reads no
      variable cell. */
  lemma {:induction false} ParseBuildsComplete(p: Parser)
    requires Valid(p)
    ensures var (q, o) := Parse(p);
      Built(p.nodes) ==> Built(q.nodes)
    decreases |p.tokens| - p.pos
  {
    hide Parse;
    if p.pos == |p.tokens| {
      ParseEnd(p);
    } else {
      var t := p.tokens[p.pos];
      if IsArith(t) {
        ParseOperatorStep(p);
        ParseBuildsComplete(Advance(p));
        var (q1, o1) := Parse(Advance(p));
        if o1.Pass? && |q1.nodes| >= 2 {
          ParseBuildsComplete(Combine(q1, t));
        }
      } else if t == OpenBlock {
        ParseOpenStep(p);
        var p1 := Open(p);
        ParseBuildsComplete(p1);
        var (q1, o1) := Parse(p1);
        if o1.Pass? && |q1.nodes| != 0 {
          ParseBuildsComplete(Wrap(q1));
        }
      } else if t == CloseBlock {
        ParseCloseStep(p);
      } else if t.Int? {
        ParseIntStep(p);
        ParseBuildsComplete(Push(p, Num(t.val)));
      } else {
        ParseRefusedStep(p);
      }
    }
  }

  /** In a successful frame every number adds a node and every operator
      joins two into one; brackets leave the count alone. */
  lemma {:induction false} ParsePassNodes(p: Parser)
    requires Valid(p)
    ensures var (q, o) := Parse(p);
      o.Pass? ==> |q.nodes| == |p.nodes| + Total(p.tokens[p.pos..q.pos], NodeDelta)
    decreases |p.tokens| - p.pos
  {
    hide Parse, Total;
    var ts := p.tokens;
    if p.pos == |ts| {
      ParseEnd(p);
      TotalEmpty(ts[p.pos..p.pos], NodeDelta);
    } else {
      var t := ts[p.pos];
      if IsArith(t) {
        ParseOperatorStep(p);
        ParsePassNodes(Advance(p));
        var (q1, o1) := Parse(Advance(p));
        if o1.Pass? && |q1.nodes| >= 2 {
          var p2 := Combine(q1, t);
          ParsePassNodes(p2);
          TotalSegments(ts, p.pos, q1.pos, Parse(p2).0.pos, NodeDelta);
        }
      } else if t == OpenBlock {
        ParseOpenStep(p);
        var p1 := Open(p);
        ParsePassNodes(p1);
        var (q1, o1) := Parse(p1);
        if o1.Pass? && |q1.nodes| != 0 {
          ParsePassNodes(Wrap(q1));
          TotalSegments(ts, p.pos, q1.pos, Parse(Wrap(q1)).0.pos, NodeDelta);
        }
      } else if t == CloseBlock {
        ParseCloseStep(p);
        if p.parens != [] {
          TotalSegments(ts, p.pos, p.pos + 1, p.pos + 1, NodeDelta);
          TotalEmpty(ts[p.pos + 1..p.pos + 1], NodeDelta);
        }
      } else if t.Int? {
        ParseIntStep(p);
        var p1 := Push(p, Num(t.val));
        ParsePassNodes(p1);
        TotalSegments(ts, p.pos, p.pos + 1, Parse(p1).0.pos, NodeDelta);
        TotalEmpty(ts[p.pos + 1..p.pos + 1], NodeDelta);
      } else {
        ParseRefusedStep(p);
      }
    }
  }

  /** In a successful frame every `[` opens one bracket and every `]`
      closes one. */
  lemma {:induction false} ParsePassDepth(p: Parser)
    requires Valid(p)
    ensures var (q, o) := Parse(p);
      o.Pass? ==> |q.parens| == |p.parens| + Total(p.tokens[p.pos..q.pos], DepthDelta)
    decreases |p.tokens| - p.pos
  {
    hide Parse, Total;
    var ts := p.tokens;
    if p.pos == |ts| {
      ParseEnd(p);
      TotalEmpty(ts[p.pos..p.pos], DepthDelta);
    } else {
      var t := ts[p.pos];
      if IsArith(t) {
        ParseOperatorStep(p);
        ParsePassDepth(Advance(p));
        var (q1, o1) := Parse(Advance(p));
        if o1.Pass? && |q1.nodes| >= 2 {
          var p2 := Combine(q1, t);
          ParsePassDepth(p2);
          TotalSegments(ts, p.pos, q1.pos, Parse(p2).0.pos, DepthDelta);
        }
      } else if t == OpenBlock {
        ParseOpenStep(p);
        var p1 := Open(p);
        ParsePassDepth(p1);
        var (q1, o1) := Parse(p1);
        if o1.Pass? && |q1.nodes| != 0 {
          ParsePassDepth(Wrap(q1));
          TotalSegments(ts, p.pos, q1.pos, Parse(Wrap(q1)).0.pos, DepthDelta);
        }
      } else if t == CloseBlock {
        ParseCloseStep(p);
        if p.parens != [] {
          TotalSegments(ts, p.pos, p.pos + 1, p.pos + 1, DepthDelta);
          TotalEmpty(ts[p.pos + 1..p.pos + 1], DepthDelta);
        }
      } else if t.Int? {
        ParseIntStep(p);
        var p1 := Push(p, Num(t.val));
        ParsePassDepth(p1);
        TotalSegments(ts, p.pos, p.pos + 1, Parse(p1).0.pos, DepthDelta);
        TotalEmpty(ts[p.pos + 1..p.pos + 1], DepthDelta);
      } else {
        ParseRefusedStep(p);
      }
    }
  }

  /** Splitting the prefix `ts[..j]` at `i`. */
  lemma TotalPrefix(ts: seq<Token>, i: nat, j: nat, f: Token -> int)
    requires i <= j <= |ts|
    ensures Total(ts[..j], f) == Total(ts[..i], f) + Total(ts[i..j], f)
  {
    assert ts[..j] == ts[..i] + ts[i..j];
    TotalConcat(ts[..i], ts[i..j], f);
  }

  /** Extending a prefix by one token. */
  lemma TotalStep(ts: seq<Token>, i: nat, f: Token -> int)
    requires i < |ts|
    ensures Total(ts[..i + 1], f) == Total(ts[..i], f) + f(ts[i])
  {
    TotalPrefix(ts, i, i + 1, f);
    assert ts[i..i + 1][1..] == [];
  }

  /** A `]` never meets an empty bracket stack in a successful frame: at
      every point the frame reads, the `]` read since its start exceed the
      `[` by at most the brackets open when it started. */
  lemma {:induction false} ParsePassPrefixes(p: Parser)
    requires Valid(p)
    ensures var (q, o) := Parse(p);
      o.Pass? ==> forall k | p.pos <= k <= q.pos ::
        Total(p.tokens[..k], DepthDelta) + |p.parens| >= Total(p.tokens[..p.pos], DepthDelta)
    decreases |p.tokens| - p.pos
  {
    hide Parse, Total;
    var ts := p.tokens;
    if p.pos == |ts| {
      ParseEnd(p);
    } else {
      var t := ts[p.pos];
      TotalStep(ts, p.pos, DepthDelta);
      if IsArith(t) {
        ParseOperatorStep(p);
        var p1 := Advance(p);
        ParsePassPrefixes(p1);
        var (q1, o1) := Parse(p1);
        if o1.Pass? && |q1.nodes| >= 2 {
          ParsePassDepth(p1);
          TotalPrefix(ts, p1.pos, q1.pos, DepthDelta);
          ParsePassPrefixes(Combine(q1, t));
        }
      } else if t == OpenBlock {
        ParseOpenStep(p);
        var p1 := Open(p);
        ParsePassPrefixes(p1);
        var (q1, o1) := Parse(p1);
        if o1.Pass? && |q1.nodes| != 0 {
          ParsePassDepth(p1);
          TotalPrefix(ts, p1.pos, q1.pos, DepthDelta);
          ParsePassPrefixes(Wrap(q1));
        }
      } else if t == CloseBlock {
        ParseCloseStep(p);
      } else if t.Int? {
        ParseIntStep(p);
        ParsePassPrefixes(Push(p, Num(t.val)));
      } else {
        ParseRefusedStep(p);
      }
    }
  }

  /** The errors `parse` itself raises. */
  predicate ParseError(e: Error) {
    e in {MissingOperand, EmptyBracket, UnmatchedClose, MismatchedBracket, UnclosedBracket,
          NotImplemented(Symbol), NotImplemented(Declaration), NotImplemented(Assignment)}
  }

  /** A failing frame reports one of the parser's own errors, never one of
      evaluation's. */
  lemma {:induction false} ParseFailsInParsing(p: Parser)
    requires Valid(p)
    ensures var (q, o) := Parse(p); o.Fail? ==> ParseError(o.error)
    decreases |p.tokens| - p.pos
  {
    hide Parse;
    if p.pos == |p.tokens| {
      ParseEnd(p);
    } else {
      var t := p.tokens[p.pos];
      if IsArith(t) {
        ParseOperatorStep(p);
        ParseFailsInParsing(Advance(p));
        var (q1, o1) := Parse(Advance(p));
        if o1.Pass? && |q1.nodes| >= 2 {
          ParseFailsInParsing(Combine(q1, t));
        }
      } else if t == OpenBlock {
        ParseOpenStep(p);
        var p1 := Open(p);
        ParseFailsInParsing(p1);
        var (q1, o1) := Parse(p1);
        if o1.Pass? && |q1.nodes| != 0 {
          ParseFailsInParsing(Wrap(q1));
        }
      } else if t == CloseBlock {
        ParseCloseStep(p);
      } else if t.Int? {
        ParseIntStep(p);
        ParseFailsInParsing(Push(p, Num(t.val)));
      } else {
        ParseRefusedStep(p);
      }
    }
  }

  /** A parse from the start that succeeds has read every token, left no
      bracket open, met balanced brackets (as many `]` as `[`, and never a
      `]` with no `[` before it to close), no name, `let` or `=`, and
      left as many nodes as numbers minus operators read, each complete. */
  lemma ParseFromStart(tokens: seq<Token>)
    ensures var (q, o) := Parse(New(tokens));
      && (o.Fail? ==> ParseError(o.error) && o.error != MismatchedBracket)
      && Built(q.nodes)
      && (o.Pass? ==>
            && q.pos == |tokens| && q.parens == []
            && Total(tokens, DepthDelta) == 0
            && (forall k | 0 <= k <= |tokens| :: Total(tokens[..k], DepthDelta) >= 0)
            && Supported(tokens, 0, |tokens|)
            && |q.nodes| == Total(tokens, NodeDelta))
  {
    var p := New(tokens);
    assert tokens[0..|tokens|] == tokens;
    ParsePassEnds(p);
    ParsePassSupported(p);
    ParsePassNodes(p);
    ParsePassDepth(p);
    ParsePassPrefixes(p);
    assert tokens[..0] == [];
    ParseKeepsOpens(p);
    ParseBuildsComplete(p);
    ParseFailsInParsing(p);
  }

  // ---------------------------------------------------------------------
  // Operator chains

  /** The tokens of `a op1 b op2 c ...`. */
  function ChainTokens(first: i32, links: seq<Link>): (ts: seq<Token>)
    ensures |ts| == 2 * |links| + 1
    decreases |links|
  {
    if links == [] then [Int(first)]
    else [Int(first), links[0].op] + ChainTokens(links[0].operand, links[1..])
  }

  /** With no bracket open, a chain of numbers and operators parses to the
      right fold of the chain: each operator takes everything after it as
      its right operand. */
  lemma {:induction false} ParseChain(p: Parser, first: i32, links: seq<Link>)
    requires Valid(p) && p.parens == [] && ArithLinks(links)
    requires p.tokens[p.pos..] == ChainTokens(first, links)
    ensures Parse(p) == (p.(pos := |p.tokens|, nodes := p.nodes + [ChainTree(first, links)]), Pass)
    decreases |links|
  {
    hide Parse;
    assert p.tokens[p.pos] == Int(first);
    ParseIntStep(p);
    var p1 := Push(p, Num(first));
    if links == [] {
      ParseEnd(p1);
    } else {
      assert p.tokens[p1.pos] == links[0].op;
      ParseOperatorStep(p1);
      var p2 := Advance(p1);
      assert p2.tokens[p2.pos..] == ChainTokens(links[0].operand, links[1..]) by {
        assert p2.tokens[p2.pos..] == p.tokens[p.pos..][2..];
      }
      ParseChain(p2, links[0].operand, links[1..]);
      var q2 := Parse(p2).0;
      var r := Combine(q2, links[0].op);
      assert r.nodes == p.nodes + [ChainTree(first, links)] by {
        assert r.nodes[..|r.nodes| - 1] == p.nodes;
      }
      ParseEnd(r);
      assert r == p.(pos := |p.tokens|, nodes := p.nodes + [ChainTree(first, links)]);
    }
  }
}
