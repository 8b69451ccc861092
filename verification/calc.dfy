/** The interpreter front end (src/calc.rs): `Interpreter::evaluate` runs
    the lexer, hands the tokens to its parser, takes the single node left
    on the stack as the root of its tree and evaluates it. */
module Calc {
  import opened Wrappers
  import opened I32
  import opened Errors
  import opened Lexer
  import opened Nodes
  import opened Parsing

  /** `AbstractTree`: the root the parser produced. Its `vars` table is
      never read or written and is not kept. */
  datatype AbstractTree = AbstractTree(root: Option<Node>)

  datatype Interpreter = Interpreter(ast: AbstractTree, parser: Parser)

  /** `Interpreter::new`: no root and a parser over no tokens. */
  function NewInterpreter(): (it: Interpreter)
    ensures it.ast.root.None?
    ensures it.parser == Parsing.New([])
  {
    Interpreter(AbstractTree(None), Parsing.New([]))
  }

  /** The tokens of `expr` and the parse of them from a fresh start. */
  function ParseText(expr: string): (Parser, Outcome<Error>)
    requires LiteralsFit(expr)
  {
    Parse(Parsing.New(Lex(expr)))
  }

  /** `evaluate(expr)` does not panic: every literal fits in `i32`, and if
      the parse leaves a single root, evaluating it never overflows or
      divides by zero. Parsed trees read no variable cell, so the empty
      store stands for every store (`ParsedRootStoreFree`). */
  predicate Runs(expr: string) {
    && LiteralsFit(expr)
    && var (q, o) := ParseText(expr);
       o.Pass? && |q.nodes| == 1 ==> Safe(q.nodes[0], map[])
  }

  /** The root a parse leaves reads no cell, so it is safe under one store
      exactly when under any other, and then evaluates alike. */
  lemma ParsedRootStoreFree(expr: string, store: Store)
    requires LiteralsFit(expr)
    ensures var (q, o) := ParseText(expr);
      o.Pass? && |q.nodes| == 1 ==>
        && (Safe(q.nodes[0], store) <==> Safe(q.nodes[0], map[]))
        && (Safe(q.nodes[0], map[]) ==> Nodes.Evaluate(q.nodes[0], store) == Nodes.Evaluate(q.nodes[0], map[]))
  {
    ParseFromStart(Lex(expr));
    var (q, o) := ParseText(expr);
    if o.Pass? && |q.nodes| == 1 {
      EvaluateStoreFree(q.nodes[0], store, map[]);
    }
  }

  /** `Interpreter::evaluate`. `tokenize` never returns an error (the
      contract of `Tokenize`), so its `?` does not propagate; `set_tokens`
      discards whatever the previous call left. A parse error and a stack
      that does not hold exactly one node are returned with the parser as
      it stopped; otherwise the node is moved into the tree and evaluated. */
  function Evaluate(it: Interpreter, expr: string): (res: (Interpreter, Result<i32, Error>))
    requires Runs(expr)
    ensures res.0.parser.tokens == Lex(expr)
    ensures res.1.Success? ==> res.0.ast.root.Some? && res.0.parser.nodes == []
  {
    var p := SetTokens(it.parser, Lex(expr));
    var (q, o) := Parse(p);
    if o.Fail? then (it.(parser := q), Failure(o.error))
    else if |q.nodes| != 1 then (it.(parser := q), Failure(InvalidExpression))
    else
      var root := q.nodes[0];
      (Interpreter(AbstractTree(Some(root)), q.(nodes := [])), Nodes.Evaluate(root, map[]))
  }

  lemma EvaluateUnfold(it: Interpreter, expr: string)
    requires Runs(expr)
    ensures var (q, o) := ParseText(expr);
      Evaluate(it, expr).1 ==
        if o.Fail? then Failure(o.error)
        else if |q.nodes| != 1 then Failure(InvalidExpression)
        else Nodes.Evaluate(q.nodes[0], map[])
  {
    SetTokensForgets(it.parser, it.parser, Lex(expr));
  }

  /** The result of `evaluate` depends on the text alone, never on what
      earlier calls left in the interpreter, and so does the parser state
      it leaves. */
  lemma EvaluateForgetsHistory(it: Interpreter, it': Interpreter, expr: string)
    requires Runs(expr)
    ensures Evaluate(it, expr).1 == Evaluate(it', expr).1
    ensures Evaluate(it, expr).0.parser == Evaluate(it', expr).0.parser
  {
    SetTokensForgets(it.parser, it'.parser, Lex(expr));
  }

  /** `evaluate` succeeds exactly when the parse succeeds and leaves one
      node: evaluating a parsed tree never fails, so every error comes
      from the parser or from the node count, and none is the parser's
      bracket-mismatch error. */
  lemma EvaluateFailsOnlyInParsing(it: Interpreter, expr: string)
    requires Runs(expr)
    ensures var (q, o) := ParseText(expr);
      Evaluate(it, expr).1.Success? <==> o.Pass? && |q.nodes| == 1
    ensures var r := Evaluate(it, expr).1;
      r.Failure? ==> (ParseError(r.error) || r.error == InvalidExpression) && r.error != MismatchedBracket
  {
    EvaluateUnfold(it, expr);
    ParseFromStart(Lex(expr));
    var (q, o) := ParseText(expr);
    if o.Pass? && |q.nodes| == 1 {
      assert Complete(q.nodes[0]);
      CompleteEvaluates(q.nodes[0], map[]);
    }
  }

  /** What a successful `evaluate` has read: balanced brackets (as many `[`
      as `]`, and no prefix with more `]` than `[`), one more number than
      operators, and no name, `let` or `=`. */
  lemma EvaluateAccepts(it: Interpreter, expr: string)
    requires Runs(expr)
    ensures Evaluate(it, expr).1.Success? ==>
      var ts := Lex(expr);
      && Total(ts, DepthDelta) == 0
      && (forall k | 0 <= k <= |ts| :: Total(ts[..k], DepthDelta) >= 0)
      && Total(ts, NodeDelta) == 1
      && Supported(ts, 0, |ts|)
  {
    EvaluateUnfold(it, expr);
    ParseFromStart(Lex(expr));
  }

  /** A name, `let` or `=` anywhere in the input makes `evaluate` fail. */
  lemma EvaluateRejectsUnsupported(it: Interpreter, expr: string, i: nat)
    requires Runs(expr) && i < |Lex(expr)| && Refused(Lex(expr)[i])
    ensures Evaluate(it, expr).1.Failure?
  {
    EvaluateAccepts(it, expr);
  }

  /** After a successful call the interpreter holds the parsed root and an
      emptied node stack. */
  lemma EvaluateKeepsRoot(it: Interpreter, expr: string)
    requires Runs(expr)
    ensures var (it', r) := Evaluate(it, expr);
      r.Success? ==>
        && (var (q, _) := ParseText(expr); |q.nodes| == 1 && it'.ast.root == Some(q.nodes[0]))
        && it'.ast.root.Some? && Complete(it'.ast.root.value)
        && it'.parser.nodes == [] && it'.parser.parens == []
        && it'.parser.tokens == Lex(expr) && it'.parser.pos == |Lex(expr)|
        && r == Nodes.Evaluate(it'.ast.root.value, map[])
  {
    EvaluateFailsOnlyInParsing(it, expr);
    SetTokensForgets(it.parser, it.parser, Lex(expr));
    ParseFromStart(Lex(expr));
  }

  // ---------------------------------------------------------------------
  // Chains written out as text

  function OpChar(op: Token): (c: char)
    requires IsArith(op)
    ensures IsPunct(c) && PunctToken(c) == op
  {
    match op
    case Add => '+'
    case Sub => '-'
    case Mul => '*'
    case Div => '/'
  }

  predicate NonNegative(links: seq<Link>) {
    forall i | 0 <= i < |links| :: links[i].operand >= 0
  }

  /** `a op1 b op2 c ...` with single spaces around each operator. */
  function ChainText(first: i32, links: seq<Link>): string
    requires first >= 0 && NonNegative(links) && ArithLinks(links)
    decreases |links|
  {
    if links == [] then Numeral(first)
    else Numeral(first) + " " + ([OpChar(links[0].op)] + " " + ChainText(links[0].operand, links[1..]))
  }

  /** The text of a chain lexes to the chain's tokens. */
  lemma {:induction false} LexChainText(first: i32, links: seq<Link>)
    requires first >= 0 && NonNegative(links) && ArithLinks(links)
    ensures LiteralsFit(ChainText(first, links))
    ensures Lex(ChainText(first, links)) == ChainTokens(first, links)
    decreases |links|
  {
    assert InRange(first);
    NumeralValue(first);
    LexNumeral(Numeral(first));
    if links != [] {
      var c := OpChar(links[0].op);
      var rest := ChainText(links[0].operand, links[1..]);
      LexChainText(links[0].operand, links[1..]);
      LexPunct(c);
      LexConcat([c], rest);
      LexConcat(Numeral(first), [c] + " " + rest);
    }
  }

  /** `evaluate` on a chain of non-negative numbers and operators yields
      the chain folded to the right, `a op1 (b op2 (c ...))`, whenever
      every partial result fits in `i32`. */
  lemma EvaluateChainText(it: Interpreter, first: i32, links: seq<Link>)
    requires first >= 0 && NonNegative(links) && ArithLinks(links) && ChainFits(first, links)
    ensures Runs(ChainText(first, links))
    ensures Evaluate(it, ChainText(first, links)).1 == Success(ChainValue(first, links).value as i32)
  {
    LexChainText(first, links);
    var ts := ChainTokens(first, links);
    var p := Parsing.New(ts);
    assert p.tokens[p.pos..] == ts;
    ParseChain(p, first, links);
    EvaluateChain(first, links, map[]);
    EvaluateUnfold(it, ChainText(first, links));
  }

  /** `a op b` evaluates to the operator's `i32` result when that does not
      panic. */
  lemma EvaluateBinary(it: Interpreter, a: i32, op: Token, b: i32)
    requires a >= 0 && b >= 0 && IsArith(op) && ArithOk(op, a, b)
    ensures Runs(Numeral(a) + " " + [OpChar(op)] + " " + Numeral(b))
    ensures Evaluate(it, Numeral(a) + " " + [OpChar(op)] + " " + Numeral(b)).1 == Success(Arith(op, a, b) as i32)
  {
    var links := [Link(op, b)];
    assert ChainText(b, []) == Numeral(b);
    assert ChainText(a, links) == Numeral(a) + " " + [OpChar(op)] + " " + Numeral(b);
    assert links[1..] == [];
    assert ChainFits(b, []);
    assert ChainValue(a, links) == Some(Arith(op, a, b));
    assert ChainFits(a, links);
    EvaluateChainText(it, a, links);
  }

  // ---------------------------------------------------------------------
  // A bracketed pair followed by an operand

  function Op(op: Token, left: Node, right: Node): Node {
    Operator(op, Some(left), Some(right))
  }

  /** `[a op1 b] op2 c`. */
  function PairText(a: i32, op1: Token, b: i32, op2: Token, c: i32): string
    requires a >= 0 && b >= 0 && c >= 0 && IsArith(op1) && IsArith(op2)
  {
    "[" + (Numeral(a) + " " + ([OpChar(op1)] + " " + (Numeral(b) + ("]" + " " + ([OpChar(op2)] + " " + Numeral(c))))))
  }

  function PairTokens(a: i32, op1: Token, b: i32, op2: Token, c: i32): seq<Token> {
    [OpenBlock, Int(a), op1, Int(b), CloseBlock, op2, Int(c)]
  }

  lemma LexPairText(a: i32, op1: Token, b: i32, op2: Token, c: i32)
    requires a >= 0 && b >= 0 && c >= 0 && IsArith(op1) && IsArith(op2)
    ensures LiteralsFit(PairText(a, op1, b, op2, c))
    ensures Lex(PairText(a, op1, b, op2, c)) == PairTokens(a, op1, b, op2, c)
  {
    hide Lexemes, ToTokens, Lex;
    assert InRange(a) && InRange(b) && InRange(c);
    NumeralValue(a);
    NumeralValue(b);
    NumeralValue(c);
    LexNumeral(Numeral(a));
    LexNumeral(Numeral(b));
    LexNumeral(Numeral(c));
    var c1, c2 := OpChar(op1), OpChar(op2);
    LexPunct(c1);
    LexPunct(c2);
    LexPunct(']');
    var t5 := [c2] + " " + Numeral(c);
    LexConcat([c2], Numeral(c));
    var t4 := "]" + " " + t5;
    LexConcat("]", t5);
    var t3 := Numeral(b) + t4;
    LexDigitsBefore(Numeral(b), t4);
    var t2 := [c1] + " " + t3;
    LexConcat([c1], t3);
    var t1 := Numeral(a) + " " + t2;
    LexConcat(Numeral(a), t2);
    LexPunctBefore('[', t1);
    assert PairText(a, op1, b, op2, c) == ['['] + t1;
  }

  /** The frame of `op1` ends at the `]`, popping the bracket. */
  lemma ParsePairInner(a: i32, op1: Token, b: i32, op2: Token, c: i32)
    ensures var ts := PairTokens(a, op1, b, op2, c);
      Parse(Parser(ts, 3, [OpenBlock], [Num(a)])) == (Parser(ts, 5, [], [Num(a), Num(b)]), Pass)
  {
    hide Parse;
    var ts := PairTokens(a, op1, b, op2, c);
    ParseCloseStep(Parser(ts, 4, [OpenBlock], [Num(a), Num(b)]));
    ParseIntStep(Parser(ts, 3, [OpenBlock], [Num(a)]));
    assert [Num(a)] + [Num(b)] == [Num(a), Num(b)];
  }

  /** The frame of `op2` runs to the end of the input. */
  lemma ParsePairOuter(a: i32, op1: Token, b: i32, op2: Token, c: i32, d: Node)
    requires IsArith(op2)
    ensures var ts := PairTokens(a, op1, b, op2, c);
      Parse(Parser(ts, 5, [], [d])) == (Parser(ts, 7, [], [Op(op2, d, Num(c))]), Pass)
  {
    hide Parse;
    var ts := PairTokens(a, op1, b, op2, c);
    ParseEnd(Parser(ts, 7, [], [d, Num(c)]));
    ParseIntStep(Parser(ts, 6, [], [d]));
    assert [d] + [Num(c)] == [d, Num(c)];
    ParseEnd(Parser(ts, 7, [], [Op(op2, d, Num(c))]));
    ParseOperatorStep(Parser(ts, 5, [], [d]));
  }

  /** `[a op1 b] op2 c` parses to one block around `(a op1 b) op2 c`: the
      `]` ends the frame of `op1` only, the frame of `[` goes on, and so
      the whole text becomes the bracket's body. */
  lemma ParsePair(a: i32, op1: Token, b: i32, op2: Token, c: i32)
    requires IsArith(op1) && IsArith(op2)
    ensures var ts := PairTokens(a, op1, b, op2, c);
      Parse(Parsing.New(ts)) == (Parser(ts, 7, [], [Block(Some(Op(op2, Op(op1, Num(a), Num(b)), Num(c))))]), Pass)
  {
    hide Parse;
    var ts := PairTokens(a, op1, b, op2, c);
    var d := Op(op1, Num(a), Num(b));
    var e := Op(op2, d, Num(c));
    ParsePairInner(a, op1, b, op2, c);
    ParsePairOuter(a, op1, b, op2, c, d);
    ParseOperatorStep(Parser(ts, 2, [OpenBlock], [Num(a)]));
    assert Parse(Parser(ts, 2, [OpenBlock], [Num(a)])) == (Parser(ts, 7, [], [e]), Pass);
    ParseIntStep(Parser(ts, 1, [OpenBlock], []));
    assert [] + [Num(a)] == [Num(a)];
    ParseEnd(Parser(ts, 7, [], [Block(Some(e))]));
    ParseOpenStep(Parser(ts, 0, [], []));
    assert [] + [OpenBlock] == [OpenBlock];
  }

  /** `evaluate` on `[a op1 b] op2 c` applies `op1` first, whichever the
      operators are. */
  lemma EvaluatePairText(it: Interpreter, a: i32, op1: Token, b: i32, op2: Token, c: i32)
    requires a >= 0 && b >= 0 && c >= 0 && IsArith(op1) && IsArith(op2)
    requires ArithOk(op1, a, b) && ArithOk(op2, Arith(op1, a, b), c)
    ensures Runs(PairText(a, op1, b, op2, c))
    ensures ParseText(PairText(a, op1, b, op2, c)).0.nodes == [Block(Some(Op(op2, Op(op1, Num(a), Num(b)), Num(c))))]
    ensures Evaluate(it, PairText(a, op1, b, op2, c)).1 == Success(Arith(op2, Arith(op1, a, b), c) as i32)
  {
    hide Parse, Lexemes, ToTokens, Lex;
    LexPairText(a, op1, b, op2, c);
    ParsePair(a, op1, b, op2, c);
    var d := Op(op1, Num(a), Num(b));
    EvaluateOperator(op1, Num(a), Num(b), map[]);
    assert Safe(d, map[]) && Nodes.Evaluate(d, map[]) == Success(Arith(op1, a, b) as i32);
    var e := Op(op2, d, Num(c));
    EvaluateOperator(op2, d, Num(c), map[]);
    assert Safe(e, map[]) && Nodes.Evaluate(e, map[]) == Success(Arith(op2, Arith(op1, a, b), c) as i32);
    assert Safe(Block(Some(e)), map[]);
    EvaluateUnfold(it, PairText(a, op1, b, op2, c));
  }
}
