/** Worked inputs: what `Interpreter::evaluate` returns on particular
    texts, the one in src/main.rs among them. */
module Scenarios {
  import opened Wrappers
  import opened I32
  import opened Errors
  import opened Lexer
  import opened Nodes
  import opened Parsing
  import opened Calc

  /** `evaluate` on a text whose tokens and parse are known. */
  lemma EvaluateKnown(it: Interpreter, expr: string, ts: seq<Token>, q: Parser, o: Outcome<Error>)
    requires LiteralsFit(expr) && Lex(expr) == ts && Parse(Parsing.New(ts)) == (q, o)
    requires o.Pass? && |q.nodes| == 1 ==> Safe(q.nodes[0], map[])
    ensures Runs(expr)
    ensures Calc.Evaluate(it, expr).1 ==
      if o.Fail? then Failure(o.error)
      else if |q.nodes| != 1 then Failure(InvalidExpression)
      else Nodes.Evaluate(q.nodes[0], map[])
  {
    EvaluateUnfold(it, expr);
  }

  // ---------------------------------------------------------------------
  // Values

  /** The input of src/main.rs: `*` binds no tighter than `-`, and the
      chain folds to the right, so this is `11 - (6 * 2)`. */
  lemma MainExample(it: Interpreter)
    ensures Runs("11 - 6 * 2")
    ensures Calc.Evaluate(it, "11 - 6 * 2").1 == Success(-1)
  {
    var links := [Link(Sub, 6), Link(Mul, 2)];
    assert ChainText(11, links) == "11 - 6 * 2";
    assert ChainFits(11, links);
    EvaluateChainText(it, 11, links);
  }

  /** Subtraction chains group to the right: `2 - (1 - 1)`. */
  lemma ChainsGroupRight(it: Interpreter)
    ensures Runs("2 - 1 - 1")
    ensures Calc.Evaluate(it, "2 - 1 - 1").1 == Success(2)
  {
    var links := [Link(Sub, 1), Link(Sub, 1)];
    assert ChainText(2, links) == "2 - 1 - 1";
    assert ChainFits(2, links);
    EvaluateChainText(it, 2, links);
  }

  /** A leading bracket makes the first difference be taken first. */
  lemma BracketGroupsLeft(it: Interpreter)
    ensures Runs("[2 - 1] - 1")
    ensures ParseText("[2 - 1] - 1").0.nodes == [Block(Some(Op(Sub, Op(Sub, Num(2), Num(1)), Num(1))))]
    ensures Calc.Evaluate(it, "[2 - 1] - 1").1 == Success(0)
  {
    assert PairText(2, Sub, 1, Sub, 1) == "[2 - 1] - 1";
    EvaluatePairText(it, 2, Sub, 1, Sub, 1);
  }

  /** `/` rounds toward zero: -7 / 2 is -3, not -4. */
  lemma DivisionTruncates(it: Interpreter)
    ensures Runs("[0 - 7] / 2")
    ensures Calc.Evaluate(it, "[0 - 7] / 2").1 == Success(-3)
  {
    assert PairText(0, Sub, 7, Div, 2) == "[0 - 7] / 2";
    assert TruncDiv(-7, 2) == -3;
    EvaluatePairText(it, 0, Sub, 7, Div, 2);
  }

  lemma LexLooseBracket()
    ensures LiteralsFit("1 [+ 2]")
    ensures Lex("1 [+ 2]") == [Int(1), OpenBlock, Add, Int(2), CloseBlock]
  {
    hide Lexemes, ToTokens, Lex;
    LexNumeral("1");
    LexNumeral("2");
    LexPunct(']');
    LexPunct('+');
    LexDigitsBefore("2", "]");
    assert "2" + "]" == "2]";
    assert Lex("2]") == [Int(2), CloseBlock];
    LexConcat("+", "2]");
    assert "+" + " " + "2]" == "+ 2]";
    assert Lex("+ 2]") == [Add, Int(2), CloseBlock];
    LexPunctBefore('[', "+ 2]");
    assert ['['] + "+ 2]" == "[+ 2]";
    assert Lex("[+ 2]") == [OpenBlock, Add, Int(2), CloseBlock];
    LexConcat("1", "[+ 2]");
    assert "1" + " " + "[+ 2]" == "1 [+ 2]";
  }

  /** Inside the bracket, the `+` frame returns at the `]` holding the sum. */
  lemma ParseLooseBracketInner()
    ensures var ts := [Int(1), OpenBlock, Add, Int(2), CloseBlock];
      Parse(Parser(ts, 2, [OpenBlock], [Num(1)])) == (Parser(ts, 5, [], [Op(Add, Num(1), Num(2))]), Pass)
  {
    hide Parse;
    var ts := [Int(1), OpenBlock, Add, Int(2), CloseBlock];
    var sum := Op(Add, Num(1), Num(2));
    ParseCloseStep(Parser(ts, 4, [OpenBlock], [Num(1), Num(2)]));
    ParseIntStep(Parser(ts, 3, [OpenBlock], [Num(1)]));
    assert [Num(1)] + [Num(2)] == [Num(1), Num(2)];
    ParseEnd(Parser(ts, 5, [], [sum]));
    ParseOperatorStep(Parser(ts, 2, [OpenBlock], [Num(1)]));
  }

  lemma ParseLooseBracket()
    ensures var ts := [Int(1), OpenBlock, Add, Int(2), CloseBlock];
      Parse(Parsing.New(ts)) == (Parser(ts, 5, [], [Block(Some(Op(Add, Num(1), Num(2))))]), Pass)
  {
    hide Parse;
    var ts := [Int(1), OpenBlock, Add, Int(2), CloseBlock];
    var sum := Op(Add, Num(1), Num(2));
    ParseLooseBracketInner();
    ParseEnd(Parser(ts, 5, [], [Block(Some(sum))]));
    ParseOpenStep(Parser(ts, 1, [], [Num(1)]));
    assert [] + [OpenBlock] == [OpenBlock];
    ParseIntStep(Parser(ts, 0, [], []));
    assert [] + [Num(1)] == [Num(1)];
  }

  /** A bracket does not start a fresh node stack: the `+` inside takes the
      `1` before the bracket as its left operand. */
  lemma BracketTakesOuterOperand(it: Interpreter)
    ensures Runs("1 [+ 2]")
    ensures ParseText("1 [+ 2]").0.nodes == [Block(Some(Op(Add, Num(1), Num(2))))]
    ensures Calc.Evaluate(it, "1 [+ 2]").1 == Success(3)
  {
    hide Parse, Lexemes, ToTokens, Lex;
    LexLooseBracket();
    ParseLooseBracket();
    var ts := [Int(1), OpenBlock, Add, Int(2), CloseBlock];
    var sum := Op(Add, Num(1), Num(2));
    EvaluateOperator(Add, Num(1), Num(2), map[]);
    EvaluateKnown(it, "1 [+ 2]", ts, Parser(ts, 5, [], [Block(Some(sum))]), Pass);
  }

  lemma LexClosedBracket()
    ensures LiteralsFit("[1] + 2")
    ensures Lex("[1] + 2") == [OpenBlock, Int(1), CloseBlock, Add, Int(2)]
  {
    hide Lexemes, ToTokens, Lex;
    LexNumeral("1");
    LexNumeral("2");
    LexPunct(']');
    LexPunct('+');
    LexDigitsBefore("1", "]");
    assert "1" + "]" == "1]";
    LexPunctBefore('[', "1]");
    assert ['['] + "1]" == "[1]";
    assert Lex("[1]") == [OpenBlock, Int(1), CloseBlock];
    LexConcat("+", "2");
    assert "+" + " " + "2" == "+ 2";
    LexConcat("[1]", "+ 2");
    assert "[1]" + " " + "+ 2" == "[1] + 2";
  }

  /** After the bracket has closed, `+ 2` joins the block and the 2. */
  lemma ParseClosedBracketTail()
    ensures var ts := [OpenBlock, Int(1), CloseBlock, Add, Int(2)];
      var b := Block(Some(Num(1)));
      Parse(Parser(ts, 3, [], [b])) == (Parser(ts, 5, [], [Op(Add, b, Num(2))]), Pass)
  {
    hide Parse;
    var ts := [OpenBlock, Int(1), CloseBlock, Add, Int(2)];
    var b := Block(Some(Num(1)));
    ParseIntStep(Parser(ts, 4, [], [b]));
    assert [b] + [Num(2)] == [b, Num(2)];
    ParseEnd(Parser(ts, 5, [], [b, Num(2)]));
    ParseEnd(Parser(ts, 5, [], [Op(Add, b, Num(2))]));
    ParseOperatorStep(Parser(ts, 3, [], [b]));
  }

  /** The bracket's own frame reads the `]`, so the block holds `1` only. */
  lemma ParseClosedBracket()
    ensures var ts := [OpenBlock, Int(1), CloseBlock, Add, Int(2)];
      Parse(Parsing.New(ts)) == (Parser(ts, 5, [], [Op(Add, Block(Some(Num(1))), Num(2))]), Pass)
  {
    hide Parse;
    var ts := [OpenBlock, Int(1), CloseBlock, Add, Int(2)];
    ParseClosedBracketTail();
    ParseCloseStep(Parser(ts, 2, [OpenBlock], [Num(1)]));
    ParseIntStep(Parser(ts, 1, [OpenBlock], []));
    assert [] + [Num(1)] == [Num(1)];
    ParseOpenStep(Parser(ts, 0, [], []));
    assert [] + [OpenBlock] == [OpenBlock];
  }

  /** A `]` read by the bracket's own frame closes the bracket: `[1] + 2`
      is the block `[1]` plus 2, not one block around the whole text. */
  lemma BracketClosesEarly(it: Interpreter)
    ensures Runs("[1] + 2")
    ensures ParseText("[1] + 2").0.nodes == [Op(Add, Block(Some(Num(1))), Num(2))]
    ensures Calc.Evaluate(it, "[1] + 2").1 == Success(3)
  {
    hide Parse, Lexemes, ToTokens, Lex;
    LexClosedBracket();
    ParseClosedBracket();
    var ts := [OpenBlock, Int(1), CloseBlock, Add, Int(2)];
    var b := Block(Some(Num(1)));
    EvaluateOperator(Add, b, Num(2), map[]);
    EvaluateKnown(it, "[1] + 2", ts, Parser(ts, 5, [], [Op(Add, b, Num(2))]), Pass);
  }

  // ---------------------------------------------------------------------
  // Errors

  /** Empty input leaves no node. */
  lemma EmptyText(it: Interpreter)
    ensures Runs("") && Calc.Evaluate(it, "").1 == Failure(InvalidExpression)
  {
    LexemesEmpty();
    ParseEnd(Parsing.New([]));
    EvaluateUnfold(it, "");
  }

  /** Two numbers without an operator leave two nodes. */
  lemma TwoNumbers(it: Interpreter)
    ensures Runs("1 2") && Calc.Evaluate(it, "1 2").1 == Failure(InvalidExpression)
  {
    hide Parse, Lexemes, ToTokens, Lex;
    LexNumeral("1");
    LexNumeral("2");
    LexConcat("1", "2");
    assert "1" + " " + "2" == "1 2";
    var ts := [Int(1), Int(2)];
    ParseEnd(Parser(ts, 2, [], [Num(1), Num(2)]));
    ParseIntStep(Parser(ts, 1, [], [Num(1)]));
    assert [Num(1)] + [Num(2)] == [Num(1), Num(2)];
    ParseIntStep(Parser(ts, 0, [], []));
    assert [] + [Num(1)] == [Num(1)];
    EvaluateKnown(it, "1 2", ts, Parser(ts, 2, [], [Num(1), Num(2)]), Pass);
  }

  /** A `[` never closed fails when its frame reaches the end. */
  lemma UnclosedBracketFails(it: Interpreter)
    ensures Runs("[1 + 2") && Calc.Evaluate(it, "[1 + 2").1 == Failure(UnclosedBracket)
  {
    hide Parse, Lexemes, ToTokens, Lex;
    var links := [Link(Add, 2)];
    assert ChainText(1, links) == "1 + 2";
    LexChainText(1, links);
    LexPunctBefore('[', "1 + 2");
    assert ['['] + "1 + 2" == "[1 + 2";
    var ts := [OpenBlock, Int(1), Add, Int(2)];
    ParseEnd(Parser(ts, 4, [OpenBlock], [Num(1), Num(2)]));
    ParseIntStep(Parser(ts, 3, [OpenBlock], [Num(1)]));
    assert [Num(1)] + [Num(2)] == [Num(1), Num(2)];
    ParseOperatorStep(Parser(ts, 2, [OpenBlock], [Num(1)]));
    ParseIntStep(Parser(ts, 1, [OpenBlock], []));
    assert [] + [Num(1)] == [Num(1)];
    ParseOpenStep(Parser(ts, 0, [], []));
    assert [] + [OpenBlock] == [OpenBlock];
    EvaluateKnown(it, "[1 + 2", ts, Parser(ts, 4, [OpenBlock], [Num(1), Num(2)]), Fail(UnclosedBracket));
  }

  /** A `]` with no bracket open fails. */
  lemma UnmatchedCloseFails(it: Interpreter)
    ensures Runs("1 + 2]") && Calc.Evaluate(it, "1 + 2]").1 == Failure(UnmatchedClose)
  {
    hide Parse, Lexemes, ToTokens, Lex;
    LexNumeral("1");
    LexNumeral("2");
    LexPunct('+');
    LexPunct(']');
    LexDigitsBefore("2", "]");
    assert "2" + "]" == "2]";
    LexConcat("+", "2]");
    assert "+" + " " + "2]" == "+ 2]";
    LexConcat("1", "+ 2]");
    assert "1" + " " + "+ 2]" == "1 + 2]";
    var ts := [Int(1), Add, Int(2), CloseBlock];
    ParseCloseStep(Parser(ts, 3, [], [Num(1), Num(2)]));
    ParseIntStep(Parser(ts, 2, [], [Num(1)]));
    assert [Num(1)] + [Num(2)] == [Num(1), Num(2)];
    ParseOperatorStep(Parser(ts, 1, [], [Num(1)]));
    ParseIntStep(Parser(ts, 0, [], []));
    assert [] + [Num(1)] == [Num(1)];
    EvaluateKnown(it, "1 + 2]", ts, Parser(ts, 3, [], [Num(1), Num(2)]), Fail(UnmatchedClose));
  }

  /** An operator at the end has no right operand. */
  lemma MissingOperandFails(it: Interpreter)
    ensures Runs("1 +") && Calc.Evaluate(it, "1 +").1 == Failure(MissingOperand)
  {
    hide Parse, Lexemes, ToTokens, Lex;
    LexNumeral("1");
    LexPunct('+');
    LexConcat("1", "+");
    assert "1" + " " + "+" == "1 +";
    var ts := [Int(1), Add];
    ParseEnd(Parser(ts, 2, [], [Num(1)]));
    ParseOperatorStep(Parser(ts, 1, [], [Num(1)]));
    ParseIntStep(Parser(ts, 0, [], []));
    assert [] + [Num(1)] == [Num(1)];
    EvaluateKnown(it, "1 +", ts, Parser(ts, 2, [], [Num(1)]), Fail(MissingOperand));
  }

  /** Brackets around nothing fail. */
  lemma EmptyBracketFails(it: Interpreter)
    ensures Runs("[]") && Calc.Evaluate(it, "[]").1 == Failure(EmptyBracket)
  {
    hide Parse, Lexemes, ToTokens, Lex;
    LexPunct(']');
    LexPunctBefore('[', "]");
    assert ['['] + "]" == "[]";
    var ts := [OpenBlock, CloseBlock];
    ParseCloseStep(Parser(ts, 1, [OpenBlock], []));
    ParseOpenStep(Parser(ts, 0, [], []));
    assert [] + [OpenBlock] == [OpenBlock];
    EvaluateKnown(it, "[]", ts, Parser(ts, 2, [], []), Fail(EmptyBracket));
  }

  /** A name is refused where it stands. */
  lemma NameRefused(it: Interpreter)
    ensures Runs("x + 1") && Calc.Evaluate(it, "x + 1").1 == Failure(NotImplemented(Symbol))
  {
    hide Parse, Lexemes, ToTokens, Lex;
    LexName("x");
    LexNumeral("1");
    LexPunct('+');
    LexConcat("+", "1");
    assert "+" + " " + "1" == "+ 1";
    LexConcat("x", "+ 1");
    assert "x" + " " + "+ 1" == "x + 1";
    var ts := [Sym("x"), Add, Int(1)];
    ParseRefusedStep(Parser(ts, 0, [], []));
    EvaluateKnown(it, "x + 1", ts, Parser(ts, 0, [], []), Fail(NotImplemented(Symbol)));
  }

  /** A declaration is refused at its `let`. */
  lemma DeclarationRefused(it: Interpreter)
    ensures Runs("let x = 1") && Calc.Evaluate(it, "let x = 1").1 == Failure(NotImplemented(Declaration))
  {
    hide Parse, Lexemes, ToTokens, Lex;
    LexName("let");
    LexName("x");
    LexNumeral("1");
    LexPunct('=');
    LexConcat("=", "1");
    assert "=" + " " + "1" == "= 1";
    LexConcat("x", "= 1");
    assert "x" + " " + "= 1" == "x = 1";
    LexConcat("let", "x = 1");
    assert "let" + " " + "x = 1" == "let x = 1";
    var ts := [DecVar, Sym("x"), Asgn, Int(1)];
    ParseRefusedStep(Parser(ts, 0, [], []));
    EvaluateKnown(it, "let x = 1", ts, Parser(ts, 0, [], []), Fail(NotImplemented(Declaration)));
  }

  /** An assignment is refused at its `=`, after the number before it was
      pushed. */
  lemma AssignmentRefused(it: Interpreter)
    ensures Runs("1 = 2") && Calc.Evaluate(it, "1 = 2").1 == Failure(NotImplemented(Assignment))
  {
    hide Parse, Lexemes, ToTokens, Lex;
    LexNumeral("1");
    LexNumeral("2");
    LexPunct('=');
    LexConcat("=", "2");
    assert "=" + " " + "2" == "= 2";
    LexConcat("1", "= 2");
    assert "1" + " " + "= 2" == "1 = 2";
    var ts := [Int(1), Asgn, Int(2)];
    ParseRefusedStep(Parser(ts, 1, [], [Num(1)]));
    ParseIntStep(Parser(ts, 0, [], []));
    assert [] + [Num(1)] == [Num(1)];
    EvaluateKnown(it, "1 = 2", ts, Parser(ts, 1, [], [Num(1)]), Fail(NotImplemented(Assignment)));
  }

  // ---------------------------------------------------------------------
  // Inputs on which the original panics

  /** The text of a one-operator chain parses to that operator's node. */
  lemma ParseBinaryText(a: i32, op: Token, b: i32)
    requires a >= 0 && b >= 0 && IsArith(op)
    ensures LiteralsFit(ChainText(a, [Link(op, b)]))
    ensures ParseText(ChainText(a, [Link(op, b)])) ==
      (Parser(ChainTokens(a, [Link(op, b)]), 3, [], [Op(op, Num(a), Num(b))]), Pass)
  {
    var links := [Link(op, b)];
    LexChainText(a, links);
    var p := Parsing.New(ChainTokens(a, links));
    assert p.tokens[p.pos..] == p.tokens;
    ParseChain(p, a, links);
    assert links[1..] == [];
    assert ChainTree(a, links) == Op(op, Num(a), Num(b));
    assert [] + [Op(op, Num(a), Num(b))] == [Op(op, Num(a), Num(b))];
    assert Parse(p) == (Parser(ChainTokens(a, links), 3, [], [Op(op, Num(a), Num(b))]), Pass);
    assert Lex(ChainText(a, links)) == ChainTokens(a, links);
  }

  lemma ProductText()
    ensures ChainText(65536, [Link(Mul, 65536)]) == "65536 * 65536"
  {
  }

  /** A product past `i32::MAX` parses but would panic when evaluated. */
  lemma OverflowPanics()
    ensures LiteralsFit("65536 * 65536") && !Runs("65536 * 65536")
  {
    ProductText();
    hide Numeral, ChainText, Parse, Lex, Lexemes, ToTokens;
    ParseBinaryText(65536, Mul, 65536);
    assert !Safe(Op(Mul, Num(65536), Num(65536)), map[]);
  }

  /** Division by zero parses but would panic when evaluated. */
  lemma DivisionByZeroPanics()
    ensures LiteralsFit("1 / 0") && !Runs("1 / 0")
  {
    assert ChainText(1, [Link(Div, 0)]) == "1 / 0";
    ParseBinaryText(1, Div, 0);
    assert !Safe(Op(Div, Num(1), Num(0)), map[]);
  }

  /** A literal past `i32::MAX` would panic in the lexer. */
  lemma LiteralTooLarge()
    ensures !LiteralsFit("2147483648")
  {
    assert Numeral(21) == Numeral(2) + [DigitChar(1)];
    assert Numeral(214) == Numeral(21) + [DigitChar(4)];
    assert Numeral(2147) == Numeral(214) + [DigitChar(7)];
    assert Numeral(21474) == Numeral(2147) + [DigitChar(4)];
    assert Numeral(214748) == Numeral(21474) + [DigitChar(8)];
    assert Numeral(2147483) == Numeral(214748) + [DigitChar(3)];
    assert Numeral(21474836) == Numeral(2147483) + [DigitChar(6)];
    assert Numeral(214748364) == Numeral(21474836) + [DigitChar(4)];
    assert Numeral(2147483648) == Numeral(214748364) + [DigitChar(8)];
    assert Numeral(MAX + 1) == "2147483648";
    NumeralValue(MAX + 1);
    LexemesOfText(Digits("2147483648"));
    assert !Fits(Lexemes("2147483648")[0]);
  }
}
