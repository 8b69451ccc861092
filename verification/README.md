# Feynman integer calculator, modelled in Dafny

Feynman is a small calculator written in Rust. `Interpreter::evaluate` takes
a line of text and goes through four steps:

1. `tokenize` splits the text into tokens: integers, `+ - * / =`, the
   brackets `[` and `]`, the keyword `let`, and names.
2. A recursive-descent `Parser` builds a tree of nodes from the tokens. It
   keeps a stack of built nodes and a stack of open brackets.
3. If exactly one node is left, that node becomes the root of the tree.
4. The root is evaluated in `i32` arithmetic.

The repository holds the same code twice:

- `src/calc.rs` is the single file the binary compiles.
- `src/interpreter/{lexer,nodes,parser}.rs` hold identical copies of the
  lexer, the nodes and the parser.

The logic is modelled once. The table cites the `src/interpreter/` copy for
the lexer, the nodes and the parser. It cites `src/calc.rs` for the
interpreter: the working `i32` interpreter exists only there, and
`src/interpreter.rs` holds an unfinished `f64` one (see "## Left out").
The `calc.rs` copies of the other parts are at these lines:

- `Clone`: 19-34;
- `tokenize`: 36-92;
- the nodes: 94-192;
- the parser: 206-290.

Modules:

- `I32`: the `i32` range and Rust's truncating division `TruncDiv`.
- `Errors`: one error variant per distinct failure the original reports.
- `Lexer`: tokens, the original `Clone` with its slip, and the corrected
  `Clone`. Scanning is stated as a function `Lexemes` from text to lexemes,
  and conversion as `ToTokens`. `Lex` is the two composed. `Tokenize` is
  the original scanning loop, proved to return `Success(Lex(expr))`.
- `Nodes`: the four node kinds form one datatype. The `Rc<RefCell<i32>>`
  cell a variable node shares becomes a handle into a store.
  `Evaluate` models `evaluate`, including its error cases. `Safe` states
  which evaluations do not panic.
- `Parsing`: the parser state is a value. `Parse` returns the state it
  leaves together with the outcome (`Pass` or `Fail(error)`). The original
  `while` loop becomes a tail call.
- `Calc`: the interpreter and `Evaluate(it, expr)`, with its laws. It also
  covers the general shapes "chain of operators" and
  "`[a op b] op c`" as text.
- `Scenarios`: concrete inputs and what `evaluate` returns for them,
  including the one `main.rs` evaluates.

Several behaviours follow from the code and are proved here:

- **Chains fold to the right.** `2 - 1 - 1` is `2 - (1 - 1)`, which gives 2,
  and `11 - 6 * 2` gives -1.
- **`]` ends only the innermost frame.** When the `]` is reached inside an
  operator's frame, only that frame returns, so in `[a op1 b] op2 c` the
  bracket's body runs to the end of the text (`Calc.ParsePair`):
  `[2 - 1] - 1` parses as one block around `(2 - 1) - 1` and gives 0. A `]`
  read by the bracket's own frame does close it: `[1] + 2` is `[1]` plus 2
  (`Scenarios.BracketClosesEarly`).
- **Brackets do not hide the nodes built before them.** `1 [+ 2]` gives 3.
- **Division truncates toward zero.** `[0 - 7] / 2` gives -3.

## Model

| member | source | states |
|---|---|---|
| Lexer.CloneKeepsAllButClose | src/interpreter/lexer.rs:15-30 | the original clone returns its argument exactly when it is not `CloseBlock`, and turns `CloseBlock` into `OpenBlock` |
| Lexer.CloneToken | src/interpreter/lexer.rs:15-30 | the original `clone` returns every token but `CloseBlock` unchanged and never yields `CloseBlock`; `CloneOfCloseIsOpen` shows where `]` goes |
| Lexer.CloneTokenFixed | src/interpreter/lexer.rs:15-30 | the clone as intended returns every token unchanged; the parser uses it |
| Lexer.CloneOfCloseIsOpen | src/interpreter/lexer.rs:24 | the slip: cloning `]` gives `[` |
| Lexer.CloneFixedIsIdentity | src/interpreter/lexer.rs:15-30 | the corrected clone returns every token unchanged |
| Lexer.ClonesAgreeOnOperators | src/interpreter/parser.rs:27-28 | the parser clones only `+ - * /`, where both clones are the identity, so the slip never shows; the two clones differ on `CloseBlock` only |
| I32.TruncDiv | src/interpreter/nodes.rs:45 | Rust's `/` on `i32`: the remainder is smaller than the divisor in magnitude and never has the opposite sign to the dividend |
| I32.TruncDivUnique | src/interpreter/nodes.rs:45 | those two remainder properties determine the quotient uniquely, so `TruncDiv` is Rust's division and not some other rounding |
| Lexer.Numeral | src/interpreter/lexer.rs:39-49 | a canonical decimal numeral of a natural number is a non-empty digit string |
| Lexer.NumeralValue | src/interpreter/lexer.rs:49 | `str::parse` of a numeral gives back the number: `DecimalValue(Numeral(v)) == v` |
| Lexer.DecimalValue | src/interpreter/lexer.rs:49 | the value `str::parse` gives a digit string before its range check, below `10^n` for `n` digits; `NumeralValue` proves it inverts `Numeral` |
| Lexer.DecimalValueLeadingZero | src/interpreter/lexer.rs:49 | a leading zero does not change the value, as `str::parse` accepts `007` as 7 |
| Lexer.DigitRunLen | src/interpreter/lexer.rs:41-48 | the inner digit loop stops at the first non-digit or at the end, without consuming it |
| Lexer.DigitRunLenUnique | src/interpreter/lexer.rs:41-48 | that stopping point is the only one with those properties |
| Lexer.WordLen | src/interpreter/lexer.rs:65-72 | the inner name loop stops at the first space or at the end |
| Lexer.WordLenUnique | src/interpreter/lexer.rs:65-72 | that stopping point is the only one with those properties |
| Lexer.Lexemes | src/interpreter/lexer.rs:37-86 | scanning yields at most one lexeme per character, and every lexeme is well formed: a non-empty digit run, a single operator or bracket character, or a name with no space that starts with neither a digit nor an operator |
| Lexer.NameToken | src/interpreter/lexer.rs:73-81 | a name is `DecVar` exactly when it is `let`, and otherwise `Sym` of the name itself |
| Lexer.ToToken | src/interpreter/lexer.rs:49-60 | a digit run becomes `Int` with its decimal value, a name becomes `Sym` or `DecVar`, and nothing else does |
| Lexer.ToTokens | src/interpreter/lexer.rs:37-86 | one token per lexeme, in order |
| Lexer.Lex | src/interpreter/lexer.rs:32-88 | the tokens of a text are no more than its characters, and every integer token is non-negative (the lexer has no unary minus) |
| Lexer.LexemesPunct | src/interpreter/lexer.rs:54-60 | an operator or bracket character is one lexeme, whatever follows it |
| Lexer.LexemesSpace | src/interpreter/lexer.rs:61 | a space yields nothing |
| Lexer.LexemesDigitRun | src/interpreter/lexer.rs:39-51 | a maximal digit run is one lexeme, and the character after it is scanned next |
| Lexer.LexemesWord | src/interpreter/lexer.rs:62-84 | a name runs to the next space, taking digits, operators and brackets with it, and consumes that space |
| Lexer.LexemesOfText | src/interpreter/lexer.rs:37-86 | the text of a well-formed lexeme scans back to that lexeme alone |
| Lexer.LexemesConcat | src/interpreter/lexer.rs:37-86 | two texts joined by a space scan to the lexemes of each, in order |
| Lexer.LexemesConcatDigits | src/interpreter/lexer.rs:39-51 | the concatenation law for a text that starts with a digit |
| Lexer.LexemesConcatChar | src/interpreter/lexer.rs:53-61 | the concatenation law for a text that starts with an operator, a bracket or a space |
| Lexer.LexemesConcatWord | src/interpreter/lexer.rs:62-84 | the concatenation law for a text that starts with a name |
| Lexer.LexemesSpaceConcat | src/interpreter/lexer.rs:61 | the concatenation law for a text that is empty or starts with a space |
| Lexer.LexemesUnlex | src/interpreter/lexer.rs:37-86 | round trip: scanning the space-joined texts of well-formed lexemes gives the lexemes back |
| Lexer.LexemesNormalise | src/interpreter/lexer.rs:37-86 | scanning is idempotent through the canonical text: rescanning that text gives the same lexemes |
| Lexer.ToTokensConcat | src/interpreter/lexer.rs:37-86 | conversion to tokens distributes over concatenation |
| Lexer.LexConcat | src/interpreter/lexer.rs:32-88 | a space-joined text has its literals in range exactly when both parts do, and its tokens are the parts' tokens in order |
| Lexer.LexPunct | src/interpreter/lexer.rs:53-60 | a lone operator or bracket character lexes to exactly its token |
| Lexer.LexSpace | src/interpreter/lexer.rs:61 | a lone space lexes to no tokens |
| Lexer.LexNumeral | src/interpreter/lexer.rs:39-50 | an in-range digit string lexes to one `Int` holding its decimal value |
| Lexer.LexName | src/interpreter/lexer.rs:62-81 | a name lexes to one token, `DecVar` for `let` and otherwise `Sym` of the whole name |
| Lexer.LexPunctBefore | src/interpreter/lexer.rs:53-60 | an operator or bracket character contributes its token in front of the tokens of what follows it |
| Lexer.LexDigitsBefore | src/interpreter/lexer.rs:39-51 | a digit run contributes its `Int` in front of the tokens of what follows, when a non-digit follows |
| Lexer.LexemesDigitsAt | src/interpreter/lexer.rs:39-51 | one pass of the digit branch consumes exactly the next lexeme of the scan |
| Lexer.LexemesCharAt | src/interpreter/lexer.rs:53-61 | one pass of the operator, bracket or space branch consumes exactly the next lexeme, or none for a space |
| Lexer.LexemesWordAt | src/interpreter/lexer.rs:62-84 | one pass of the name branch consumes exactly the next lexeme and the space after it |
| Lexer.ScanDigits | src/interpreter/lexer.rs:40-48 | the inner digit loop collects the maximal digit run from the current position and stops on the first non-digit |
| Lexer.ScanName | src/interpreter/lexer.rs:64-72 | the inner name loop collects the characters up to the next space and stops on it |
| Lexer.ScanStep | src/interpreter/lexer.rs:37-86 | the lexemes one pass consumes extend those already converted, and their tokens are appended in order |
| Lexer.TokenizeStep | src/interpreter/lexer.rs:38-85 | one pass of the outer loop advances the position and keeps the tokens equal to those of the lexemes scanned so far |
| Lexer.Tokenize | src/interpreter/lexer.rs:32-88 | the original loop always returns `Ok`, holding exactly `Lex(expr)` |
| Nodes.EvaluateNum | src/interpreter/nodes.rs:16-20 | a number node evaluates to its value |
| Nodes.Evaluate | src/interpreter/nodes.rs:16-101 | `evaluate` of each node kind; any failure it reports is one of evaluation's own errors (incomplete operator, unknown operator, uninitialised variable, empty block), never a parser error |
| Nodes.Safe | src/interpreter/nodes.rs:39-45 | the inputs on which `evaluate` does not panic: each arithmetic step it reaches has a nonzero divisor and an `i32` result, and every cell a variable holds is live; the right child counts only when the left one evaluated |
| Nodes.NewOperator | src/interpreter/nodes.rs:28-32 | `OperatorNode::new`: the operator with neither child |
| Nodes.NewVar | src/interpreter/nodes.rs:57-60 | `VarNode::new`: the name with no cell |
| Nodes.NewBlock | src/interpreter/nodes.rs:90-94 | `Block::new`: a block with no body |
| Nodes.NewNodesFail | src/interpreter/nodes.rs:28-101 | a node fresh from `new` does not panic and fails to evaluate: an operator as incomplete, a variable as uninitialised with its own name, a block as empty |
| Nodes.EvaluateIncomplete | src/interpreter/nodes.rs:35-37 | an operator node missing either child fails with the incomplete-expression error, whatever the other child is |
| Nodes.EvaluateOperator | src/interpreter/nodes.rs:34-49 | the left child is evaluated first and its error wins; then the right child's error; then `+ - * /` apply, and any other operator token fails |
| Nodes.EvaluateBlock | src/interpreter/nodes.rs:95-101 | a block without a body fails, and otherwise gives exactly its body's result |
| Nodes.Initialize | src/interpreter/nodes.rs:62-64 | `intialize` gives the variable node the cell and keeps its name |
| Nodes.SetVal | src/interpreter/nodes.rs:66-74 | `set_val` fails with the node's name exactly when it has no cell; otherwise only its cell changes, to the new value |
| Nodes.UninitializedVar | src/interpreter/nodes.rs:57-83 | a fresh variable node fails both to read and to write |
| Nodes.SetValVisibleThroughAliases | src/interpreter/nodes.rs:62-83 | two variable nodes given the same cell by `intialize` alias it: after `set_val` through either, both read the new value |
| Nodes.EvaluateStoreFree | src/interpreter/nodes.rs:5-102 | a tree that reads no cell is safe under one store exactly when it is safe under any other, and then evaluates alike |
| Nodes.EvaluateFrame | src/interpreter/nodes.rs:5-102 | writing a cell a tree does not read changes neither whether it evaluates safely nor its result |
| Nodes.SetValLeavesOthers | src/interpreter/nodes.rs:66-74 | `set_val` leaves every tree that does not read its cell evaluating as before |
| Nodes.CompleteEvaluates | src/interpreter/nodes.rs:34-49 | a tree with every child present and only `+ - * /` operators evaluates to a value whenever it does not panic |
| Nodes.EvaluateChain | src/interpreter/nodes.rs:34-49 | the right-nested tree of a chain evaluates to an independent right fold of its numbers in unbounded arithmetic |
| Parsing.New | src/interpreter/parser.rs:12-15 | a new parser holds the tokens, with position 0 and both stacks empty |
| Parsing.SetTokens | src/interpreter/parser.rs:16-23 | `set_tokens` leaves exactly the parser `new` would build over the same tokens: position 0, both stacks cleared, whatever the previous state |
| Parsing.SetTokensForgets | src/interpreter/parser.rs:16-23 | after `set_tokens` no trace of the previous state remains: any two parsers become the new parser over the given tokens |
| Parsing.Combine | src/interpreter/parser.rs:34-38 | an operator pops the right operand and then the left, and pushes one node joining them; the rest of the stack is untouched |
| Parsing.Wrap | src/interpreter/parser.rs:50-51 | a bracket pops its body and pushes one block holding it; the rest of the stack is untouched |
| Parsing.Parse | src/interpreter/parser.rs:24-87 | `parse` keeps the tokens and leaves the position between its start and the end of the input |
| Parsing.ParseEnd | src/interpreter/parser.rs:81-86 | at the end of the input a frame succeeds exactly when no bracket is open |
| Parsing.ParseOperatorStep | src/interpreter/parser.rs:27-39 | an operator parses the rest first; it fails with that error, fails when fewer than two nodes result, or joins the top two nodes and continues |
| Parsing.ParseOpenStep | src/interpreter/parser.rs:40-52 | `[` records a bracket and parses the rest; it fails with that error, fails when no node results, or wraps the top node and continues |
| Parsing.ParseCloseStep | src/interpreter/parser.rs:53-65 | `]` fails with no bracket open; otherwise it pops the bracket and either returns `Ok` past itself or reports a mismatch |
| Parsing.ParseIntStep | src/interpreter/parser.rs:66-69 | a number pushes its node and the frame continues |
| Parsing.ParseRefusedStep | src/interpreter/parser.rs:70-78 | a name, `let` or `=` stops the parse with the matching not-implemented error |
| Parsing.TotalConcat | src/interpreter/parser.rs:25-80 | helper for `ParsePassNodes`, `ParsePassDepth` and `ParsePassPrefixes`: per-token counts add up over concatenated token sequences |
| Parsing.ParsePassEnds | src/interpreter/parser.rs:25-86 | a successful frame either reaches the end of the input with no bracket open, or returns at a `]` that closes a bracket opened before it began |
| Parsing.ParsePassSupported | src/interpreter/parser.rs:25-86 | a successful frame has read no name, `let` or `=` |
| Parsing.ParseKeepsOpens | src/interpreter/parser.rs:44-63 | only `[` is ever pushed on the bracket stack, so the mismatch error can never be raised |
| Parsing.ParseBuildsComplete | src/interpreter/parser.rs:27-69 | every node the parser builds has all its children present, uses only `+ - * /`, and reads no variable cell |
| Parsing.ParsePassNodes | src/interpreter/parser.rs:27-69 | a successful frame changes the node count by one per number read and by minus one per operator read |
| Parsing.ParsePassDepth | src/interpreter/parser.rs:40-65 | a successful frame's bracket depth changes by the number of `[` minus the number of `]` it read |
| Parsing.ParsePassPrefixes | src/interpreter/parser.rs:40-65 | at every point a successful frame reads, the `]` read since its start exceed the `[` by at most the brackets open when it started, since a `]` on an empty bracket stack fails (parser.rs:55-57) |
| Parsing.ParseFailsInParsing | src/interpreter/parser.rs:24-87 | a failing parse reports one of the parser's own errors, never an evaluation error |
| Parsing.ParseFromStart | src/interpreter/parser.rs:24-87 | a successful parse from a fresh parser has read every token, read balanced brackets (as many `]` as `[`, and no prefix with more `]` than `[`), read no name, `let` or `=`, and left as many nodes as numbers minus operators, all complete; no parse ever reports a mismatched bracket |
| Parsing.ChainTokens | src/interpreter/parser.rs:27-39 | helper for `ParseChain`: builds the tokens of `a op1 b op2 c ...`, `2n + 1` of them for `n` operators |
| Parsing.ParseChain | src/interpreter/parser.rs:27-39 | with no bracket open, `a op1 b op2 c ...` parses to the right-nested tree `a op1 (b op2 (c ...))` and consumes the whole input |
| Calc.NewInterpreter | src/calc.rs:297-301 | a new interpreter has no root and a parser over no tokens |
| Calc.Evaluate | src/calc.rs:303-312 | `Interpreter::evaluate`: the parser is left over the text's tokens, and a success leaves a root in the tree and an emptied node stack; the laws below relate its result to the parse |
| Calc.ParsedRootStoreFree | src/calc.rs:303-312 | the root a parse leaves is safe under one store exactly when it is safe under any other, and then evaluates alike, so evaluating it under the empty store loses nothing |
| Calc.EvaluateForgetsHistory | src/calc.rs:303-312 | the result of `evaluate`, and the parser state it leaves, depend on the text alone and not on earlier calls |
| Calc.EvaluateFailsOnlyInParsing | src/calc.rs:303-312 | `evaluate` succeeds exactly when the parse succeeds with one node left; every failure is a parser error or the invalid-expression error, never a mismatched bracket |
| Calc.EvaluateAccepts | src/calc.rs:303-312 | a successful `evaluate` has read balanced brackets (as many `]` as `[`, and no prefix with more `]` than `[`), one more number than operators, and no name, `let` or `=` |
| Calc.EvaluateRejectsUnsupported | src/calc.rs:303-312 | a name, `let` or `=` anywhere in the text makes `evaluate` fail |
| Calc.EvaluateKeepsRoot | src/calc.rs:303-312 | after success the interpreter's root is exactly the single node the parse left, complete and evaluating to the result; the node stack is emptied and every token consumed |
| Calc.OpChar | src/interpreter/lexer.rs:54-57 | each arithmetic operator has a character that lexes to it |
| Calc.LexChainText | src/interpreter/lexer.rs:32-88 | the text `a op1 b op2 c ...` lexes to the chain's tokens |
| Calc.EvaluateChainText | src/calc.rs:303-312 | `evaluate` on a chain of non-negative numbers yields the right fold of the chain, when every partial fold fits in `i32` |
| Calc.EvaluateBinary | src/calc.rs:303-312 | `a op b` yields the operator's `i32` result when that does not panic |
| Calc.LexPairText | src/interpreter/lexer.rs:32-88 | the text `[a op1 b] op2 c` lexes to its seven tokens |
| Calc.ParsePairInner | src/interpreter/parser.rs:27-65 | in `[a op1 b] op2 c` the frame of `op1` returns at the `]` with the bracket popped |
| Calc.ParsePairOuter | src/interpreter/parser.rs:27-39 | the frame of `op2` runs to the end of the input and joins the two nodes under it |
| Calc.ParsePair | src/interpreter/parser.rs:24-87 | `[a op1 b] op2 c` parses to a single block around `(a op1 b) op2 c` |
| Calc.EvaluatePairText | src/calc.rs:303-312 | `evaluate` on `[a op1 b] op2 c` applies `op1` first, whichever operators they are |
| Scenarios.MainExample | src/main.rs:7 | `11 - 6 * 2` evaluates to -1 |
| Scenarios.ChainsGroupRight | src/interpreter/parser.rs:27-39 | `2 - 1 - 1` evaluates to 2 |
| Scenarios.BracketGroupsLeft | src/interpreter/parser.rs:40-65 | `[2 - 1] - 1` is one block around `(2 - 1) - 1` and evaluates to 0 |
| Scenarios.DivisionTruncates | src/interpreter/nodes.rs:45 | `[0 - 7] / 2` evaluates to -3 |
| Scenarios.LexLooseBracket | src/interpreter/lexer.rs:32-88 | `1 [+ 2]` lexes to five tokens |
| Scenarios.ParseLooseBracket | src/interpreter/parser.rs:40-52 | inside a bracket an operator takes the number pushed before the bracket as its left operand |
| Scenarios.BracketTakesOuterOperand | src/calc.rs:303-312 | `1 [+ 2]` evaluates to 3 |
| Scenarios.LexClosedBracket | src/interpreter/lexer.rs:32-88 | `[1] + 2` lexes to five tokens |
| Scenarios.ParseClosedBracketTail | src/interpreter/parser.rs:27-39 | after the bracket closes, `+ 2` joins the block and the 2 |
| Scenarios.ParseClosedBracket | src/interpreter/parser.rs:53-61 | a `]` read by the bracket's own frame closes it: `[1] + 2` parses to `Block(1) + 2` |
| Scenarios.BracketClosesEarly | src/calc.rs:303-312 | `[1] + 2` is the block `[1]` plus 2 and evaluates to 3 |
| Scenarios.EmptyText | src/calc.rs:306-308 | the empty text fails with the invalid-expression error |
| Scenarios.TwoNumbers | src/calc.rs:306-308 | `1 2` leaves two nodes and fails with the invalid-expression error |
| Scenarios.UnclosedBracketFails | src/interpreter/parser.rs:81-83 | `[1 + 2` fails because a bracket is still open |
| Scenarios.UnmatchedCloseFails | src/interpreter/parser.rs:55-57 | `1 + 2]` fails at the `]` because no bracket is open |
| Scenarios.MissingOperandFails | src/interpreter/parser.rs:31-33 | `1 +` fails for a missing operand |
| Scenarios.EmptyBracketFails | src/interpreter/parser.rs:47-49 | `[]` fails for an empty bracket |
| Scenarios.NameRefused | src/interpreter/parser.rs:70-72 | `x + 1` fails as not implemented |
| Scenarios.DeclarationRefused | src/interpreter/parser.rs:73-75 | `let x = 1` fails as not implemented |
| Scenarios.AssignmentRefused | src/interpreter/parser.rs:76-78 | `1 = 2` fails as not implemented |
| Scenarios.ParseBinaryText | src/interpreter/parser.rs:27-39 | `a op b` parses to the single operator node over the two numbers |
| Scenarios.OverflowPanics | src/interpreter/nodes.rs:44 | `65536 * 65536` overflows `i32`, so `evaluate` panics on it with overflow checks on (the debug build) |
| Scenarios.DivisionByZeroPanics | src/interpreter/nodes.rs:45 | `1 / 0` divides by zero, so `evaluate` panics on it in every build |
| Scenarios.LiteralTooLarge | src/interpreter/lexer.rs:49 | `2147483648` does not fit in `i32`, so `tokenize` panics on it |

## Left out

- src/interpreter.rs is a second, unfinished interpreter over `f64`. It
  calls `validate` and `get_tree`, which no parser defines. It is not part
  of this model.
- src/main.rs prints the result of one call. Only that call's input is
  modelled, in `Scenarios.MainExample`.
- Error messages: each `io::Error` becomes its own `Errors.Error` variant.
  The original reuses "Invalid Blockthesis" for both the empty bracket and
  the unmatched `]` (src/interpreter/parser.rs:48 and 56). The model keeps
  those cases apart.
- Panics are outside the model, and preconditions exclude them:
  - `Lexer.LiteralsFit` excludes a literal that `i32` cannot hold, where
    `parse().unwrap()` panics in every build.
  - `Nodes.Safe` excludes division by zero and `i32::MIN / -1`, which
    panic in every build. It also excludes an `i32` overflow of `+ - *`,
    which panics with overflow checks on (the debug build).
  - `Calc.Runs` combines the two for `evaluate`.
  - `Scenarios.OverflowPanics`, `Scenarios.DivisionByZeroPanics` and
    `Scenarios.LiteralTooLarge` show that these conditions are reachable.
- Nodes.Safe: a release build has no overflow checks, and there `+ - *`
  wrap around modulo 2^32 (`65536 * 65536` gives `Ok(0)`). The model
  follows the debug build and does not model that wrap-around.
- Stack overflow: `parse` recurses once per operator and per `[`
  (src/interpreter/parser.rs:30 and 45), and `evaluate` once per tree
  level (src/interpreter/nodes.rs:39-40). A long or deeply nested input
  exhausts the native stack. The model's recursion is unbounded and does
  not model that.
- Calc.Evaluate: the `unwrap` on a missing root in `AbstractTree::eval`
  cannot be reached from `evaluate`, which always sets the root first.
  `AbstractTree.eval` is therefore folded into `Evaluate`.
- `AbstractTree.vars` is never read or written and is not kept.
- The parser's `token_count` always equals the token count and is not
  kept.
- Variable declaration and assignment, and the name table they would need,
  are not implemented by the original parser: it refuses names, `let` and
  `=`. The variable node operations (`intialize`, `set_val`, `evaluate`)
  are modelled on their own with an explicit store of cells.
- Sharing and reference counting of `Rc<RefCell<i32>>` become handles into
  a map. A dangling cell cannot occur in Rust; `Nodes.Safe` requires every
  handle a tree holds to be in the store.
- Strings are sequences of Unicode scalar values, as Rust's `chars()`
  gives them.

## Findings

| source | as written | input that shows it | evidently intended | confidence | as-written member | corrected member |
|---|---|---|---|---|---|---|
| src/interpreter/lexer.rs:24 (also src/calc.rs:28) | `Token::CloseBlock => {Token::OpenBlock}` in `impl Clone for Token` | `Token::CloseBlock.clone()` returns `Token::OpenBlock` | every variant clones to itself | high; not executed | Lexer.CloneOfCloseIsOpen | Lexer.CloneFixedIsIdentity |

The parser clones only the four operator tokens (`Lexer.ClonesAgreeOnOperators`),
so the slip does not change any result of `evaluate`. The model's parser
uses the corrected clone, `Lexer.CloneTokenFixed`.
