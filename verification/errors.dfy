/** The failures the calculator reports. The original reports each as an
    `io::Error` with a message; here every raise site has its own variant. */
module Errors {

  /** The token kinds the parser recognises but refuses. */
  datatype Feature = Symbol | Declaration | Assignment

  datatype Error =
    // raised while evaluating nodes
    | IncompleteExpression          // operator node without both children
    | UnknownOperator               // operator node whose token is not + - * /
    | Uninitialized(name: string)   // variable node without a cell
    | EmptyBlock                    // block node without a body
    // raised while parsing
    | MissingOperand                // fewer than two nodes after an operator's right side
    | EmptyBracket                  // no node after a bracket's body
    | UnmatchedClose                // `]` with no open bracket
    | MismatchedBracket             // bracket stack top is not an opening bracket
    | NotImplemented(what: Feature) // name, `let` or `=` reached
    | UnclosedBracket               // end of input inside a bracket
    // raised by the interpreter
    | InvalidExpression             // parse left other than exactly one node
}
