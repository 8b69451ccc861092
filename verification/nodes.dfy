/** The expression tree (src/calc.rs, src/interpreter/nodes.rs).

    The original's `Node` trait objects become one closed datatype. A
    `VarNode`'s shared `Rc<RefCell<i32>>` becomes a handle into a store
    that maps handles to values: nodes holding the same handle alias one
    cell. */
module Nodes {
  import opened Wrappers
  import opened I32
  import opened Errors
  import opened Lexer

  type Handle = nat

  type Store = map<Handle, i32>

  datatype Node =
    | Num(val: i32)
    | Operator(op: Token, left: Option<Node>, right: Option<Node>)
    | Var(name: string, cell: Option<Handle>)
    | Block(body: Option<Node>)

  /** `OperatorNode::new`, `VarNode::new` and `Block::new` leave every
      optional part empty (`NumNode::new` is the constructor `Num`). */
  function NewOperator(op: Token): Node {
    Operator(op, None, None)
  }

  function NewVar(name: string): Node {
    Var(name, None)
  }

  function NewBlock(): Node {
    Block(None)
  }

  /** A node fresh from its `new` fails to evaluate, each kind with its
      own error; a number node has no such state. */
  lemma NewNodesFail(op: Token, name: string, store: Store)
    ensures Safe(NewOperator(op), store) && Evaluate(NewOperator(op), store) == Failure(IncompleteExpression)
    ensures Safe(NewVar(name), store) && Evaluate(NewVar(name), store) == Failure(Uninitialized(name))
    ensures Safe(NewBlock(), store) && Evaluate(NewBlock(), store) == Failure(EmptyBlock)
  {
  }

  /** The errors evaluation itself raises. */
  predicate EvalError(e: Error) {
    e in {IncompleteExpression, UnknownOperator, EmptyBlock} || e.Uninitialized?
  }

  // ---------------------------------------------------------------------
  // Arithmetic

  /** The value an operator computes, before `i32` range is considered. */
  function Arith(op: Token, a: int, b: int): int
    requires IsArith(op) && (op.Div? ==> b != 0)
  {
    match op
    case Add => a + b
    case Sub => a - b
    case Mul => a * b
    case Div => TruncDiv(a, b)
  }

  /** Operands on which the original's `i32` operator does not panic: a
      nonzero divisor for `/` (any build), and no overflow (a build with
      overflow checks on, as the debug build has). Tokens that are not
      operators never reach the arithmetic. */
  predicate ArithOk(op: Token, a: int, b: int) {
    IsArith(op) ==> (op.Div? ==> b != 0) && InRange(Arith(op, a, b))
  }

  // ---------------------------------------------------------------------
  // Evaluation

  /** Evaluation does not panic: every arithmetic step it reaches is in
      range, and every cell a node holds is live (an `Rc` never dangles).
      The right operand matters only when the left one evaluated. */
  predicate Safe(n: Node, store: Store)
    decreases n, 0
  {
    match n
    case Num(_) => true
    case Operator(op, left, right) =>
      left.Some? && right.Some? ==>
        && Safe(left.value, store)
        && (Evaluate(left.value, store).Success? ==>
              && Safe(right.value, store)
              && (Evaluate(right.value, store).Success? ==>
                    ArithOk(op, Evaluate(left.value, store).value, Evaluate(right.value, store).value)))
    case Var(_, cell) => cell.Some? ==> cell.value in store
    case Block(body) => body.Some? ==> Safe(body.value, store)
  }

  /** `Node::evaluate` for each kind of node. */
  function Evaluate(n: Node, store: Store): (r: Result<i32, Error>)
    requires Safe(n, store)
    ensures r.Failure? ==> EvalError(r.error)
    decreases n, 1
  {
    match n
    case Num(v) => Success(v)
    case Operator(op, left, right) =>
      if left.None? || right.None? then Failure(IncompleteExpression)
      else
        (match Evaluate(left.value, store)
         case Failure(e) => Failure(e)
         case Success(l) =>
           (match Evaluate(right.value, store)
            case Failure(e) => Failure(e)
            case Success(r) =>
              if IsArith(op) then Success(Arith(op, l, r)) else Failure(UnknownOperator)))
    case Var(name, cell) =>
      if cell.None? then Failure(Uninitialized(name)) else Success(store[cell.value])
    case Block(body) =>
      if body.None? then Failure(EmptyBlock) else Evaluate(body.value, store)
  }

  lemma EvaluateNum(v: i32, store: Store)
    ensures Evaluate(Num(v), store) == Success(v)
  {
  }

  /** An operator node missing a child fails before evaluating anything. */
  lemma EvaluateIncomplete(op: Token, left: Option<Node>, right: Option<Node>, store: Store)
    requires left.None? || right.None?
    ensures Safe(Operator(op, left, right), store)
    ensures Evaluate(Operator(op, left, right), store) == Failure(IncompleteExpression)
  {
  }

  /** Left is evaluated before right, and the first failure is the result;
      with both values in hand, `+ - * /` apply and any other token fails. */
  lemma EvaluateOperator(op: Token, l: Node, r: Node, store: Store)
    requires Safe(Operator(op, Some(l), Some(r)), store)
    ensures Evaluate(l, store).Failure? ==>
      Evaluate(Operator(op, Some(l), Some(r)), store) == Evaluate(l, store)
    ensures Evaluate(l, store).Success? && Evaluate(r, store).Failure? ==>
      Evaluate(Operator(op, Some(l), Some(r)), store) == Evaluate(r, store)
    ensures Evaluate(l, store).Success? && Evaluate(r, store).Success? ==>
      Evaluate(Operator(op, Some(l), Some(r)), store) ==
        if IsArith(op) then Success(Arith(op, Evaluate(l, store).value, Evaluate(r, store).value) as i32)
        else Failure(UnknownOperator)
  {
  }

  /** A block is transparent: it fails without a body and otherwise gives
      exactly its body's result. */
  lemma EvaluateBlock(body: Option<Node>, store: Store)
    requires Safe(Block(body), store)
    ensures body.None? ==> Evaluate(Block(body), store) == Failure(EmptyBlock)
    ensures body.Some? ==> Evaluate(Block(body), store) == Evaluate(body.value, store)
  {
  }

  // ---------------------------------------------------------------------
  // Variable cells

  /** `VarNode::intialize`: the node now shares cell `h`. */
  function Initialize(n: Node, h: Handle): (m: Node)
    requires n.Var?
    ensures m.Var? && m.name == n.name && m.cell == Some(h)
  {
    n.(cell := Some(h))
  }

  /** `VarNode::set_val`: writes the cell the node shares. A node without
      a cell fails and the store is left as it was. */
  function SetVal(n: Node, store: Store, v: i32): (r: Result<Store, Error>)
    requires n.Var? && (n.cell.Some? ==> n.cell.value in store)
    ensures r.Success? <==> n.cell.Some?
    ensures r.Failure? ==> r.error == Uninitialized(n.name)
    ensures r.Success? ==> r.value.Keys == store.Keys && r.value[n.cell.value] == v
    ensures r.Success? ==> forall h | h in store && h != n.cell.value :: r.value[h] == store[h]
  {
    if n.cell.None? then Failure(Uninitialized(n.name)) else Success(store[n.cell.value := v])
  }

  /** A node without a cell fails both to read and to write. */
  lemma UninitializedVar(name: string, store: Store, v: i32)
    ensures Evaluate(NewVar(name), store) == Failure(Uninitialized(name))
    ensures SetVal(NewVar(name), store, v) == Failure(Uninitialized(name))
  {
  }

  /** Two variable nodes given the same cell by `intialize` alias it:
      after `set_val(v)` through one, both read `v`. */
  lemma SetValVisibleThroughAliases(n0: Node, m0: Node, h: Handle, store: Store, v: i32)
    requires n0.Var? && m0.Var? && h in store
    ensures var n := Initialize(n0, h); var m := Initialize(m0, h);
      && SetVal(n, store, v).Success?
      && Safe(m, SetVal(n, store, v).value) && Evaluate(m, SetVal(n, store, v).value) == Success(v)
      && Safe(n, SetVal(n, store, v).value) && Evaluate(n, SetVal(n, store, v).value) == Success(v)
  {
  }

  /** The cells a tree reads. */
  function Cells(n: Node): set<Handle> {
    match n
    case Num(_) => {}
    case Operator(_, left, right) =>
      (if left.Some? then Cells(left.value) else {}) + (if right.Some? then Cells(right.value) else {})
    case Var(_, cell) => if cell.Some? then {cell.value} else {}
    case Block(body) => if body.Some? then Cells(body.value) else {}
  }

  /** Writing a cell a tree does not read changes neither whether the tree
      can be evaluated nor its result. */
  lemma {:induction false} EvaluateFrame(n: Node, store: Store, h: Handle, v: i32)
    requires h !in Cells(n)
    ensures Safe(n, store) <==> Safe(n, store[h := v])
    ensures Safe(n, store) ==> Evaluate(n, store) == Evaluate(n, store[h := v])
  {
    match n
    case Num(_) =>
    case Operator(op, left, right) =>
      if left.Some? {
        EvaluateFrame(left.value, store, h, v);
      }
      if right.Some? {
        EvaluateFrame(right.value, store, h, v);
      }
    case Var(_, _) =>
    case Block(body) =>
      if body.Some? {
        EvaluateFrame(body.value, store, h, v);
      }
  }

  /** A tree that reads no cell is indifferent to the store: it is safe
      under one store exactly when under any other, and then evaluates
      alike. */
  lemma {:induction false} EvaluateStoreFree(n: Node, store: Store, store': Store)
    requires Cells(n) == {}
    ensures Safe(n, store) <==> Safe(n, store')
    ensures Safe(n, store) ==> Evaluate(n, store) == Evaluate(n, store')
  {
    match n
    case Num(_) =>
    case Operator(op, left, right) =>
      if left.Some? {
        EvaluateStoreFree(left.value, store, store');
      }
      if right.Some? {
        EvaluateStoreFree(right.value, store, store');
      }
    case Var(_, _) =>
    case Block(body) =>
      if body.Some? {
        EvaluateStoreFree(body.value, store, store');
      }
  }

  /** `set_val` through one node leaves every tree that does not read its
      cell evaluating as before. */
  lemma SetValLeavesOthers(n: Node, m: Node, store: Store, v: i32)
    requires n.Var? && n.cell.Some? && n.cell.value in store
    requires n.cell.value !in Cells(m) && Safe(m, store)
    ensures SetVal(n, store, v).Success?
    ensures Safe(m, SetVal(n, store, v).value)
    ensures Evaluate(m, SetVal(n, store, v).value) == Evaluate(m, store)
  {
    EvaluateFrame(m, store, n.cell.value, v);
  }

  // ---------------------------------------------------------------------
  // Complete trees

  /** Every optional part present, every operator one of `+ - * /`. */
  predicate Complete(n: Node) {
    match n
    case Num(_) => true
    case Operator(op, left, right) =>
      IsArith(op) && left.Some? && right.Some? && Complete(left.value) && Complete(right.value)
    case Var(_, cell) => cell.Some?
    case Block(body) => body.Some? && Complete(body.value)
  }

  /** Evaluation fails only on an incomplete node: a complete tree that
      does not panic always yields a value. */
  lemma {:induction false} CompleteEvaluates(n: Node, store: Store)
    requires Complete(n) && Safe(n, store)
    ensures Evaluate(n, store).Success?
  {
    match n
    case Num(_) =>
    case Operator(op, left, right) =>
      CompleteEvaluates(left.value, store);
      CompleteEvaluates(right.value, store);
    case Var(_, _) =>
    case Block(body) =>
      CompleteEvaluates(body.value, store);
  }

  // ---------------------------------------------------------------------
  // Operator chains

  /** One step of a chain `a op1 b op2 c ...`: an operator and the operand
      after it. */
  datatype Link = Link(op: Token, operand: i32)

  predicate ArithLinks(links: seq<Link>) {
    forall i | 0 <= i < |links| :: IsArith(links[i].op)
  }

  /** The tree of a chain folded to the right: `a op1 (b op2 (c ...))`. */
  function ChainTree(first: i32, links: seq<Link>): Node
    decreases |links|
  {
    if links == [] then Num(first)
    else Operator(links[0].op, Some(Num(first)), Some(ChainTree(links[0].operand, links[1..])))
  }

  /** The right fold of a chain in unbounded arithmetic, as an independent
      reference; `None` when some divisor is zero. */
  function ChainValue(first: int, links: seq<Link>): Option<int>
    requires ArithLinks(links)
    decreases |links|
  {
    if links == [] then Some(first)
    else
      match ChainValue(links[0].operand, links[1..])
      case None => None
      case Some(r) =>
        if links[0].op.Div? && r == 0 then None else Some(Arith(links[0].op, first, r))
  }

  /** Every partial fold of the chain is defined and fits in `i32`. */
  predicate ChainFits(first: int, links: seq<Link>)
    requires ArithLinks(links)
    decreases |links|
  {
    && ChainValue(first, links).Some?
    && InRange(ChainValue(first, links).value)
    && (links != [] ==> ChainFits(links[0].operand, links[1..]))
  }

  /** A chain's tree evaluates to the right fold of its values. */
  lemma {:induction false} EvaluateChain(first: i32, links: seq<Link>, store: Store)
    requires ArithLinks(links) && ChainFits(first, links)
    ensures Complete(ChainTree(first, links))
    ensures Safe(ChainTree(first, links), store)
    ensures Evaluate(ChainTree(first, links), store) == Success(ChainValue(first, links).value as i32)
    decreases |links|
  {
    if links != [] {
      EvaluateChain(links[0].operand, links[1..], store);
    }
  }
}
