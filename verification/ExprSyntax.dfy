/** Tokens, operator tables and syntax trees of the binary-operator layer of the expression parser. */
module ExprSyntax {

  datatype BinOp =
    | NullishCoalescing | LogicalOr | LogicalAnd
    | BitwiseOr | BitwiseXor | BitwiseAnd
    | Equal | NotEqual | StrictEqual | NotStrictEqual
    | LessThan | LessThanEqual | GreaterThan | GreaterThanEqual | InstanceOf | In
    | LeftShift | RightShift | UnsignedRightShift
    | Plus | Minus | Multiply | Divide | Mod | Exponentiation

  /** An operand token stands for one whole unary expression; `unary` says that its root is a unary operator. */
  datatype Token =
    | Operand(id: nat, unary: bool)
    | Operator(op: BinOp)
    | Question | Colon | LeftParen | RightParen | Other

  /** `grouped` is the flag that closing a parenthesis sets on the node. */
  datatype Expr =
    | Leaf(grouped: bool, id: nat, unary: bool)
    | Binary(grouped: bool, op: BinOp, left: Expr, right: Expr)
    | Conditional(grouped: bool, test: Expr, consequent: Expr, alternate: Expr)

  /** A parse: the tree and the index of the first token that is not part of it, or a syntax error. */
  datatype Parse = SyntaxError | Parsed(expr: Expr, next: nat)

  /** The table of the code, and the nesting of ECMA-262 (ES2023) sections 13.6 to 13.13. */
  datatype Table = Code | Ecma

  function Precedence(table: Table, op: BinOp): nat
  {
    match op
    case NullishCoalescing => 1
    case LogicalOr => 2
    case LogicalAnd => 3
    case BitwiseOr => if table == Code then 3 else 4
    case BitwiseXor => if table == Code then 4 else 5
    case BitwiseAnd => if table == Code then 5 else 6
    case Equal | NotEqual | StrictEqual | NotStrictEqual => if table == Code then 6 else 7
    case LessThan | LessThanEqual | GreaterThan | GreaterThanEqual | InstanceOf | In => if table == Code then 7 else 8
    case LeftShift | RightShift | UnsignedRightShift => if table == Code then 8 else 9
    case Plus | Minus => if table == Code then 9 else 10
    case Multiply | Divide | Mod => if table == Code then 10 else 11
    case Exponentiation => if table == Code then 11 else 12
  }

  /** The least precedence an operator may have inside the right operand of `op`. */
  function RightLevel(table: Table, op: BinOp): nat {
    Precedence(table, op) + (if op == Exponentiation then 0 else 1)
  }

  predicate IsOpenBinary(e: Expr) {
    e.Binary? && !e.grouped
  }

  /** What a chain of binary operators takes as an operand: a leaf or anything in parentheses. */
  predicate IsOperand(e: Expr) {
    e.Leaf? || e.grouped
  }

  predicate IsOpenUnary(e: Expr) {
    e.Leaf? && e.unary && !e.grouped
  }

  predicate IsLogicalOrAnd(op: BinOp) {
    op == LogicalOr || op == LogicalAnd
  }

  /** Some `||` or `&&` of the operator chain of `e`; parentheses close a chain. */
  predicate ChainHasLogical(e: Expr) {
    IsOpenBinary(e) && (IsLogicalOrAnd(e.op) || ChainHasLogical(e.left) || ChainHasLogical(e.right))
  }

  /** The early errors of the accepted trees, node by node, as the code enforces them. */
  predicate EarlyErrorFree(e: Expr) {
    match e
    case Leaf(_, _, _) => true
    case Conditional(_, t, c, a) => EarlyErrorFree(t) && EarlyErrorFree(c) && EarlyErrorFree(a)
    case Binary(_, op, l, r) =>
      EarlyErrorFree(l) && EarlyErrorFree(r) && NodeAllowed(op, l, r)
  }

  predicate NodeAllowed(op: BinOp, left: Expr, right: Expr) {
    && (op == Exponentiation ==> !IsOpenUnary(left))
    && (op == NullishCoalescing ==> !ChainHasLogical(left) && !(IsOpenBinary(right) && IsLogicalOrAnd(right.op)))
  }

  /** Every operator of the chain respects the table: what a parse of the chain must look like. */
  predicate RespectsTable(table: Table, e: Expr) {
    IsOpenBinary(e) ==>
      && RespectsTable(table, e.left) && RespectsTable(table, e.right)
      && (IsOpenBinary(e.left) ==>
            Precedence(table, e.left.op) >= Precedence(table, e.op) &&
            (e.op == Exponentiation ==> e.left.op != Exponentiation))
      && (IsOpenBinary(e.right) ==> Precedence(table, e.right.op) >= RightLevel(table, e.op))
      && !IsOpenConditional(e.left) && !IsOpenConditional(e.right)
  }

  predicate IsOpenConditional(e: Expr) {
    e.Conditional? && !e.grouped
  }

  datatype Item = Rand(expr: Expr) | Rator(op: BinOp)

  /** The operands and operators of a chain, in source order. */
  function Frontier(e: Expr): (items: seq<Item>)
    ensures |items| >= 1
  {
    if IsOpenBinary(e) then Frontier(e.left) + [Rator(e.op)] + Frontier(e.right) else [Rand(e)]
  }
}
