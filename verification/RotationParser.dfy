/** The parser as a function: descent, then left-spine repair. */
module RotationParser {
  import opened ExprSyntax

  predicate ShouldBeAmended(e: Expr, op: BinOp) {
    e.Binary? && !e.grouped && Precedence(Code, e.op) <= Precedence(Code, op)
    && (op != Exponentiation || e.op != Exponentiation)
  }

  /** The tree after the rotation: `left op` is spliced in under the left spine of `right`. */
  function Splice(left: Expr, op: BinOp, right: Expr): (e: Expr)
    ensures IsOpenBinary(e)
  {
    if ShouldBeAmended(right, op) then right.(left := Splice(left, op, right.left))
    else Binary(false, op, left, right)
  }

  /** The two checks against mixing `??` with `||` and `&&`. */
  predicate MixesNullish(op: BinOp, right: Expr) {
    if ShouldBeAmended(right, op) then IsLogicalOrAnd(op) && right.op == NullishCoalescing
    else op == NullishCoalescing && IsOpenBinary(right) && (IsLogicalOrAnd(right.op) || right.op == NullishCoalescing)
  }

  /** One binary operator, once both sides are parsed: a conditional on the right is repaired through its test. */
  function CombineTest(left: Expr, op: BinOp, right: Expr): Expr {
    if IsOpenConditional(right) then right.test else right
  }

  function Combine(left: Expr, op: BinOp, right: Expr): Expr {
    if IsOpenConditional(right) then right.(test := Splice(left, op, right.test)) else Splice(left, op, right)
  }

  function ParseExpression(ts: seq<Token>, i: nat): (p: Parse)
    ensures p.Parsed? ==> i < p.next <= |ts|
    decreases if i < |ts| then |ts| - i else 0, 3
  {
    match ParsePrimary(ts, i)
    case SyntaxError => SyntaxError
    case Parsed(e, n) => ParseAssignment(ts, e, n)
  }

  function ParsePrimary(ts: seq<Token>, i: nat): (p: Parse)
    ensures p.Parsed? ==> i < p.next <= |ts| && IsOperand(p.expr)
    decreases if i < |ts| then |ts| - i else 0, 0
  {
    if i >= |ts| then SyntaxError
    else match ts[i]
      case Operand(id, unary) => Parsed(Leaf(false, id, unary), i + 1)
      case LeftParen =>
        (match ParseExpression(ts, i + 1)
         case SyntaxError => SyntaxError
         case Parsed(e, n) =>
           if n < |ts| && ts[n] == RightParen then Parsed(e.(grouped := true), n + 1) else SyntaxError)
      case _ => SyntaxError
  }

  function ParseAssignment(ts: seq<Token>, lhs: Expr, i: nat): (p: Parse)
    ensures p.Parsed? && i <= |ts| ==> i <= p.next <= |ts|
    decreases if i < |ts| then |ts| - i else 0, 2
  {
    if i >= |ts| then Parsed(lhs, i)
    else match ts[i]
      case Question => ParseTernary(ts, lhs, i)
      case Operator(_) =>
        (match ParseBinary(ts, lhs, i)
         case SyntaxError => SyntaxError
         case Parsed(e, n) => ParseAssignment(ts, e, n))
      case _ => Parsed(lhs, i)
  }

  function ParseTernary(ts: seq<Token>, test: Expr, i: nat): (p: Parse)
    requires i < |ts|
    ensures p.Parsed? ==> i < p.next <= |ts|
    decreases |ts| - i, 1
  {
    match ParseExpression(ts, i + 1)
    case SyntaxError => SyntaxError
    case Parsed(c, n) =>
      if !(n < |ts| && ts[n] == Colon) then SyntaxError
      else match ParseExpression(ts, n + 1)
        case SyntaxError => SyntaxError
        case Parsed(a, m) => Parsed(Conditional(false, test, c, a), m)
  }

  function ParseBinary(ts: seq<Token>, left: Expr, i: nat): (p: Parse)
    requires i < |ts| && ts[i].Operator?
    ensures p.Parsed? ==> i < p.next <= |ts|
    decreases |ts| - i, 1
  {
    var op := ts[i].op;
    if op == Exponentiation && IsOpenUnary(left) then SyntaxError
    else match ParseExpression(ts, i + 1)
      case SyntaxError => SyntaxError
      case Parsed(right, n) =>
        if MixesNullish(op, CombineTest(left, op, right)) then SyntaxError
        else Parsed(Combine(left, op, right), n)
  }
}
