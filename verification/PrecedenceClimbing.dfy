/** The textbook parser, precedence climbing, over either operator table. */
module PrecedenceClimbing {
  import opened ExprSyntax

  function Expression(table: Table, ts: seq<Token>, i: nat): (p: Parse)
    ensures p.Parsed? ==> i < p.next <= |ts|
    decreases if i < |ts| then |ts| - i else 0, 3
  {
    match Chain(table, ts, i, 0)
    case SyntaxError => SyntaxError
    case Parsed(t, n) => Ternary(table, ts, t, n)
  }

  /** The optional `? :` after a chain. */
  function Ternary(table: Table, ts: seq<Token>, test: Expr, n: nat): (p: Parse)
    requires n <= |ts|
    ensures p.Parsed? ==> n <= p.next <= |ts|
    decreases |ts| - n, 0
  {
    if !(n < |ts| && ts[n] == Question) then Parsed(test, n)
    else match Expression(table, ts, n + 1)
      case SyntaxError => SyntaxError
      case Parsed(c, m) =>
        if !(m < |ts| && ts[m] == Colon) then SyntaxError
        else match Expression(table, ts, m + 1)
          case SyntaxError => SyntaxError
          case Parsed(a, k) => Parsed(Conditional(false, test, c, a), k)
  }

  function Primary(table: Table, ts: seq<Token>, i: nat): (p: Parse)
    ensures p.Parsed? ==> i < p.next <= |ts| && IsOperand(p.expr)
    decreases if i < |ts| then |ts| - i else 0, 0
  {
    if i >= |ts| then SyntaxError
    else match ts[i]
      case Operand(id, unary) => Parsed(Leaf(false, id, unary), i + 1)
      case LeftParen =>
        (match Expression(table, ts, i + 1)
         case SyntaxError => SyntaxError
         case Parsed(e, n) =>
           if n < |ts| && ts[n] == RightParen then Parsed(e.(grouped := true), n + 1) else SyntaxError)
      case _ => SyntaxError
  }

  /** An operand followed by every operator of precedence at least `min`. */
  function Chain(table: Table, ts: seq<Token>, i: nat, min: nat): (p: Parse)
    ensures p.Parsed? ==> i < p.next <= |ts|
    decreases if i < |ts| then |ts| - i else 0, 2
  {
    match Primary(table, ts, i)
    case SyntaxError => SyntaxError
    case Parsed(e, n) => Climb(table, ts, e, n, min)
  }

  predicate Continues(table: Table, ts: seq<Token>, i: nat, min: nat) {
    i < |ts| && ts[i].Operator? && Precedence(table, ts[i].op) >= min
  }

  function Climb(table: Table, ts: seq<Token>, lhs: Expr, i: nat, min: nat): (p: Parse)
    requires i <= |ts|
    ensures p.Parsed? ==> i <= p.next <= |ts| && !Continues(table, ts, p.next, min)
    decreases |ts| - i, 1
  {
    if !Continues(table, ts, i, min) then Parsed(lhs, i)
    else match Chain(table, ts, i + 1, RightLevel(table, ts[i].op))
      case SyntaxError => SyntaxError
      case Parsed(rhs, n) => Climb(table, ts, Binary(false, ts[i].op, lhs, rhs), n, min)
  }
}
