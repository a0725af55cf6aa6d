/** A chain of operators before any precedence. */
module FlatChains {
  import opened ExprSyntax
  import opened PrecedenceClimbing
  import opened ClimbingTheory

  datatype FlatParse = FlatError | Flat(items: seq<Item>, next: nat)

  /** Operands and operators from position `i` on, as far as they go. */
  function FlatChain(table: Table, ts: seq<Token>, i: nat): (p: FlatParse)
    ensures p.Flat? ==> i < p.next <= |ts| && |p.items| >= 1
    decreases if i < |ts| then |ts| - i else 0
  {
    match Primary(table, ts, i)
    case SyntaxError => FlatError
    case Parsed(e, n) =>
      match FlatTail(table, ts, n)
      case FlatError => FlatError
      case Flat(items, m) => Flat([Rand(e)] + items, m)
  }

  /** What follows the first operand. */
  function FlatTail(table: Table, ts: seq<Token>, j: nat): (p: FlatParse)
    requires j <= |ts|
    ensures p.Flat? ==> j <= p.next <= |ts|
    decreases |ts| - j
  {
    if !(j < |ts| && ts[j].Operator?) then Flat([], j)
    else
      match FlatChain(table, ts, j + 1)
      case FlatError => FlatError
      case Flat(items, m) => Flat([Rator(ts[j].op)] + items, m)
  }

  lemma StepItems(table: Table, ts: seq<Token>, i: nat)
    requires var p := Primary(table, ts, i);
      p.Parsed? && p.next < |ts| && ts[p.next].Operator?
    ensures var p, q := Primary(table, ts, i), FlatChain(table, ts, i);
      var rest := FlatChain(table, ts, p.next + 1);
      q == if rest.Flat? then Flat([Rand(p.expr), Rator(ts[p.next].op)] + rest.items, rest.next) else FlatError
  {
    var p := Primary(table, ts, i);
    var rest := FlatChain(table, ts, p.next + 1);
    if rest.Flat? {
      assert [Rand(p.expr)] + ([Rator(ts[p.next].op)] + rest.items)
             == [Rand(p.expr), Rator(ts[p.next].op)] + rest.items;
    }
  }

  lemma LastItem(table: Table, ts: seq<Token>, i: nat)
    requires var p := Primary(table, ts, i);
      p.Parsed? && !(p.next < |ts| && ts[p.next].Operator?)
    ensures var p := Primary(table, ts, i); FlatChain(table, ts, i) == Flat([Rand(p.expr)], p.next)
  {
  }

  /** The tree is one of the chain `front` followed by the flat chain, and ends with it. */
  predicate ReadsAs(p: Parse, front: seq<Item>, q: FlatParse) {
    && (p.Parsed? <==> q.Flat?)
    && (p.Parsed? ==> p.next == q.next && Frontier(p.expr) == front + q.items)
  }

  /** Climbing only brackets the flat chain. */
  lemma {:induction false} ClimbIsFlat(table: Table, ts: seq<Token>, lhs: Expr, j: nat)
    requires j <= |ts|
    ensures ReadsAs(Climb(table, ts, lhs, j, 0), Frontier(lhs), FlatTail(table, ts, j))
    decreases |ts| - j
  {
    if Continues(table, ts, j, 0) {
      var op := ts[j].op;
      var level := RightLevel(table, op);
      var p := Primary(table, ts, j + 1);
      if p.Parsed? {
        ClimbInTwoStages(table, ts, p.expr, p.next, level, 0);
        ClimbIsFlat(table, ts, p.expr, p.next);
        var r := Chain(table, ts, j + 1, level);
        if r.Parsed? {
          ClimbIsFlat(table, ts, r.expr, r.next);
          ClimbIsFlat(table, ts, Binary(false, op, lhs, r.expr), r.next);
          TailUnfolds(table, ts, j, p);
          StepIsFlat(Climb(table, ts, p.expr, p.next, 0), Climb(table, ts, lhs, j, 0), Frontier(lhs), op,
                     Frontier(p.expr), Frontier(r.expr), FlatTail(table, ts, p.next), FlatTail(table, ts, r.next),
                     FlatTail(table, ts, j));
        }
      }
    } else {
      assert Frontier(lhs) + [] == Frontier(lhs);
    }
  }

  /** One step on plain values: the rest behind the right operand, read from either end of it. */
  lemma StepIsFlat(whole: Parse, out: Parse, lhs: seq<Item>, op: BinOp, first: seq<Item>, right: seq<Item>,
                   behind: FlatParse, rest: FlatParse, tail: FlatParse)
    requires ReadsAs(whole, first, behind) && ReadsAs(whole, right, rest)
             && ReadsAs(out, lhs + [Rator(op)] + right, rest)
    requires tail.Flat? <==> behind.Flat?
    requires tail.Flat? ==> tail.next == behind.next && tail.items == [Rator(op)] + (first + behind.items)
    ensures ReadsAs(out, lhs, tail)
  {
    if tail.Flat? {
      assert lhs + [Rator(op)] + right + rest.items == lhs + ([Rator(op)] + (right + rest.items));
    }
  }

  lemma TailUnfolds(table: Table, ts: seq<Token>, j: nat, p: Parse)
    requires j < |ts| && ts[j].Operator? && p == Primary(table, ts, j + 1) && p.Parsed?
    ensures Frontier(p.expr) == [Rand(p.expr)]
    ensures var q, q' := FlatTail(table, ts, j), FlatTail(table, ts, p.next);
      && (q.Flat? <==> q'.Flat?)
      && (q.Flat? ==> q.next == q'.next && q.items == [Rator(ts[j].op)] + (Frontier(p.expr) + q'.items))
  {
  }

  /** The parse of a chain, over either table, is a tree of its flat chain, and the only one that respects the table. */
  lemma ChainIsFlat(table: Table, ts: seq<Token>, i: nat)
    ensures ReadsAs(Chain(table, ts, i, 0), [], FlatChain(table, ts, i))
    ensures Chain(table, ts, i, 0).Parsed? ==> RespectsTable(table, Chain(table, ts, i, 0).expr)
  {
    var p := Primary(table, ts, i);
    ChainRespectsTable(table, ts, i, 0);
    if p.Parsed? {
      ClimbIsFlat(table, ts, p.expr, p.next);
      assert Frontier(p.expr) == [Rand(p.expr)];
      var q := FlatChain(table, ts, i);
      if q.Flat? {
        assert [] + q.items == q.items;
      }
    }
  }
}
