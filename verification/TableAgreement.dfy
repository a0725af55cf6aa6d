/** Where the code's table and ECMA-262 part, by tokens. */
module TableAgreement {
  import opened ExprSyntax
  import opened PrecedenceClimbing
  import opened ChainTheorems
  import opened FlatChains
  import opened RotationTheory
  import R = RotationParser

  // ----- what an operand covers, by its tokens alone

  /** The first closing parenthesis that leaves depth `d`; the end of the tokens when there is none. */
  function Matching(ts: seq<Token>, k: nat, d: nat): (m: nat)
    ensures k <= |ts| ==> k <= m <= |ts|
    decreases if k < |ts| then |ts| - k else 0
  {
    if k >= |ts| then k
    else if ts[k] == RightParen then (if d == 0 then k else Matching(ts, k + 1, d - 1))
    else Matching(ts, k + 1, if ts[k] == LeftParen then d + 1 else d)
  }

  /** Behind the operand that starts here. */
  function OperandEnd(ts: seq<Token>, k: nat): (e: nat)
    ensures e > k
  {
    if k < |ts| && ts[k] == LeftParen then Matching(ts, k + 1, 0) + 1 else k + 1
  }

  /** From the operand at `k` on, over tighter operators only, a `|` of the same nesting is reached. */
  predicate ReachesOr(ts: seq<Token>, k: nat)
    decreases if k < |ts| then |ts| - k else 0
  {
    k < |ts|
    && var e := OperandEnd(ts, k);
    e < |ts| && ts[e].Operator?
    && (ts[e].op == BitwiseOr
        || (Precedence(Code, ts[e].op) > Precedence(Code, BitwiseOr) && ReachesOr(ts, e + 1)))
  }

  /** Some `&&` among the tokens from `i` to `n`, at whatever nesting, has a `|` behind it with only tighter operators
      between the two. */
  ghost predicate TokenClash(ts: seq<Token>, i: nat, n: nat) {
    exists p :: ClashesAt(ts, i, n, p)
  }

  predicate ClashesAt(ts: seq<Token>, i: nat, n: nat, p: nat) {
    i <= p < n && p < |ts| && ts[p] == Operator(LogicalAnd) && ReachesOr(ts, p + 1)
  }

  lemma ClashSplits(ts: seq<Token>, i: nat, m: nat, n: nat)
    requires i <= m <= n
    ensures TokenClash(ts, i, n) <==> TokenClash(ts, i, m) || TokenClash(ts, m, n)
  {
    if TokenClash(ts, i, n) {
      var p :| ClashesAt(ts, i, n, p);
      assert ClashesAt(ts, i, m, p) || ClashesAt(ts, m, n, p);
    }
    if TokenClash(ts, i, m) {
      var p :| ClashesAt(ts, i, m, p);
      assert ClashesAt(ts, i, n, p);
    }
    if TokenClash(ts, m, n) {
      var p :| ClashesAt(ts, m, n, p);
      assert ClashesAt(ts, i, n, p);
    }
  }

  /** A clash that starts at the first token, or later. */
  lemma ClashAtFirst(ts: seq<Token>, i: nat, n: nat)
    requires i < n
    ensures TokenClash(ts, i, n) <==>
            (i < |ts| && ts[i] == Operator(LogicalAnd) && ReachesOr(ts, i + 1)) || TokenClash(ts, i + 1, n)
  {
    ClashSplits(ts, i, i + 1, n);
    if i < |ts| && ts[i] == Operator(LogicalAnd) && ReachesOr(ts, i + 1) {
      assert ClashesAt(ts, i, i + 1, i);
    }
    if TokenClash(ts, i, i + 1) {
      var p :| ClashesAt(ts, i, i + 1, p);
      assert p == i;
    }
  }

  // ----- parsed stretches are balanced

  lemma {:induction false} ExpressionIsBalanced(table: Table, ts: seq<Token>, i: nat, d: nat)
    ensures var p := Expression(table, ts, i); p.Parsed? ==> Matching(ts, i, d) == Matching(ts, p.next, d)
    decreases if i < |ts| then |ts| - i else 0, 3
  {
    ChainIsFlat(table, ts, i);
    FlatIsBalanced(table, ts, i, d);
    var t := Chain(table, ts, i, 0);
    if t.Parsed? {
      TernaryIsBalanced(table, ts, t.expr, t.next, d);
    }
  }

  lemma PassesOne(ts: seq<Token>, k: nat, d: nat)
    requires k < |ts| && ts[k] != LeftParen && ts[k] != RightParen
    ensures Matching(ts, k, d) == Matching(ts, k + 1, d)
  {
  }

  lemma {:induction false} TernaryIsBalanced(table: Table, ts: seq<Token>, test: Expr, n: nat, d: nat)
    requires n <= |ts|
    ensures var p := Ternary(table, ts, test, n); p.Parsed? ==> Matching(ts, n, d) == Matching(ts, p.next, d)
    decreases |ts| - n, 0
  {
    if n < |ts| && ts[n] == Question {
      TernaryParts(table, ts, test, n);
      ExpressionIsBalanced(table, ts, n + 1, d);
      PassesOne(ts, n, d);
      var c := Expression(table, ts, n + 1);
      if BeforeColon(ts, c) {
        PassesOne(ts, c.next, d);
        ExpressionIsBalanced(table, ts, c.next + 1, d);
      }
    }
  }

  lemma {:induction false} FlatIsBalanced(table: Table, ts: seq<Token>, i: nat, d: nat)
    ensures var q := FlatChain(table, ts, i); q.Flat? ==> Matching(ts, i, d) == Matching(ts, q.next, d)
    decreases if i < |ts| then |ts| - i else 0, 2
  {
    PrimaryIsBalanced(table, ts, i, d);
    var p := Primary(table, ts, i);
    if p.Parsed? && p.next < |ts| && ts[p.next].Operator? {
      FlatIsBalanced(table, ts, p.next + 1, d);
    }
  }

  lemma {:induction false} PrimaryIsBalanced(table: Table, ts: seq<Token>, i: nat, d: nat)
    ensures var p := Primary(table, ts, i);
      p.Parsed? ==> Matching(ts, i, d) == Matching(ts, p.next, d) && p.next == OperandEnd(ts, i)
    decreases if i < |ts| then |ts| - i else 0, 1
  {
    if i < |ts| && ts[i] == LeftParen {
      ExpressionIsBalanced(table, ts, i + 1, d + 1);
      ExpressionIsBalanced(table, ts, i + 1, 0);
    }
  }

  // ----- clashes of a flat chain

  /** A `|` with only tighter operators in front of it. */
  ghost predicate OrInFront(f: seq<Item>) {
    exists j :: OrAt(f, j)
  }

  predicate OrAt(f: seq<Item>, j: nat) {
    && j < |f| && f[j] == Rator(BitwiseOr)
    && forall k :: 0 <= k < j && f[k].Rator? ==> Precedence(Code, f[k].op) > Precedence(Code, BitwiseOr)
  }

  lemma OrInFrontStep(e: Expr, op: BinOp, f: seq<Item>)
    ensures OrInFront([Rand(e), Rator(op)] + f) <==>
            op == BitwiseOr || (Precedence(Code, op) > Precedence(Code, BitwiseOr) && OrInFront(f))
  {
    var g := [Rand(e), Rator(op)] + f;
    if op == BitwiseOr {
      assert OrAt(g, 1);
    }
    if j: nat :| OrAt(f, j) && Precedence(Code, op) > Precedence(Code, BitwiseOr) {
      OrBehindTighter(e, op, f, j);
    }
    if j: nat :| OrAt(g, j) {
      OrOfStep(e, op, f, j);
    }
  }

  lemma OrBehindTighter(e: Expr, op: BinOp, f: seq<Item>, j: nat)
    requires OrAt(f, j) && Precedence(Code, op) > Precedence(Code, BitwiseOr)
    ensures OrAt([Rand(e), Rator(op)] + f, j + 2)
  {
    var g := [Rand(e), Rator(op)] + f;
    forall k | 0 <= k < j + 2 && g[k].Rator? ensures Precedence(Code, g[k].op) > Precedence(Code, BitwiseOr) {
      assert k >= 2 ==> g[k] == f[k - 2];
    }
  }

  lemma OrOfStep(e: Expr, op: BinOp, f: seq<Item>, j: nat)
    requires OrAt([Rand(e), Rator(op)] + f, j)
    ensures op == BitwiseOr || (Precedence(Code, op) > Precedence(Code, BitwiseOr) && OrInFront(f))
  {
    var g := [Rand(e), Rator(op)] + f;
    assert g[1] == Rator(op);
    if j > 1 {
      forall k | 0 <= k < j - 2 && f[k].Rator? ensures Precedence(Code, f[k].op) > Precedence(Code, BitwiseOr) {
        assert g[k + 2] == f[k];
      }
      assert OrAt(f, j - 2);
    }
  }

  lemma ClashesStep(e: Expr, op: BinOp, f: seq<Item>)
    ensures Clashes([Rand(e), Rator(op)] + f) <==> (op == LogicalAnd && OrInFront(f)) || Clashes(f)
  {
    var g := [Rand(e), Rator(op)] + f;
    assert g[2..] == f;
    if i, j :| ClashAt(f, i, j) {
      ClashInside(g, 2, |g|, f, i, j);
    }
    if op == LogicalAnd && OrInFront(f) {
      var j: nat :| OrAt(f, j);
      assert forall k :: 1 < k < j + 2 ==> g[k] == f[k - 2];
      assert ClashAt(g, 1, j + 2);
    }
    if i, j :| ClashAt(g, i, j) {
      ClashOfStep(e, op, f, i, j);
    }
  }

  lemma ClashOfStep(e: Expr, op: BinOp, f: seq<Item>, i: nat, j: nat)
    requires ClashAt([Rand(e), Rator(op)] + f, i, j)
    ensures (op == LogicalAnd && OrInFront(f)) || Clashes(f)
  {
    var g := [Rand(e), Rator(op)] + f;
    assert g[2..] == f;
    if i >= 2 {
      ClashOutside(g, 2, |g|, f, i, j);
    } else {
      assert i == 1 && j >= 2;
      forall k | 0 <= k < j - 2 && f[k].Rator? ensures Precedence(Code, f[k].op) > Precedence(Code, BitwiseOr) {
        assert g[k + 2] == f[k];
      }
      assert OrAt(f, j - 2);
    }
  }

  /** The walk over the tokens sees what the flat chain has. */
  lemma {:induction false} OrIsReached(table: Table, ts: seq<Token>, i: nat)
    ensures var q := FlatChain(table, ts, i); q.Flat? ==> (OrInFront(q.items) <==> ReachesOr(ts, i))
    decreases if i < |ts| then |ts| - i else 0
  {
    PrimaryIsBalanced(table, ts, i, 0);
    var p, q := Primary(table, ts, i), FlatChain(table, ts, i);
    if q.Flat? {
      if p.next < |ts| && ts[p.next].Operator? {
        OrIsReached(table, ts, p.next + 1);
        StepItems(table, ts, i);
        OrInFrontStep(p.expr, ts[p.next].op, FlatChain(table, ts, p.next + 1).items);
      } else {
        LastItem(table, ts, i);
      }
    }
  }

  // ----- both tables in step

  /** The two parses end alike, and differ exactly when the tokens clash. */
  ghost predicate InStep(ts: seq<Token>, i: nat, c: Parse, m: Parse) {
    && (c.Parsed? <==> m.Parsed?)
    && (c.Parsed? ==>
          && c.next == m.next && c.expr.grouped == m.expr.grouped
          && (c.expr == m.expr <==> !TokenClash(ts, i, c.next)))
  }

  ghost predicate FlatInStep(ts: seq<Token>, i: nat, c: FlatParse, m: FlatParse) {
    && (c.Flat? <==> m.Flat?)
    && (c.Flat? ==>
          && c.next == m.next && SameShape(c.items, m.items)
          && (c.items == m.items && !Clashes(c.items) <==> !TokenClash(ts, i, c.next)))
  }

  /** Flat chains of one length whose first operands carry the same flag. */
  predicate SameShape(f: seq<Item>, g: seq<Item>) {
    && |f| == |g| >= 1 && f[0].Rand? && g[0].Rand?
    && f[0].expr.grouped == g[0].expr.grouped
  }

  lemma SameShapeSameFlag(c: Expr, m: Expr)
    requires SameShape(Frontier(c), Frontier(m))
    ensures c.grouped == m.grouped
  {
  }

  lemma GroupedExpr(c: Expr, m: Expr)
    requires c.grouped == m.grouped
    ensures c.(grouped := true) == m.(grouped := true) <==> c == m
  {
  }

  lemma {:induction false} ExpressionsInStep(ts: seq<Token>, i: nat)
    ensures InStep(ts, i, Expression(Code, ts, i), Expression(Ecma, ts, i))
    decreases if i < |ts| then |ts| - i else 0, 3
  {
    FlatsInStep(ts, i);
    ChainsInStep(ts, i);
    var t, t' := Chain(Code, ts, i, 0), Chain(Ecma, ts, i, 0);
    if t.Parsed? && t.next < |ts| && ts[t.next] == Question {
      ExpressionsInStep(ts, t.next + 1);
      var c := Expression(Code, ts, t.next + 1);
      if BeforeColon(ts, c) {
        ExpressionsInStep(ts, c.next + 1);
      }
      TernariesInStep(ts, i, t, t');
    }
  }

  lemma TernariesInStep(ts: seq<Token>, i: nat, t: Parse, t': Parse)
    requires t.Parsed? && i <= t.next < |ts| && ts[t.next] == Question && InStep(ts, i, t, t')
    requires var c := Expression(Code, ts, t.next + 1);
      && InStep(ts, t.next + 1, c, Expression(Ecma, ts, t.next + 1))
      && (BeforeColon(ts, c) ==> InStep(ts, c.next + 1, Expression(Code, ts, c.next + 1),
                                        Expression(Ecma, ts, c.next + 1)))
    ensures InStep(ts, i, Ternary(Code, ts, t.expr, t.next), Ternary(Ecma, ts, t'.expr, t'.next))
  {
    var n := t.next;
    TernaryParts(Code, ts, t.expr, n);
    TernaryParts(Ecma, ts, t'.expr, n);
    var c, c' := Expression(Code, ts, n + 1), Expression(Ecma, ts, n + 1);
    if BeforeColon(ts, c) {
      TernaryInStep(ts, i, t, t', c, c', Expression(Code, ts, c.next + 1), Expression(Ecma, ts, c.next + 1));
    }
  }

  lemma TernaryInStep(ts: seq<Token>, i: nat, t: Parse, t': Parse, c: Parse, c': Parse, a: Parse, a': Parse)
    requires t.Parsed? && i <= t.next < |ts| && ts[t.next] == Question && InStep(ts, i, t, t')
    requires BeforeColon(ts, c) && t.next < c.next && InStep(ts, t.next + 1, c, c') && InStep(ts, c.next + 1, a, a')
    requires a.Parsed? ==> c.next < a.next <= |ts|
    ensures InStep(ts, i, TernaryOf(t.expr, c, a), TernaryOf(t'.expr, c', a'))
  {
    if a.Parsed? {
      ClashOfTernary(ts, i, t.next, c.next, a.next);
    }
  }

  lemma ClashOfTernary(ts: seq<Token>, i: nat, n: nat, m: nat, k: nat)
    requires i <= n < m < k <= |ts| && ts[n] == Question && ts[m] == Colon
    ensures TokenClash(ts, i, k) <==> TokenClash(ts, i, n) || TokenClash(ts, n + 1, m) || TokenClash(ts, m + 1, k)
  {
    ClashSplits(ts, i, n, k);
    ClashAtFirst(ts, n, k);
    ClashSplits(ts, n + 1, m, k);
    ClashAtFirst(ts, m, k);
  }

  lemma ChainsInStep(ts: seq<Token>, i: nat)
    requires FlatInStep(ts, i, FlatChain(Code, ts, i), FlatChain(Ecma, ts, i))
    ensures InStep(ts, i, Chain(Code, ts, i, 0), Chain(Ecma, ts, i, 0))
  {
    ChainIsFlat(Code, ts, i);
    ChainIsFlat(Ecma, ts, i);
    var c, m := Chain(Code, ts, i, 0), Chain(Ecma, ts, i, 0);
    if c.Parsed? {
      assert [] + FlatChain(Code, ts, i).items == FlatChain(Code, ts, i).items;
      assert [] + FlatChain(Ecma, ts, i).items == FlatChain(Ecma, ts, i).items;
      SameShapeSameFlag(c.expr, m.expr);
      if Frontier(c.expr) == Frontier(m.expr) {
        AgreesWithEcma(c.expr, m.expr);
      }
    }
  }

  lemma {:induction false} FlatsInStep(ts: seq<Token>, i: nat)
    ensures FlatInStep(ts, i, FlatChain(Code, ts, i), FlatChain(Ecma, ts, i))
    decreases if i < |ts| then |ts| - i else 0, 2
  {
    PrimariesInStep(ts, i);
    var p := Primary(Code, ts, i);
    if p.Parsed? {
      if p.next < |ts| && ts[p.next].Operator? {
        FlatsInStep(ts, p.next + 1);
        FlatStep(ts, i);
      } else {
        LastItem(Code, ts, i);
        LastItem(Ecma, ts, i);
        assert !Clashes([Rand(p.expr)]);
      }
    }
  }

  lemma FlatStep(ts: seq<Token>, i: nat)
    requires var p := Primary(Code, ts, i);
      && p.Parsed? && p.next < |ts| && ts[p.next].Operator?
      && InStep(ts, i, p, Primary(Ecma, ts, i))
      && FlatInStep(ts, p.next + 1, FlatChain(Code, ts, p.next + 1), FlatChain(Ecma, ts, p.next + 1))
    ensures FlatInStep(ts, i, FlatChain(Code, ts, i), FlatChain(Ecma, ts, i))
  {
    var p, p' := Primary(Code, ts, i), Primary(Ecma, ts, i);
    var f, f' := FlatChain(Code, ts, p.next + 1), FlatChain(Ecma, ts, p.next + 1);
    StepItems(Code, ts, i);
    StepItems(Ecma, ts, i);
    if f.Flat? {
      OrIsReached(Code, ts, p.next + 1);
      FlatsStep(ts, i, p, p', f, f');
    }
  }

  lemma FlatsStep(ts: seq<Token>, i: nat, p: Parse, p': Parse, f: FlatParse, f': FlatParse)
    requires p.Parsed? && i <= p.next < |ts| && ts[p.next].Operator? && InStep(ts, i, p, p')
    requires f.Flat? && p.next < f.next && FlatInStep(ts, p.next + 1, f, f')
    requires OrInFront(f.items) <==> ReachesOr(ts, p.next + 1)
    ensures var op := ts[p.next].op;
      FlatInStep(ts, i, Flat([Rand(p.expr), Rator(op)] + f.items, f.next),
                 Flat([Rand(p'.expr), Rator(op)] + f'.items, f'.next))
  {
    var n := p.next;
    ClashesStep(p.expr, ts[n].op, f.items);
    ClashSplits(ts, i, n, f.next);
    ClashAtFirst(ts, n, f.next);
    SameItems(p.expr, p'.expr, ts[n].op, f.items, f'.items);
  }

  lemma SameItems(e: Expr, e': Expr, op: BinOp, f: seq<Item>, f': seq<Item>)
    ensures [Rand(e), Rator(op)] + f == [Rand(e'), Rator(op)] + f' <==> e == e' && f == f'
  {
    var g, g' := [Rand(e), Rator(op)] + f, [Rand(e'), Rator(op)] + f';
    if g == g' {
      assert g[0] == g'[0];
      assert f == g[2..] == g'[2..] == f';
    }
  }

  lemma {:induction false} PrimariesInStep(ts: seq<Token>, i: nat)
    ensures InStep(ts, i, Primary(Code, ts, i), Primary(Ecma, ts, i))
    decreases if i < |ts| then |ts| - i else 0, 1
  {
    if i < |ts| && ts[i] == LeftParen {
      ExpressionsInStep(ts, i + 1);
      var c, m := Expression(Code, ts, i + 1), Expression(Ecma, ts, i + 1);
      if c.Parsed? && c.next < |ts| && ts[c.next] == RightParen {
        ClashAtFirst(ts, i, c.next + 1);
        ClashSplits(ts, i + 1, c.next, c.next + 1);
        ClashAtFirst(ts, c.next, c.next + 1);
        NoClash(ts, c.next + 1);
        GroupedExpr(c.expr, m.expr);
      }
    } else if i < |ts| {
      ClashAtFirst(ts, i, i + 1);
      NoClash(ts, i + 1);
    }
  }

  lemma NoClash(ts: seq<Token>, i: nat)
    ensures !TokenClash(ts, i, i)
  {
  }

  // ----- the code's parser against ECMA-262

  /** Whatever the code accepts ends where ECMA-262 ends it, and has the same tree exactly when nothing clashes. */
  lemma ParserAgreesWithEcma(ts: seq<Token>, i: nat)
    ensures var c, m := R.ParseExpression(ts, i), Expression(Ecma, ts, i);
      c.Parsed? ==> m.Parsed? && c.next == m.next && (c.expr == m.expr <==> !TokenClash(ts, i, c.next))
  {
    ParsersAgree(ts, i);
    ExpressionsInStep(ts, i);
  }
}
