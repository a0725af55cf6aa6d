/** The meaning of parsed trees: table, tokens, ECMA-262. */
module ChainTheorems {
  import opened ExprSyntax
  import opened PrecedenceClimbing
  import opened ClimbingTheory
  import opened RotationTheory
  import R = RotationParser

  lemma {:induction false} SpliceFrontier(e0: Expr, op: BinOp, e: Expr)
    requires IsOperand(e0)
    ensures Frontier(R.Splice(e0, op, e)) == [Rand(e0), Rator(op)] + Frontier(e)
    decreases e
  {
    if R.ShouldBeAmended(e, op) {
      SpliceFrontier(e0, op, e.left);
      assert R.Splice(e0, op, e) == e.(left := R.Splice(e0, op, e.left));
    } else {
      assert R.Splice(e0, op, e) == Binary(false, op, e0, e);
    }
  }

  lemma {:induction false} SpliceRespectsTable(e0: Expr, op: BinOp, e: Expr)
    requires IsOperand(e0) && RespectsTable(Code, e) && !IsOpenConditional(e)
    ensures RespectsTable(Code, R.Splice(e0, op, e))
    decreases e
  {
    if R.ShouldBeAmended(e, op) {
      SpliceRespectsTable(e0, op, e.left);
      assert R.Splice(e0, op, e) == e.(left := R.Splice(e0, op, e.left));
    } else {
      assert R.Splice(e0, op, e) == Binary(false, op, e0, e);
    }
  }

  /** The rotated tree is the one tree of the longer chain that respects the table. */
  lemma SpliceIsTheParse(e0: Expr, op: BinOp, e: Expr, t: Expr)
    requires IsOperand(e0) && RespectsTable(Code, e) && !IsOpenConditional(e)
    ensures t == R.Splice(e0, op, e) <==> RespectsTable(Code, t) && Frontier(t) == [Rand(e0), Rator(op)] + Frontier(e)
  {
    SpliceRespectsTable(e0, op, e);
    SpliceFrontier(e0, op, e);
    if RespectsTable(Code, t) && Frontier(t) == [Rand(e0), Rator(op)] + Frontier(e) {
      UniqueParse(Code, t, R.Splice(e0, op, e));
    }
  }

  // ----- tokens are neither lost, duplicated nor reordered

  /** The tokens of `ts[i..j]` without parentheses. */
  function Bare(ts: seq<Token>, i: nat, j: nat): seq<Token>
    requires j <= |ts|
    decreases j - i
  {
    if i >= j then []
    else if ts[i] == LeftParen || ts[i] == RightParen then Bare(ts, i + 1, j)
    else [ts[i]] + Bare(ts, i + 1, j)
  }

  /** The tokens of a tree, read from left to right. */
  function InOrder(e: Expr): seq<Token> {
    match e
    case Leaf(_, id, unary) => [Operand(id, unary)]
    case Binary(_, op, l, r) => InOrder(l) + ([Operator(op)] + InOrder(r))
    case Conditional(_, t, c, a) => InOrder(t) + ([Question] + (InOrder(c) + ([Colon] + InOrder(a))))
  }

  lemma {:induction false} BareSplit(ts: seq<Token>, i: nat, j: nat, k: nat)
    requires i <= j <= k <= |ts|
    ensures Bare(ts, i, k) == Bare(ts, i, j) + Bare(ts, j, k)
    decreases j - i
  {
    if i < j {
      BareSplit(ts, i + 1, j, k);
    }
  }

  lemma {:induction false} ExpressionKeepsTokens(table: Table, ts: seq<Token>, i: nat)
    ensures var p := Expression(table, ts, i); p.Parsed? ==> Bare(ts, i, p.next) == InOrder(p.expr)
    decreases if i < |ts| then |ts| - i else 0, 3
  {
    ChainKeepsTokens(table, ts, i, 0);
    var t := Chain(table, ts, i, 0);
    if t.Parsed? {
      TernaryKeepsTokens(table, ts, t.expr, i, t.next);
    }
  }

  lemma BareTernary(ts: seq<Token>, i: nat, n: nat, m: nat, k: nat)
    requires i <= n < m < k <= |ts| && ts[n] == Question && ts[m] == Colon
    ensures Bare(ts, i, k) == Bare(ts, i, n) + ([Question] + (Bare(ts, n + 1, m) + ([Colon] + Bare(ts, m + 1, k))))
  {
    BareSplit(ts, i, n, k);
    BareSplit(ts, n + 1, m, k);
  }

  lemma ConditionalInOrder(t: Expr, c: Expr, a: Expr)
    ensures InOrder(Conditional(false, t, c, a)) == InOrder(t) + ([Question] + (InOrder(c) + ([Colon] + InOrder(a))))
  {
  }

  lemma {:induction false} TernaryKeepsTokens(table: Table, ts: seq<Token>, test: Expr, start: nat, n: nat)
    requires start <= n <= |ts| && Bare(ts, start, n) == InOrder(test)
    ensures var p := Ternary(table, ts, test, n); p.Parsed? ==> Bare(ts, start, p.next) == InOrder(p.expr)
    decreases |ts| - n, 0
  {
    if n < |ts| && ts[n] == Question {
      TernaryParts(table, ts, test, n);
      ExpressionKeepsTokens(table, ts, n + 1);
      var c := Expression(table, ts, n + 1);
      if BeforeColon(ts, c) {
        ExpressionKeepsTokens(table, ts, c.next + 1);
        TernaryOfKeepsTokens(ts, test, start, n, c, Expression(table, ts, c.next + 1));
      }
    }
  }

  lemma TernaryOfKeepsTokens(ts: seq<Token>, test: Expr, start: nat, n: nat, c: Parse, a: Parse)
    requires start <= n < |ts| && ts[n] == Question && Bare(ts, start, n) == InOrder(test)
    requires BeforeColon(ts, c) && n < c.next && Bare(ts, n + 1, c.next) == InOrder(c.expr)
    requires a.Parsed? ==> c.next < a.next <= |ts| && Bare(ts, c.next + 1, a.next) == InOrder(a.expr)
    ensures var p := TernaryOf(test, c, a); p.Parsed? ==> Bare(ts, start, p.next) == InOrder(p.expr)
  {
    if a.Parsed? {
      BareTernary(ts, start, n, c.next, a.next);
      ConditionalInOrder(test, c.expr, a.expr);
    }
  }

  lemma {:induction false} ChainKeepsTokens(table: Table, ts: seq<Token>, i: nat, min: nat)
    ensures var p := Chain(table, ts, i, min); p.Parsed? ==> Bare(ts, i, p.next) == InOrder(p.expr)
    decreases if i < |ts| then |ts| - i else 0, 2
  {
    if i < |ts| && ts[i] == LeftParen {
      ExpressionKeepsTokens(table, ts, i + 1);
      var e := Expression(table, ts, i + 1);
      if e.Parsed? && e.next < |ts| && ts[e.next] == RightParen {
        BareSplit(ts, i + 1, e.next, e.next + 1);
      }
    }
    var p := Primary(table, ts, i);
    if p.Parsed? {
      ClimbKeepsTokens(table, ts, p.expr, i, p.next, min);
    }
  }

  lemma {:induction false} ClimbKeepsTokens(table: Table, ts: seq<Token>, lhs: Expr, start: nat, i: nat, min: nat)
    requires start <= i <= |ts| && Bare(ts, start, i) == InOrder(lhs)
    ensures var p := Climb(table, ts, lhs, i, min); p.Parsed? ==> Bare(ts, start, p.next) == InOrder(p.expr)
    decreases |ts| - i, 1
  {
    if Continues(table, ts, i, min) {
      ChainKeepsTokens(table, ts, i + 1, RightLevel(table, ts[i].op));
      var r := Chain(table, ts, i + 1, RightLevel(table, ts[i].op));
      if r.Parsed? {
        BareSplit(ts, start, i, r.next);
        assert Bare(ts, i, r.next) == [ts[i]] + Bare(ts, i + 1, r.next);
        ClimbKeepsTokens(table, ts, Binary(false, ts[i].op, lhs, r.expr), start, r.next, min);
      }
    }
  }

  // ----- the whole tree

  /** Every chain of the tree respects the table, inside parentheses and branches too. */
  predicate RespectsEverywhere(table: Table, e: Expr) {
    match e
    case Leaf(_, _, _) => true
    case Conditional(_, t, c, a) =>
      RespectsEverywhere(table, t) && RespectsEverywhere(table, c) && RespectsEverywhere(table, a)
    case Binary(_, op, l, r) =>
      RespectsTable(table, Binary(false, op, l, r)) && RespectsEverywhere(table, l) && RespectsEverywhere(table, r)
  }

  /** No `||` or `&&` of the tree has an ungrouped `??` as an operand. */
  predicate Unmixed(e: Expr) {
    match e
    case Leaf(_, _, _) => true
    case Conditional(_, t, c, a) => Unmixed(t) && Unmixed(c) && Unmixed(a)
    case Binary(_, op, l, r) =>
      && Unmixed(l) && Unmixed(r)
      && (IsLogicalOrAnd(op) ==> !IsOpenNullish(l) && !IsOpenNullish(r))
  }

  predicate IsOpenNullish(e: Expr) {
    IsOpenBinary(e) && e.op == NullishCoalescing
  }

  lemma {:induction false} RespectedIsUnmixed(e: Expr)
    requires RespectsEverywhere(Code, e)
    ensures Unmixed(e)
    decreases e
  {
    if e.Conditional? {
      RespectedIsUnmixed(e.test);
      RespectedIsUnmixed(e.consequent);
      RespectedIsUnmixed(e.alternate);
    } else if e.Binary? {
      RespectedIsUnmixed(e.left);
      RespectedIsUnmixed(e.right);
    }
  }

  lemma {:induction false} ExpressionRespects(table: Table, ts: seq<Token>, i: nat)
    ensures var p := Expression(table, ts, i); p.Parsed? ==> RespectsEverywhere(table, p.expr)
    decreases if i < |ts| then |ts| - i else 0, 3
  {
    ChainRespects(table, ts, i, 0);
    var t := Chain(table, ts, i, 0);
    if t.Parsed? && t.next < |ts| && ts[t.next] == Question {
      ExpressionRespects(table, ts, t.next + 1);
      var c := Expression(table, ts, t.next + 1);
      if c.Parsed? && c.next < |ts| && ts[c.next] == Colon {
        ExpressionRespects(table, ts, c.next + 1);
      }
    }
  }

  lemma {:induction false} ChainRespects(table: Table, ts: seq<Token>, i: nat, min: nat)
    ensures var p := Chain(table, ts, i, min); p.Parsed? ==> RespectsEverywhere(table, p.expr)
    decreases if i < |ts| then |ts| - i else 0, 2
  {
    if i < |ts| && ts[i] == LeftParen {
      ExpressionRespects(table, ts, i + 1);
    }
    var p := Primary(table, ts, i);
    if p.Parsed? {
      ClimbRespects(table, ts, p.expr, p.next, min);
    }
  }

  lemma {:induction false} ClimbRespects(table: Table, ts: seq<Token>, lhs: Expr, i: nat, min: nat)
    requires i <= |ts| && RespectsEverywhere(table, lhs) && BindsAtLeast(table, lhs, min)
    requires IsOpenBinary(lhs) ==> !Continues(table, ts, i, RightLevel(table, lhs.op))
    ensures var p := Climb(table, ts, lhs, i, min); p.Parsed? ==> RespectsEverywhere(table, p.expr)
    decreases |ts| - i, 1
  {
    if Continues(table, ts, i, min) {
      var op := ts[i].op;
      ChainRespects(table, ts, i + 1, RightLevel(table, op));
      ChainRespectsTable(table, ts, i + 1, RightLevel(table, op));
      var r := Chain(table, ts, i + 1, RightLevel(table, op));
      if r.Parsed? {
        ClimbRespects(table, ts, Binary(false, op, lhs, r.expr), r.next, min);
      }
    }
  }

  /** The tree that the code accepts reads back as the tokens that it consumed, has no early error, and respects the
      table in every chain, so that `??` and the logical operators do not meet without parentheses. */
  lemma ParseKeepsTokens(ts: seq<Token>, i: nat)
    ensures var p := R.ParseExpression(ts, i);
      p.Parsed? ==>
        && Bare(ts, i, p.next) == InOrder(p.expr) && EarlyErrorFree(p.expr)
        && RespectsEverywhere(Code, p.expr) && Unmixed(p.expr)
  {
    ParsersAgree(ts, i);
    ExpressionKeepsTokens(Code, ts, i);
    var p := Expression(Code, ts, i);
    if p.Parsed? {
      ExpressionRespects(Code, ts, i);
      RespectedIsUnmixed(p.expr);
    }
  }

  // ----- agreement with ECMA-262

  /** A `|` that follows a `&&` of the same chain with only tighter operators between them. */
  predicate ClashAt(f: seq<Item>, i: nat, j: nat) {
    && i < j < |f| && f[i] == Rator(LogicalAnd) && f[j] == Rator(BitwiseOr)
    && forall k :: i < k < j && f[k].Rator? ==> Precedence(Code, f[k].op) > Precedence(Code, BitwiseOr)
  }

  ghost predicate Clashes(f: seq<Item>) {
    exists i, j :: ClashAt(f, i, j)
  }

  lemma ClashInside(f: seq<Item>, lo: nat, hi: nat, g: seq<Item>, i: nat, j: nat)
    requires lo <= hi <= |f| && g == f[lo..hi] && ClashAt(g, i, j)
    ensures ClashAt(f, lo + i, lo + j)
  {
    forall k | lo + i < k < lo + j && f[k].Rator?
      ensures Precedence(Code, f[k].op) > Precedence(Code, BitwiseOr)
    {
      assert f[k] == g[k - lo];
    }
  }

  lemma ClashOutside(f: seq<Item>, lo: nat, hi: nat, g: seq<Item>, i: nat, j: nat)
    requires lo <= i < j < hi <= |f| && g == f[lo..hi] && ClashAt(f, i, j)
    ensures ClashAt(g, i - lo, j - lo)
  {
    forall k | i - lo < k < j - lo && g[k].Rator?
      ensures Precedence(Code, g[k].op) > Precedence(Code, BitwiseOr)
    {
      assert g[k] == f[k + lo];
    }
  }

  lemma FrontierParts(e: Expr)
    requires IsOpenBinary(e)
    ensures var n := |Frontier(e.left)|;
      && Frontier(e)[..n] == Frontier(e.left) && Frontier(e)[n] == Rator(e.op)
      && Frontier(e)[n + 1..] == Frontier(e.right)
  {
  }

  /** Without a clash, a tree that respects the code's table respects the nesting of ECMA-262. */
  lemma {:induction false} NoClashIsEcma(e: Expr)
    requires RespectsTable(Code, e) && !Clashes(Frontier(e))
    ensures RespectsTable(Ecma, e)
    decreases e
  {
    if IsOpenBinary(e) {
      NoClashInParts(e);
      NoClashIsEcma(e.left);
      NoClashIsEcma(e.right);
    }
  }

  lemma NoClashInParts(e: Expr)
    requires RespectsTable(Code, e) && IsOpenBinary(e) && !Clashes(Frontier(e))
    ensures !Clashes(Frontier(e.left)) && !Clashes(Frontier(e.right))
    ensures !(e.op == BitwiseOr && IsOpenBinary(e.left) && e.left.op == LogicalAnd)
  {
    PartsClash(Frontier(e.left), e.op, Frontier(e.right));
    if e.op == BitwiseOr && IsOpenBinary(e.left) && e.left.op == LogicalAnd {
      AndUnderOrClashes(e);
    }
  }

  lemma PartsClash(f: seq<Item>, op: BinOp, g: seq<Item>)
    ensures Clashes(f) || Clashes(g) ==> Clashes(f + [Rator(op)] + g)
  {
    var h, n := f + [Rator(op)] + g, |f|;
    assert h[..n] == f && h[n + 1..] == g;
    if i, j :| ClashAt(f, i, j) {
      ClashInside(h, 0, n, f, i, j);
    }
    if i, j :| ClashAt(g, i, j) {
      ClashInside(h, n + 1, |h|, g, i, j);
    }
  }

  lemma AndUnderOrClashes(e: Expr)
    requires RespectsTable(Code, e) && IsOpenBinary(e) && e.op == BitwiseOr
    requires IsOpenBinary(e.left) && e.left.op == LogicalAnd
    ensures ClashAt(Frontier(e), |Frontier(e.left.left)|, |Frontier(e.left)|)
  {
    var f := Frontier(e);
    var i, j := |Frontier(e.left.left)|, |Frontier(e.left)|;
    FrontierParts(e);
    FrontierParts(e.left);
    assert f[i] == Frontier(e.left)[i];
    forall k | i < k < j && f[k].Rator?
      ensures Precedence(Code, f[k].op) > Precedence(Code, BitwiseOr)
    {
      assert f[k] == Frontier(e.left)[k];
      RightOfRoot(Code, e.left, k);
    }
  }

  /** Some `|` of the chain has an ungrouped `&&` as its left operand. */
  predicate AndUnderOr(e: Expr) {
    && IsOpenBinary(e)
    && ((e.op == BitwiseOr && IsOpenBinary(e.left) && e.left.op == LogicalAnd) || AndUnderOr(e.left)
        || AndUnderOr(e.right))
  }

  lemma ClashInPart(e: Expr, i: nat, j: nat)
    requires IsOpenBinary(e) && ClashAt(Frontier(e), i, j)
    ensures var n := |Frontier(e.left)|;
      && (j < n ==> ClashAt(Frontier(e.left), i, j))
      && (n < i ==> ClashAt(Frontier(e.right), i - n - 1, j - n - 1))
  {
    var f, n := Frontier(e), |Frontier(e.left)|;
    FrontierParts(e);
    if j < n {
      ClashOutside(f, 0, n, Frontier(e.left), i, j);
    } else if n < i {
      ClashOutside(f, n + 1, |f|, Frontier(e.right), i, j);
    }
  }

  /** A clash between two tokens of a chain shows in the code's tree. */
  lemma {:induction false} ClashShowsInTree(e: Expr, i: nat, j: nat)
    requires RespectsTable(Code, e) && ClashAt(Frontier(e), i, j)
    ensures AndUnderOr(e)
    decreases e
  {
    assert IsOpenBinary(e);
    var n := |Frontier(e.left)|;
    ClashInPart(e, i, j);
    if j < n {
      ClashShowsInTree(e.left, i, j);
    } else if n < i {
      ClashShowsInTree(e.right, i - n - 1, j - n - 1);
    } else {
      ClashSpansRoot(e, i, j);
    }
  }

  lemma {:induction false} AndUnderOrIsNotEcma(e: Expr)
    requires AndUnderOr(e)
    ensures !RespectsTable(Ecma, e)
    decreases e
  {
    if AndUnderOr(e.left) {
      AndUnderOrIsNotEcma(e.left);
    } else if AndUnderOr(e.right) {
      AndUnderOrIsNotEcma(e.right);
    }
  }

  lemma ClashSpansRoot(e: Expr, i: nat, j: nat)
    requires RespectsTable(Code, e) && ClashAt(Frontier(e), i, j)
    requires IsOpenBinary(e) && i <= |Frontier(e.left)| <= j
    ensures e.op == BitwiseOr && IsOpenBinary(e.left) && e.left.op == LogicalAnd
  {
    FrontierParts(e);
    var n := |Frontier(e.left)|;
    if i < n {
      LeftOfRoot(Code, e, i);
      assert Frontier(e)[n] == Rator(e.op);
      AndRootsLeft(e, i);
    } else {
      RightOfRoot(Code, e, j);
    }
  }

  lemma AndRootsLeft(e: Expr, i: nat)
    requires RespectsTable(Code, e) && IsOpenBinary(e) && e.op == BitwiseOr
    requires ClashAt(Frontier(e), i, |Frontier(e.left)|)
    ensures IsOpenBinary(e.left) && e.left.op == LogicalAnd
  {
    FrontierParts(e);
    var l := e.left;
    assert Frontier(l)[i] == Rator(LogicalAnd);
    assert IsOpenBinary(l);
    RootBindsLeast(Code, l, Precedence(Code, l.op), i);
    var m := |Frontier(l.left)|;
    FrontierParts(l);
    if l.op == BitwiseOr {
      assert Frontier(e)[m] == Frontier(l)[m];
      if m < i {
        RightOfRoot(Code, l, i);
      }
      assert false;
    }
  }

  /** The code's tree is the tree of ECMA-262 exactly when no `|` clashes with an earlier `&&`. */
  lemma AgreesWithEcma(code: Expr, ecma: Expr)
    requires RespectsTable(Code, code) && RespectsTable(Ecma, ecma) && Frontier(code) == Frontier(ecma)
    ensures code == ecma <==> !Clashes(Frontier(code))
  {
    if !Clashes(Frontier(code)) {
      NoClashIsEcma(code);
      UniqueParse(Ecma, code, ecma);
    } else {
      var i, j :| ClashAt(Frontier(code), i, j);
      ClashShowsInTree(code, i, j);
      AndUnderOrIsNotEcma(code);
    }
  }

  /** A clash: `a && b | c`, which the code reads as `(a && b) | c`. */
  lemma ClashExample()
    ensures var ts := [Operand(0, false), Operator(LogicalAnd), Operand(1, false), Operator(BitwiseOr),
                       Operand(2, false)];
      && R.ParseExpression(ts, 0).Parsed? && Expression(Ecma, ts, 0).Parsed?
      && R.ParseExpression(ts, 0).expr != Expression(Ecma, ts, 0).expr
  {
    var ts := [Operand(0, false), Operator(LogicalAnd), Operand(1, false), Operator(BitwiseOr), Operand(2, false)];
    var x, y, z := Leaf(false, 0, false), Leaf(false, 1, false), Leaf(false, 2, false);
    assert R.ParseExpression(ts, 4) == Parsed(z, 5);
    assert R.ParseBinary(ts, y, 3) == Parsed(Binary(false, BitwiseOr, y, z), 5);
    assert R.ParseExpression(ts, 2) == Parsed(Binary(false, BitwiseOr, y, z), 5);
    assert R.Splice(x, LogicalAnd, y) == Binary(false, LogicalAnd, x, y);
    assert R.ParseBinary(ts, x, 1) == Parsed(Binary(false, BitwiseOr, Binary(false, LogicalAnd, x, y), z), 5);
    assert R.ParseExpression(ts, 0) == Parsed(Binary(false, BitwiseOr, Binary(false, LogicalAnd, x, y), z), 5);
    assert Chain(Ecma, ts, 4, 5) == Parsed(z, 5);
    assert Climb(Ecma, ts, y, 3, 4) == Parsed(Binary(false, BitwiseOr, y, z), 5);
    assert Chain(Ecma, ts, 2, 4) == Parsed(Binary(false, BitwiseOr, y, z), 5);
    assert Climb(Ecma, ts, x, 1, 0) == Parsed(Binary(false, LogicalAnd, x, Binary(false, BitwiseOr, y, z)), 5);
    assert Chain(Ecma, ts, 0, 0) == Climb(Ecma, ts, x, 1, 0);
  }
}
