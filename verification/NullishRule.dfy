/** What the parser accepts: the `**` rule and the `??` rule. */
module NullishRule {
  import opened ExprSyntax
  import opened PrecedenceClimbing
  import opened ClimbingTheory
  import opened RotationTheory
  import opened ChainTheorems
  import opened FlatChains
  import opened Options
  import R = RotationParser

  // ----- mixing `??` with `||` and `&&`

  /** The `??` rule of `EarlyErrorFree`, along one chain only. */
  predicate NullishAllowed(e: Expr) {
    IsOpenBinary(e) ==>
      NullishAllowed(e.left) && NullishAllowed(e.right)
      && (e.op == NullishCoalescing ==> NodeAllowed(e.op, e.left, e.right))
  }

  /** Section 13.13 of ECMA-262: one chain never holds both `??` and one of `||`, `&&`. */
  predicate Mixes(f: seq<Item>) {
    && Rator(NullishCoalescing) in f
    && (Rator(LogicalOr) in f || Rator(LogicalAnd) in f)
  }

  predicate IsLogical(item: Item) {
    item.Rator? && IsLogicalOrAnd(item.op)
  }

  /** The chains that slip through: nothing logical before the `??` at `n`, which is the last; behind it no `||`, a `&&`
      at `m`, and a `|` at `b` behind the last `&&`. */
  predicate LeakAt(f: seq<Item>, n: nat, m: nat, b: nat) {
    && n < m < b < |f|
    && f[n] == Rator(NullishCoalescing) && f[m] == Rator(LogicalAnd) && f[b] == Rator(BitwiseOr)
    && (forall k :: 0 <= k < n ==> !IsLogical(f[k]))
    && (forall k :: n < k < |f| ==> f[k] != Rator(NullishCoalescing) && f[k] != Rator(LogicalOr))
    && (forall k :: b < k < |f| ==> f[k] != Rator(LogicalAnd))
  }

  ghost predicate LeakingItems(f: seq<Item>) {
    exists n, m, b :: LeakAt(f, n, m, b)
  }

  /** The shape that a leaking chain has as a tree. */
  predicate Leaks(e: Expr) {
    && IsOpenBinary(e) && e.op == NullishCoalescing && !ChainHasLogical(e.left)
    && IsOpenBinary(e.right) && e.right.op == BitwiseOr && ChainHasLogical(e.right)
  }

  lemma {:induction false} LogicalInFrontier(e: Expr)
    ensures ChainHasLogical(e) <==> Rator(LogicalOr) in Frontier(e) || Rator(LogicalAnd) in Frontier(e)
    decreases e
  {
    if IsOpenBinary(e) {
      LogicalInFrontier(e.left);
      LogicalInFrontier(e.right);
    }
  }

  lemma {:induction false} NoLogicalIsAllowed(e: Expr)
    requires !ChainHasLogical(e)
    ensures NullishAllowed(e)
    decreases e
  {
    if IsOpenBinary(e) {
      NoLogicalIsAllowed(e.left);
      NoLogicalIsAllowed(e.right);
    }
  }

  lemma {:induction false} NoNullishIsAllowed(e: Expr)
    requires Rator(NullishCoalescing) !in Frontier(e)
    ensures NullishAllowed(e)
    decreases e
  {
    if IsOpenBinary(e) {
      NoNullishIsAllowed(e.left);
      NoNullishIsAllowed(e.right);
    }
  }

  lemma TighterHasNoNullish(e: Expr)
    requires RespectsTable(Code, e) && (IsOpenBinary(e) ==> e.op != NullishCoalescing)
    ensures Rator(NullishCoalescing) !in Frontier(e)
  {
    forall k | 0 <= k < |Frontier(e)| ensures Frontier(e)[k] != Rator(NullishCoalescing) {
      if Frontier(e)[k].Rator? {
        RootBindsLeast(Code, e, 2, k);
      }
    }
  }

  /** A chain with `||` or `&&` has its root among `??`, `||`, `&&` and `|`. */
  lemma LogicalRoot(e: Expr)
    requires RespectsTable(Code, e) && ChainHasLogical(e)
    ensures e.op == NullishCoalescing || IsLogicalOrAnd(e.op) || e.op == BitwiseOr
  {
    LogicalInFrontier(e);
    var k :| 0 <= k < |Frontier(e)| && (Frontier(e)[k] == Rator(LogicalOr) || Frontier(e)[k] == Rator(LogicalAnd));
    RootBindsLeast(Code, e, Precedence(Code, e.op), k);
  }

  /** Nothing looser than `&&` in the items. */
  predicate NoneLooser(g: seq<Item>) {
    forall k :: 0 <= k < |g| ==> g[k] != Rator(NullishCoalescing) && g[k] != Rator(LogicalOr)
  }

  lemma LeakFromParts(fl: seq<Item>, gl: seq<Item>, gr: seq<Item>, m: nat)
    requires forall k :: 0 <= k < |fl| ==> !IsLogical(fl[k])
    requires NoneLooser(gl) && NoneLooser(gr) && Rator(LogicalAnd) !in gr
    requires m < |gl| && gl[m] == Rator(LogicalAnd)
    ensures LeakAt(fl + [Rator(NullishCoalescing)] + (gl + [Rator(BitwiseOr)] + gr), |fl|, |fl| + 1 + m,
                   |fl| + 1 + |gl|)
  {
    var g := gl + [Rator(BitwiseOr)] + gr;
    assert NoneLooser(g);
    assert forall k :: |gl| < k < |g| ==> g[k] == gr[k - |gl| - 1];
    LeakFromRight(fl, g, m, |gl|);
  }

  lemma LeakFromRight(fl: seq<Item>, g: seq<Item>, m: nat, b: nat)
    requires forall k :: 0 <= k < |fl| ==> !IsLogical(fl[k])
    requires NoneLooser(g) && m < b < |g| && g[m] == Rator(LogicalAnd) && g[b] == Rator(BitwiseOr)
    requires forall k :: b < k < |g| ==> g[k] != Rator(LogicalAnd)
    ensures LeakAt(fl + [Rator(NullishCoalescing)] + g, |fl|, |fl| + 1 + m, |fl| + 1 + b)
  {
    var f, n := fl + [Rator(NullishCoalescing)] + g, |fl|;
    forall k | n < k < |f|
      ensures f[k] != Rator(NullishCoalescing) && f[k] != Rator(LogicalOr)
      ensures k > n + 1 + b ==> f[k] != Rator(LogicalAnd)
    {
      assert f[k] == g[k - n - 1];
    }
  }

  lemma LeakShowsInItems(e: Expr)
    requires RespectsTable(Code, e) && Leaks(e)
    ensures LeakingItems(Frontier(e))
  {
    var r := e.right;
    LogicalInFrontier(e.left);
    LogicalInFrontier(r);
    UnderBitwiseOr(r);
    var gl, gr := Frontier(r.left), Frontier(r.right);
    assert Frontier(r) == gl + [Rator(BitwiseOr)] + gr;
    assert Rator(LogicalAnd) in gl;
    var m :| 0 <= m < |gl| && gl[m] == Rator(LogicalAnd);
    LeakFromParts(Frontier(e.left), gl, gr, m);
  }

  /** What a tree under a `|` holds: nothing looser than `&&`, and `&&` only to the left of the root. */
  lemma UnderBitwiseOr(e: Expr)
    requires RespectsTable(Code, e) && IsOpenBinary(e) && e.op == BitwiseOr
    ensures NoneLooser(Frontier(e)) && NoneLooser(Frontier(e.left)) && NoneLooser(Frontier(e.right))
    ensures Rator(LogicalAnd) !in Frontier(e.right)
  {
    NoneLooserThan(e);
    NoneLooserThan(e.left);
    NoneLooserThan(e.right);
    var g := Frontier(e.right);
    forall k | 0 <= k < |g| ensures g[k] != Rator(LogicalAnd) {
      if g[k].Rator? {
        RootBindsLeast(Code, e.right, 4, k);
      }
    }
  }

  lemma NoneLooserThan(e: Expr)
    requires RespectsTable(Code, e) && (IsOpenBinary(e) ==> Precedence(Code, e.op) >= 3)
    ensures NoneLooser(Frontier(e))
  {
    var g := Frontier(e);
    forall k | 0 <= k < |g| ensures g[k] != Rator(NullishCoalescing) && g[k] != Rator(LogicalOr) {
      if g[k].Rator? {
        RootBindsLeast(Code, e, 3, k);
      }
    }
  }

  lemma LeakRoot(e: Expr, n: nat, m: nat, b: nat)
    requires RespectsTable(Code, e) && LeakAt(Frontier(e), n, m, b)
    ensures IsOpenBinary(e) && e.op == NullishCoalescing && n == |Frontier(e.left)|
  {
    var f := Frontier(e);
    FrontierParts(e);
    var r := |Frontier(e.left)|;
    RootBindsLeast(Code, e, Precedence(Code, e.op), n);
    assert f[r] == Rator(e.op);
    if r < n {
      RightOfRoot(Code, e, n);
    }
  }

  lemma LeakToParts(fl: seq<Item>, g: seq<Item>, m: nat, b: nat)
    requires LeakAt(fl + [Rator(NullishCoalescing)] + g, |fl|, m, b)
    ensures forall k :: 0 <= k < |fl| ==> !IsLogical(fl[k])
    ensures var n := |fl| + 1;
      && n <= m < b < n + |g| && NoneLooser(g)
      && g[m - n] == Rator(LogicalAnd) && g[b - n] == Rator(BitwiseOr)
      && forall k :: b - n < k < |g| ==> g[k] != Rator(LogicalAnd)
  {
    var f, n := fl + [Rator(NullishCoalescing)] + g, |fl| + 1;
    assert forall k :: 0 <= k < |fl| ==> fl[k] == f[k];
    assert forall k :: 0 <= k < |g| ==> g[k] == f[n + k];
  }

  /** A chain of `&&` and `|` whose last `&&` comes before a `|` has a `|` at the root. */
  lemma OrAtRoot(e: Expr, m: nat, b: nat)
    requires RespectsTable(Code, e) && NoneLooser(Frontier(e)) && m < b < |Frontier(e)|
    requires Frontier(e)[m] == Rator(LogicalAnd) && Frontier(e)[b] == Rator(BitwiseOr)
    requires forall k :: b < k < |Frontier(e)| ==> Frontier(e)[k] != Rator(LogicalAnd)
    ensures IsOpenBinary(e) && e.op == BitwiseOr && ChainHasLogical(e)
  {
    var g := Frontier(e);
    LogicalInFrontier(e);
    LogicalRoot(e);
    FrontierParts(e);
    var q := |Frontier(e.left)|;
    assert g[q] == Rator(e.op);
    if e.op == LogicalAnd && q < b {
      RightOfRoot(Code, e, b);
    }
  }

  lemma LeakShowsInTree(e: Expr, n: nat, m: nat, b: nat)
    requires RespectsTable(Code, e) && LeakAt(Frontier(e), n, m, b)
    ensures Leaks(e)
  {
    LeakRoot(e, n, m, b);
    LeakToParts(Frontier(e.left), Frontier(e.right), m, b);
    LogicalInFrontier(e.left);
    OrAtRoot(e.right, m - n - 1, b - n - 1);
  }

  lemma NullishInTree(e: Expr)
    requires RespectsTable(Code, e)
    ensures NullishAllowed(e) <==> !Mixes(Frontier(e)) || Leaks(e)
  {
    if !(IsOpenBinary(e) && e.op == NullishCoalescing) {
      TighterHasNoNullish(e);
      NoNullishIsAllowed(e);
    } else {
      TighterHasNoNullish(e.right);
      NoNullishIsAllowed(e.right);
      LogicalInFrontier(e);
      if !ChainHasLogical(e.left) {
        NoLogicalIsAllowed(e.left);
        if ChainHasLogical(e.right) {
          LogicalRoot(e.right);
        }
      }
    }
  }

  /** The code's check is the rule of ECMA-262 except on the leaking chains, which it accepts. */
  lemma NullishCheckIsExact(e: Expr)
    requires RespectsTable(Code, e)
    ensures NullishAllowed(e) <==> !Mixes(Frontier(e)) || LeakingItems(Frontier(e))
  {
    NullishInTree(e);
    if Leaks(e) {
      LeakShowsInItems(e);
    }
    if LeakingItems(Frontier(e)) {
      var n, m, b :| LeakAt(Frontier(e), n, m, b);
      LeakShowsInTree(e, n, m, b);
    }
  }

  // ----- the operand of `**`

  /** An open unary expression right before a `**`. */
  predicate PowerAt(f: seq<Item>, k: nat) {
    k + 1 < |f| && f[k].Rand? && IsOpenUnary(f[k].expr) && f[k + 1] == Rator(Exponentiation)
  }

  ghost predicate PowersAllowed(f: seq<Item>) {
    forall k: nat :: !PowerAt(f, k)
  }

  /** The `**` rule of `EarlyErrorFree`, along one chain only. */
  predicate PowAllowed(e: Expr) {
    IsOpenBinary(e) ==>
      PowAllowed(e.left) && PowAllowed(e.right) && !(e.op == Exponentiation && IsOpenUnary(e.left))
  }

  lemma PowersOfParts(f: seq<Item>, op: BinOp, g: seq<Item>)
    requires |f| >= 1
    ensures PowersAllowed(f + [Rator(op)] + g) <==>
      && PowersAllowed(f) && PowersAllowed(g)
      && !(op == Exponentiation && f[|f| - 1].Rand? && IsOpenUnary(f[|f| - 1].expr))
  {
    var h, n := f + [Rator(op)] + g, |f|;
    assert forall k :: 0 <= k < n ==> h[k] == f[k];
    assert forall k :: 0 <= k < |g| ==> h[n + 1 + k] == g[k];
    if PowersAllowed(h) {
      forall k: nat ensures !PowerAt(f, k) && !PowerAt(g, k) {
        assert !PowerAt(h, k) && !PowerAt(h, n + 1 + k);
      }
      assert !PowerAt(h, n - 1);
    } else {
      var k: nat :| PowerAt(h, k);
      assert k + 1 < n ==> PowerAt(f, k);
      if k > n {
        assert PowerAt(g, k - n - 1);
      }
    }
  }

  lemma {:induction false} PowersInTree(e: Expr)
    requires RespectsTable(Code, e)
    ensures PowAllowed(e) <==> PowersAllowed(Frontier(e))
    decreases e
  {
    if IsOpenBinary(e) {
      PowersInTree(e.left);
      PowersInTree(e.right);
      PowersOfParts(Frontier(e.left), e.op, Frontier(e.right));
      if e.op == Exponentiation {
        assert Frontier(e.left) == [Rand(e.left)];
      }
    }
  }

  // ----- what is accepted

  /** Every operand is free of early errors in itself. */
  ghost predicate OperandsFree(f: seq<Item>) {
    forall k :: 0 <= k < |f| && f[k].Rand? ==> EarlyErrorFree(f[k].expr)
  }

  /** The condition on the operators of a chain and on the operands of its `**`. */
  ghost predicate OperatorsAllowed(f: seq<Item>) {
    PowersAllowed(f) && (!Mixes(f) || LeakingItems(f))
  }

  lemma {:induction false} ErrorsByRule(e: Expr)
    ensures EarlyErrorFree(e) <==> NullishAllowed(e) && PowAllowed(e) && OperandsFree(Frontier(e))
    decreases e
  {
    var f := Frontier(e);
    if IsOpenBinary(e) {
      ErrorsByRule(e.left);
      ErrorsByRule(e.right);
      FreeParts(Frontier(e.left), e.op, Frontier(e.right));
    } else {
      assert f[0] == Rand(e);
    }
  }

  lemma FreeParts(f: seq<Item>, op: BinOp, g: seq<Item>)
    ensures OperandsFree(f + [Rator(op)] + g) <==> OperandsFree(f) && OperandsFree(g)
  {
    var h, n := f + [Rator(op)] + g, |f|;
    assert forall k :: 0 <= k < n ==> h[k] == f[k];
    assert forall k :: 0 <= k < |g| ==> h[n + 1 + k] == g[k];
  }

  lemma ErrorsOfItems(e: Expr)
    requires RespectsTable(Code, e)
    ensures EarlyErrorFree(e) <==> OperatorsAllowed(Frontier(e)) && OperandsFree(Frontier(e))
  {
    ErrorsByRule(e);
    NullishCheckIsExact(e);
    PowersInTree(e);
  }

  lemma AcceptedByItems(ts: seq<Token>, i: nat)
    ensures var q := FlatChain(Code, ts, i);
      R.ParseExpression(ts, i).Parsed? <==>
        && q.Flat? && OperatorsAllowed(q.items) && OperandsFree(q.items)
        && (q.next < |ts| && ts[q.next] == Question ==> BranchesAccepted(ts, q.next))
  {
    ParsersAgree(ts, i);
    ChainIsFlat(Code, ts, i);
    var t, q := Chain(Code, ts, i, 0), FlatChain(Code, ts, i);
    if t.Parsed? {
      assert [] + q.items == q.items;
      ErrorsOfItems(t.expr);
      if t.next < |ts| && ts[t.next] == Question {
        BranchesChecked(ts, t.expr, t.next);
      }
    }
  }

  /** Two accepted expressions around a colon. */
  predicate BranchesAccepted(ts: seq<Token>, n: nat) {
    var c := R.ParseExpression(ts, n + 1);
    c.Parsed? && c.next < |ts| && ts[c.next] == Colon && R.ParseExpression(ts, c.next + 1).Parsed?
  }

  lemma BranchesDecide(ts: seq<Token>, test: Expr, n: nat)
    requires n < |ts| && ts[n] == Question
    ensures R.ParseAssignment(ts, test, n).Parsed? <==> BranchesAccepted(ts, n)
  {
    CodeTernaryParts(ts, test, n);
  }

  lemma ErrorInTest(ts: seq<Token>, test: Expr, n: nat)
    requires n < |ts| && ts[n] == Question && !EarlyErrorFree(test)
    ensures !Checked(Ternary(Code, ts, test, n)).Parsed?
  {
    TernaryParts(Code, ts, test, n);
  }

  lemma BranchesChecked(ts: seq<Token>, test: Expr, n: nat)
    requires n < |ts| && ts[n] == Question
    ensures Checked(Ternary(Code, ts, test, n)).Parsed? <==> EarlyErrorFree(test) && BranchesAccepted(ts, n)
  {
    if EarlyErrorFree(test) {
      ParsersAgree(ts, n + 1);
      var c := Expression(Code, ts, n + 1);
      if c.Parsed? && c.next < |ts| {
        ParsersAgree(ts, c.next + 1);
      }
      TernaryCase(ts, test, n);
      BranchesDecide(ts, test, n);
    } else {
      ErrorInTest(ts, test, n);
    }
  }

  // ----- acceptance on the tokens, at every nesting

  /** What the rules look at in an operand: whether it is an open unary expression. A group is none. */
  function ItemOf(t: Token): Item
    requires t.Operand? || t.Operator? || t == LeftParen
  {
    match t
    case Operand(id, unary) => Rand(Leaf(false, id, unary))
    case Operator(op) => Rator(op)
    case LeftParen => Rand(Leaf(true, 0, false))
  }

  /** An operand is a leaf, or an accepted expression in parentheses; the position behind it. */
  function OperandAt(ts: seq<Token>, k: nat): (next: Option<nat>)
    ensures next.Some? ==> k < next.value <= |ts| && (ts[k].Operand? || ts[k] == LeftParen)
  {
    if k >= |ts| then None
    else if ts[k].Operand? then Some(k + 1)
    else if ts[k] == LeftParen then
      var e := R.ParseExpression(ts, k + 1);
      if e.Parsed? && e.next < |ts| && ts[e.next] == RightParen then Some(e.next + 1) else None
    else None
  }

  /** The operators of the chain at `i` and what stands between them, read from the tokens. */
  function Row(ts: seq<Token>, i: nat): (p: FlatParse)
    ensures p.Flat? ==> i < p.next <= |ts| && |p.items| >= 1
    decreases if i < |ts| then |ts| - i else 0
  {
    match OperandAt(ts, i)
    case None => FlatError
    case Some(n) =>
      if !(n < |ts| && ts[n].Operator?) then Flat([ItemOf(ts[i])], n)
      else match Row(ts, n + 1)
        case FlatError => FlatError
        case Flat(items, m) => Flat([ItemOf(ts[i]), ItemOf(ts[n])] + items, m)
  }

  /** The rules cannot tell the two rows apart. */
  ghost predicate Alike(f: seq<Item>, g: seq<Item>) {
    |f| == |g| && forall k :: 0 <= k < |f| ==> AlikeItems(f[k], g[k])
  }

  predicate AlikeItems(x: Item, y: Item) {
    && (x.Rator? || y.Rator? ==> x == y)
    && (x.Rand? && y.Rand? ==> (IsOpenUnary(x.expr) <==> IsOpenUnary(y.expr)))
  }

  lemma AlikeAllowed(f: seq<Item>, g: seq<Item>)
    requires Alike(f, g) && OperatorsAllowed(f)
    ensures OperatorsAllowed(g)
  {
    forall k: nat ensures !PowerAt(g, k) {
      assert k + 1 < |g| ==> AlikeItems(f[k], g[k]) && AlikeItems(f[k + 1], g[k + 1]);
      assert !PowerAt(f, k);
    }
    if Mixes(g) {
      AlikeMixes(f, g);
    }
    if n, m, b :| LeakAt(f, n, m, b) {
      AlikeLeaks(f, g, n, m, b);
    }
  }

  lemma AlikeMixes(f: seq<Item>, g: seq<Item>)
    requires Alike(f, g) && Mixes(g)
    ensures Mixes(f)
  {
    forall x: Item | x in g && x.Rator? ensures x in f {
      var k :| 0 <= k < |g| && g[k] == x;
      assert AlikeItems(f[k], g[k]);
    }
  }

  lemma AlikeLeaks(f: seq<Item>, g: seq<Item>, n: nat, m: nat, b: nat)
    requires Alike(f, g) && LeakAt(f, n, m, b)
    ensures LeakAt(g, n, m, b)
  {
    assert AlikeItems(f[n], g[n]) && AlikeItems(f[m], g[m]) && AlikeItems(f[b], g[b]);
    forall k | 0 <= k < |g| && g[k].Rator? ensures f[k] == g[k] {
      assert AlikeItems(f[k], g[k]);
    }
  }

  /** An operand is accepted exactly when the textbook operand there is free of early errors. */
  lemma OperandAtIsChecked(ts: seq<Token>, k: nat)
    ensures var p := Primary(Code, ts, k);
      && (OperandAt(ts, k).Some? <==> p.Parsed? && EarlyErrorFree(p.expr))
      && (OperandAt(ts, k).Some? ==> OperandAt(ts, k).value == p.next && AlikeItems(ItemOf(ts[k]), Rand(p.expr)))
  {
    PrimariesAgree(ts, k);
    assert R.ParsePrimary(ts, k).Parsed? <==> OperandAt(ts, k).Some?;
  }

  /** The row of the tokens is that of the textbook chain whose operands are free of early errors. */
  lemma {:induction false} RowIsFlat(ts: seq<Token>, i: nat)
    ensures var p, q := Row(ts, i), FlatChain(Code, ts, i);
      && (p.Flat? <==> q.Flat? && OperandsFree(q.items))
      && (p.Flat? ==> p.next == q.next && Alike(p.items, q.items))
    decreases if i < |ts| then |ts| - i else 0
  {
    OperandAtIsChecked(ts, i);
    var p := Primary(Code, ts, i);
    if p.Parsed? {
      if p.next < |ts| && ts[p.next].Operator? {
        RowIsFlat(ts, p.next + 1);
        StepItems(Code, ts, i);
        RowStep(ts, i, p);
      } else {
        LastItem(Code, ts, i);
        assert [Rand(p.expr)][0] == Rand(p.expr);
      }
    }
  }

  lemma RowStep(ts: seq<Token>, i: nat, p: Parse)
    requires p == Primary(Code, ts, i) && p.Parsed? && p.next < |ts| && ts[p.next].Operator?
    requires OperandAt(ts, i).Some? <==> EarlyErrorFree(p.expr)
    requires OperandAt(ts, i).Some? ==> OperandAt(ts, i).value == p.next && AlikeItems(ItemOf(ts[i]), Rand(p.expr))
    requires var row, flat := Row(ts, p.next + 1), FlatChain(Code, ts, p.next + 1);
      && (row.Flat? <==> flat.Flat? && OperandsFree(flat.items))
      && (row.Flat? ==> row.next == flat.next && Alike(row.items, flat.items))
    ensures var row, flat := Row(ts, i), FlatChain(Code, ts, p.next + 1);
      var items := [Rand(p.expr), Rator(ts[p.next].op)] + (if flat.Flat? then flat.items else []);
      && (row.Flat? <==> flat.Flat? && OperandsFree(items))
      && (row.Flat? ==> row.next == flat.next && Alike(row.items, items))
  {
    var row, flat := Row(ts, p.next + 1), FlatChain(Code, ts, p.next + 1);
    if flat.Flat? {
      FreeStep(p.expr, ts[p.next].op, flat.items);
      if row.Flat? && OperandAt(ts, i).Some? {
        AlikeStep(ItemOf(ts[i]), Rand(p.expr), Rator(ts[p.next].op), row.items, flat.items);
      }
    }
  }

  lemma AlikeStep(x: Item, y: Item, op: Item, f: seq<Item>, g: seq<Item>)
    requires AlikeItems(x, y) && op.Rator? && Alike(f, g)
    ensures Alike([x, op] + f, [y, op] + g)
  {
    var a, b := [x, op] + f, [y, op] + g;
    forall k | 0 <= k < |a| ensures AlikeItems(a[k], b[k]) {
      if k >= 2 {
        assert a[k] == f[k - 2] && b[k] == g[k - 2];
      }
    }
  }

  lemma FreeStep(e: Expr, op: BinOp, f: seq<Item>)
    ensures OperandsFree([Rand(e), Rator(op)] + f) <==> EarlyErrorFree(e) && OperandsFree(f)
  {
    var g := [Rand(e), Rator(op)] + f;
    assert g[0] == Rand(e);
    assert forall k :: 0 <= k < |f| ==> g[k + 2] == f[k];
  }

  /** Main theorem: a chain is accepted exactly when its operators are allowed and each expression in parentheses
      among its operands is accepted; with a `? :` behind it, both branches have to be accepted too. */
  lemma AcceptedByTokens(ts: seq<Token>, i: nat)
    ensures var p := Row(ts, i);
      R.ParseExpression(ts, i).Parsed? <==>
        && p.Flat? && OperatorsAllowed(p.items)
        && (p.next < |ts| && ts[p.next] == Question ==> BranchesAccepted(ts, p.next))
  {
    AcceptedByItems(ts, i);
    RowIsFlat(ts, i);
    var p, q := Row(ts, i), FlatChain(Code, ts, i);
    if p.Flat? {
      AlikeBack(p.items, q.items);
      if OperatorsAllowed(p.items) {
        AlikeAllowed(p.items, q.items);
      }
      if OperatorsAllowed(q.items) {
        AlikeAllowed(q.items, p.items);
      }
    }
  }

  lemma AlikeBack(f: seq<Item>, g: seq<Item>)
    requires Alike(f, g)
    ensures Alike(g, f)
  {
    forall k | 0 <= k < |g| ensures AlikeItems(g[k], f[k]) {
      assert AlikeItems(f[k], g[k]);
    }
  }

  // ----- chains of leaves, on the tokens

  /** Leaves and operators in turn from `i` to `n`, and nothing that goes on behind. */
  predicate IsLeafChain(ts: seq<Token>, i: nat, n: nat) {
    && i < n <= |ts| && (n - i) % 2 == 1
    && (forall k :: i <= k < n ==> if (k - i) % 2 == 0 then ts[k].Operand? else ts[k].Operator?)
    && (n < |ts| ==> !ts[n].Operator? && ts[n] != Question)
  }

  /** The tokens of a chain of leaves, one item each. */
  function LeafItems(ts: seq<Token>, i: nat, n: nat): (f: seq<Item>)
    requires IsLeafChain(ts, i, n)
  {
    seq(n - i, k requires 0 <= k < n - i => ItemOf(ts[i + k]))
  }

  lemma LeafStep(ts: seq<Token>, i: nat, n: nat)
    requires IsLeafChain(ts, i, n) && IsLeafChain(ts, i + 2, n)
    ensures LeafItems(ts, i, n) == [ItemOf(ts[i]), ItemOf(ts[i + 1])] + LeafItems(ts, i + 2, n)
  {
    var f, g := LeafItems(ts, i, n), [ItemOf(ts[i]), ItemOf(ts[i + 1])] + LeafItems(ts, i + 2, n);
    forall k | 0 <= k < |f| ensures f[k] == g[k] {
      assert f[k] == ItemOf(ts[i + k]);
    }
  }

  lemma {:induction false} LeavesAreFlat(ts: seq<Token>, i: nat, n: nat)
    requires IsLeafChain(ts, i, n)
    ensures FlatChain(Code, ts, i) == Flat(LeafItems(ts, i, n), n)
    decreases n - i
  {
    assert ts[i].Operand?;
    var p := Primary(Code, ts, i);
    if n == i + 1 {
      LastItem(Code, ts, i);
      assert p.expr == ItemOf(ts[i]).expr;
      assert LeafItems(ts, i, n) == [ItemOf(ts[i])];
    } else {
      assert ts[i + 1].Operator?;
      LeavesAreFlat(ts, i + 2, n);
      StepItems(Code, ts, i);
      LeafStep(ts, i, n);
    }
  }

  /** A chain of leaves is accepted exactly when no `**` follows an open unary expression and its operators do not mix,
      or mix in the leaking way. */
  lemma LeafChainAccepted(ts: seq<Token>, i: nat, n: nat)
    requires IsLeafChain(ts, i, n)
    ensures R.ParseExpression(ts, i).Parsed? <==> OperatorsAllowed(LeafItems(ts, i, n))
  {
    AcceptedByItems(ts, i);
    LeavesAreFlat(ts, i, n);
    var f := LeafItems(ts, i, n);
    forall k | 0 <= k < |f| && f[k].Rand? ensures EarlyErrorFree(f[k].expr) {
      assert f[k] == ItemOf(ts[i + k]);
    }
  }

  /** A leaking chain: `a ?? b && c | d`, which ECMA-262 refuses. */
  lemma LeakIsAccepted()
    ensures var ts := [Operand(0, false), Operator(NullishCoalescing), Operand(1, false), Operator(LogicalAnd),
                       Operand(2, false), Operator(BitwiseOr), Operand(3, false)];
      R.ParseExpression(ts, 0).Parsed? && Mixes(Frontier(R.ParseExpression(ts, 0).expr))
  {
    var ts := [Operand(0, false), Operator(NullishCoalescing), Operand(1, false), Operator(LogicalAnd),
               Operand(2, false), Operator(BitwiseOr), Operand(3, false)];
    var a, b, c, d := Leaf(false, 0, false), Leaf(false, 1, false), Leaf(false, 2, false), Leaf(false, 3, false);
    assert R.ParseExpression(ts, 6) == Parsed(d, 7);
    var cd := Binary(false, BitwiseOr, c, d);
    assert R.ParseBinary(ts, c, 5) == Parsed(cd, 7);
    assert R.ParseExpression(ts, 4) == Parsed(cd, 7);
    var bcd := Binary(false, BitwiseOr, Binary(false, LogicalAnd, b, c), d);
    assert R.Splice(b, LogicalAnd, cd) == bcd by {
      assert R.Splice(b, LogicalAnd, c) == Binary(false, LogicalAnd, b, c);
    }
    assert R.ParseBinary(ts, b, 3) == Parsed(bcd, 7);
    assert R.ParseExpression(ts, 2) == Parsed(bcd, 7);
    var e := Binary(false, NullishCoalescing, a, bcd);
    assert R.ParseBinary(ts, a, 1) == Parsed(e, 7);
    assert R.ParseExpression(ts, 0) == Parsed(e, 7);
    var f := Frontier(e);
    assert f[1] == Rator(NullishCoalescing);
    LogicalInFrontier(e);
    assert ChainHasLogical(e.right.left);
    assert ChainHasLogical(e);
  }
}
