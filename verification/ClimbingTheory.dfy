/** Precedence climbing is right: its trees respect the table, and are the only ones. */
module ClimbingTheory {
  import opened ExprSyntax
  import opened PrecedenceClimbing

  /** A tree that may stand to the right of an operator whose right level is `min`. */
  predicate BindsAtLeast(table: Table, e: Expr, min: nat) {
    && RespectsTable(table, e)
    && (IsOperand(e) || (IsOpenBinary(e) && Precedence(table, e.op) >= min))
  }

  /** Climbing keeps the table respected, whatever operator comes next. */
  lemma {:induction false} ClimbRespectsTable(table: Table, ts: seq<Token>, lhs: Expr, i: nat, min: nat)
    requires i <= |ts|
    requires BindsAtLeast(table, lhs, min)
    requires IsOpenBinary(lhs) ==> !Continues(table, ts, i, RightLevel(table, lhs.op))
    ensures var p := Climb(table, ts, lhs, i, min); p.Parsed? ==> BindsAtLeast(table, p.expr, min)
    decreases |ts| - i, 0
  {
    if Continues(table, ts, i, min) {
      var op := ts[i].op;
      var level := RightLevel(table, op);
      ChainRespectsTable(table, ts, i + 1, level);
      var r := Chain(table, ts, i + 1, level);
      if r.Parsed? {
        assert !Continues(table, ts, r.next, level);
        ClimbRespectsTable(table, ts, Binary(false, op, lhs, r.expr), r.next, min);
      }
    }
  }

  lemma {:induction false} ChainRespectsTable(table: Table, ts: seq<Token>, i: nat, min: nat)
    ensures var p := Chain(table, ts, i, min);
      p.Parsed? ==> BindsAtLeast(table, p.expr, min) && !Continues(table, ts, p.next, min)
    decreases if i < |ts| then |ts| - i else 0, 1
  {
    var p := Primary(table, ts, i);
    if p.Parsed? {
      ClimbRespectsTable(table, ts, p.expr, p.next, min);
    }
  }

  function ClimbOn(table: Table, ts: seq<Token>, p: Parse, min: nat): Parse
    requires p.Parsed? ==> p.next <= |ts|
  {
    if p.Parsed? then Climb(table, ts, p.expr, p.next, min) else p
  }

  /** Climbing at a low level is climbing at a high level first, then going on. */
  lemma {:induction false} ClimbInTwoStages(table: Table, ts: seq<Token>, lhs: Expr, i: nat, high: nat, low: nat)
    requires i <= |ts| && low <= high
    ensures Climb(table, ts, lhs, i, low) == ClimbOn(table, ts, Climb(table, ts, lhs, i, high), low)
    decreases |ts| - i
  {
    if Continues(table, ts, i, high) {
      var r := Chain(table, ts, i + 1, RightLevel(table, ts[i].op));
      if r.Parsed? {
        ClimbInTwoStages(table, ts, Binary(false, ts[i].op, lhs, r.expr), r.next, high, low);
      }
    }
  }

  /** A whole expression ends before a token that could continue it. */
  lemma {:induction false} ExpressionIsMaximal(table: Table, ts: seq<Token>, i: nat)
    ensures var p := Expression(table, ts, i);
      p.Parsed? && p.next < |ts| ==> !ts[p.next].Operator? && ts[p.next] != Question
    decreases if i < |ts| then |ts| - i else 0
  {
    var t := Chain(table, ts, i, 0);
    if t.Parsed? {
      ChainRespectsTable(table, ts, i, 0);
      if t.next < |ts| && ts[t.next] == Question {
        var c := Expression(table, ts, t.next + 1);
        if c.Parsed? && c.next < |ts| && ts[c.next] == Colon {
          ExpressionIsMaximal(table, ts, c.next + 1);
        }
      }
    }
  }

  /** In a tree that respects the table the root operator binds least of all. */
  lemma {:induction false} RootBindsLeast(table: Table, e: Expr, min: nat, k: nat)
    requires RespectsTable(table, e)
    requires IsOpenBinary(e) ==> Precedence(table, e.op) >= min
    requires k < |Frontier(e)| && Frontier(e)[k].Rator?
    ensures Precedence(table, Frontier(e)[k].op) >= min
    decreases e
  {
    var n := |Frontier(e.left)|;
    if k < n {
      assert Frontier(e)[k] == Frontier(e.left)[k];
      RootBindsLeast(table, e.left, min, k);
    } else if k > n {
      assert Frontier(e)[k] == Frontier(e.right)[k - n - 1];
      RootBindsLeast(table, e.right, min, k - n - 1);
    }
  }

  /** Operators to the left of the root: at least as tight, and tighter when the root is `**`. */
  lemma LeftOfRoot(table: Table, e: Expr, k: nat)
    requires RespectsTable(table, e) && IsOpenBinary(e)
    requires k < |Frontier(e.left)| && Frontier(e)[k].Rator?
    ensures Precedence(table, Frontier(e)[k].op) >= Precedence(table, e.op) + (if e.op == Exponentiation then 1 else 0)
  {
    assert Frontier(e)[k] == Frontier(e.left)[k];
    RootBindsLeast(table, e.left, Precedence(table, e.op) + (if e.op == Exponentiation then 1 else 0), k);
  }

  lemma RightOfRoot(table: Table, e: Expr, k: nat)
    requires RespectsTable(table, e) && IsOpenBinary(e)
    requires |Frontier(e.left)| < k < |Frontier(e)| && Frontier(e)[k].Rator?
    ensures Precedence(table, Frontier(e)[k].op) >= RightLevel(table, e.op)
  {
    var n := |Frontier(e.left)|;
    assert Frontier(e)[k] == Frontier(e.right)[k - n - 1];
    RootBindsLeast(table, e.right, RightLevel(table, e.op), k - n - 1);
  }

  lemma RootsAlign(table: Table, a: Expr, b: Expr)
    requires RespectsTable(table, a) && RespectsTable(table, b)
    requires IsOpenBinary(a) && IsOpenBinary(b) && Frontier(a) == Frontier(b)
    ensures |Frontier(a.left)| >= |Frontier(b.left)|
  {
    var ka, kb := |Frontier(a.left)|, |Frontier(b.left)|;
    assert Frontier(a)[ka] == Rator(a.op);
    assert Frontier(b)[kb] == Rator(b.op);
    if ka < kb {
      LeftOfRoot(table, b, ka);
      RightOfRoot(table, a, kb);
    }
  }

  /** Unique parse: a chain has at most one tree that respects the table. */
  lemma {:induction false} UniqueParse(table: Table, a: Expr, b: Expr)
    requires RespectsTable(table, a) && RespectsTable(table, b)
    requires Frontier(a) == Frontier(b)
    ensures a == b
    decreases a
  {
    if IsOpenBinary(a) && IsOpenBinary(b) {
      RootsAlign(table, a, b);
      RootsAlign(table, b, a);
      var n := |Frontier(a.left)|;
      assert Frontier(a.left) == Frontier(a)[..n] == Frontier(b)[..n] == Frontier(b.left);
      assert Frontier(a.right) == Frontier(a)[n + 1..] == Frontier(b)[n + 1..] == Frontier(b.right);
      assert Frontier(a)[n] == Frontier(b)[n];
      UniqueParse(table, a.left, b.left);
      UniqueParse(table, a.right, b.right);
    } else {
      assert Frontier(a)[0] == Frontier(b)[0];
    }
  }
}
