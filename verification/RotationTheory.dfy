/** Recursive descent with rotation builds what climbing does. */
module RotationTheory {
  import opened ExprSyntax
  import opened PrecedenceClimbing
  import opened ClimbingTheory
  import R = RotationParser

  /** Splicing below a tighter tree only puts the new node on top of it. */
  lemma SpliceOnTop(e0: Expr, op: BinOp, e: Expr)
    requires BindsAtLeast(Code, e, RightLevel(Code, op))
    ensures R.Splice(e0, op, e) == Binary(false, op, e0, e)
  {
  }

  function SpliceInto(e0: Expr, op: BinOp, p: Parse): Parse {
    if p.Parsed? then Parsed(R.Splice(e0, op, p.expr), p.next) else p
  }

  /** Splicing commutes with the climbing loop as soon as the next operator is looser than the spliced one. */
  lemma {:induction false} SpliceThroughClimb(ts: seq<Token>, e0: Expr, op: BinOp, lhs: Expr, i: nat)
    requires i <= |ts|
    requires !Continues(Code, ts, i, RightLevel(Code, op))
    ensures Climb(Code, ts, R.Splice(e0, op, lhs), i, 0) == SpliceInto(e0, op, Climb(Code, ts, lhs, i, 0))
    decreases |ts| - i
  {
    if Continues(Code, ts, i, 0) {
      var next := ts[i].op;
      var r := Chain(Code, ts, i + 1, RightLevel(Code, next));
      if r.Parsed? {
        ChainRespectsTable(Code, ts, i + 1, RightLevel(Code, next));
        assert R.Splice(e0, op, Binary(false, next, lhs, r.expr)) == Binary(false, next, R.Splice(e0, op, lhs), r.expr);
        SpliceThroughClimb(ts, e0, op, Binary(false, next, lhs, r.expr), r.next);
      }
    }
  }

  /** The heart of the matter: one rotation undoes what parsing the right-hand side greedily did wrong. */
  lemma RotationIsClimbing(ts: seq<Token>, e0: Expr, i: nat)
    requires i < |ts| && ts[i].Operator?
    ensures Climb(Code, ts, e0, i, 0) == SpliceInto(e0, ts[i].op, Chain(Code, ts, i + 1, 0))
  {
    var op := ts[i].op;
    var level := RightLevel(Code, op);
    var p := Primary(Code, ts, i + 1);
    if p.Parsed? {
      ClimbInTwoStages(Code, ts, p.expr, p.next, level, 0);
      var r := Chain(Code, ts, i + 1, level);
      if r.Parsed? {
        ChainRespectsTable(Code, ts, i + 1, level);
        SpliceOnTop(e0, op, r.expr);
        SpliceThroughClimb(ts, e0, op, r.expr, r.next);
      }
    }
  }

  /** Splicing adds its own operator to the chain and nothing else. */
  lemma {:induction false} SpliceKeepsLogical(e0: Expr, op: BinOp, e: Expr)
    requires IsOperand(e0)
    ensures ChainHasLogical(R.Splice(e0, op, e)) <==> IsLogicalOrAnd(op) || ChainHasLogical(e)
    decreases e
  {
    if R.ShouldBeAmended(e, op) {
      SpliceKeepsLogical(e0, op, e.left);
    }
  }

  /** The condition that the two checks put on one operator, left to right. */
  predicate OperatorAllowed(e0: Expr, op: BinOp, e: Expr) {
    !(op == Exponentiation && IsOpenUnary(e0)) && !R.MixesNullish(op, e)
  }

  /** What a rotation does to the node it passes. */
  lemma NodeAfterSplice(e0: Expr, op: BinOp, e: Expr)
    requires IsOperand(e0) && R.ShouldBeAmended(e, op)
    ensures NodeAllowed(e.op, R.Splice(e0, op, e.left), e.right) <==>
      NodeAllowed(e.op, e.left, e.right) && !(e.op == NullishCoalescing && IsLogicalOrAnd(op))
  {
    SpliceKeepsLogical(e0, op, e.left);
    assert e.op != Exponentiation;
  }

  /** The check made at the root of the right-hand side covers the whole spine. */
  lemma ChecksAlongSpine(e0: Expr, op: BinOp, e: Expr)
    requires R.ShouldBeAmended(e, op) && RespectsTable(Code, e)
    requires NodeAllowed(e.op, e.left, e.right) && !(e.op == NullishCoalescing && IsLogicalOrAnd(op))
    ensures OperatorAllowed(e0, op, e) <==> OperatorAllowed(e0, op, e.left)
  {
    assert !R.MixesNullish(op, e);
    if e.op == NullishCoalescing {
      assert !ChainHasLogical(e.left);
    } else {
      assert op != NullishCoalescing;
    }
  }

  /** The checks made while rotating are exactly the early errors of the rotated tree. */
  lemma {:induction false} SpliceEarlyErrors(e0: Expr, op: BinOp, e: Expr)
    requires IsOperand(e0)
    requires RespectsTable(Code, e) && !IsOpenConditional(e)
    ensures EarlyErrorFree(R.Splice(e0, op, e)) <==>
      EarlyErrorFree(e0) && EarlyErrorFree(e) && OperatorAllowed(e0, op, e)
    decreases e
  {
    if R.ShouldBeAmended(e, op) {
      SpliceEarlyErrors(e0, op, e.left);
      NodeAfterSplice(e0, op, e);
      assert R.Splice(e0, op, e) == e.(left := R.Splice(e0, op, e.left));
      if NodeAllowed(e.op, e.left, e.right) && !(e.op == NullishCoalescing && IsLogicalOrAnd(op)) {
        ChecksAlongSpine(e0, op, e);
      }
    } else {
      assert R.Splice(e0, op, e) == Binary(false, op, e0, e);
      assert !ChainHasLogical(e0);
    }
  }

  /** What the code makes of a textbook parse: it refuses the trees with early errors. */
  function Checked(p: Parse): Parse {
    if p.Parsed? && EarlyErrorFree(p.expr) then p else SyntaxError
  }

  /** One binary operator: the code on an already correct right-hand side against the textbook on the whole chain. */
  lemma OperatorCase(ts: seq<Token>, e0: Expr, n: nat)
    requires n < |ts| && ts[n].Operator? && IsOperand(e0)
    requires R.ParseExpression(ts, n + 1) == Checked(Expression(Code, ts, n + 1))
    ensures EarlyErrorFree(e0) ==> R.ParseAssignment(ts, e0, n) == Checked(ClimbWhole(ts, e0, n))
    ensures ClimbWhole(ts, e0, n).Parsed? && EarlyErrorFree(ClimbWhole(ts, e0, n).expr) ==> EarlyErrorFree(e0)
  {
    RotationIsClimbing(ts, e0, n);
    var c := Chain(Code, ts, n + 1, 0);
    if c.Parsed? {
      ChainRespectsTable(Code, ts, n + 1, 0);
      SpliceEarlyErrors(e0, ts[n].op, c.expr);
      ExpressionIsMaximal(Code, ts, n + 1);
    }
  }

  /** The textbook parse of an expression whose first operand is already read. */
  function ClimbWhole(ts: seq<Token>, e0: Expr, n: nat): Parse
    requires n <= |ts|
  {
    match Climb(Code, ts, e0, n, 0)
    case SyntaxError => SyntaxError
    case Parsed(t, m) => Ternary(Code, ts, t, m)
  }

  lemma {:induction false} PrimariesAgree(ts: seq<Token>, i: nat)
    ensures R.ParsePrimary(ts, i) == Checked(Primary(Code, ts, i))
    decreases if i < |ts| then |ts| - i else 0, 0
  {
    if i < |ts| && ts[i] == LeftParen {
      ParsersAgree(ts, i + 1);
    }
  }

  /** A conditional from its test and its two branches. */
  function TernaryOf(test: Expr, c: Parse, a: Parse): Parse {
    if c.Parsed? && a.Parsed? then Parsed(Conditional(false, test, c.expr, a.expr), a.next) else SyntaxError
  }

  predicate BeforeColon(ts: seq<Token>, c: Parse) {
    c.Parsed? && c.next < |ts| && ts[c.next] == Colon
  }

  lemma TernaryParts(table: Table, ts: seq<Token>, test: Expr, n: nat)
    requires n < |ts| && ts[n] == Question
    ensures var c := Expression(table, ts, n + 1);
      Ternary(table, ts, test, n) ==
        if BeforeColon(ts, c) then TernaryOf(test, c, Expression(table, ts, c.next + 1)) else SyntaxError
  {
  }

  lemma CodeTernaryParts(ts: seq<Token>, test: Expr, n: nat)
    requires n < |ts| && ts[n] == Question
    ensures var c := R.ParseExpression(ts, n + 1);
      R.ParseAssignment(ts, test, n) ==
        if BeforeColon(ts, c) then TernaryOf(test, c, R.ParseExpression(ts, c.next + 1)) else SyntaxError
  {
    assert R.ParseAssignment(ts, test, n) == R.ParseTernary(ts, test, n);
  }

  /** The conditional operator after a single operand. */
  lemma TernaryCase(ts: seq<Token>, e0: Expr, n: nat)
    requires n < |ts| && ts[n] == Question && EarlyErrorFree(e0)
    requires R.ParseExpression(ts, n + 1) == Checked(Expression(Code, ts, n + 1))
    requires var c := Expression(Code, ts, n + 1); c.Parsed? && c.next < |ts| ==>
      R.ParseExpression(ts, c.next + 1) == Checked(Expression(Code, ts, c.next + 1))
    ensures R.ParseAssignment(ts, e0, n) == Checked(Ternary(Code, ts, e0, n))
  {
    TernaryParts(Code, ts, e0, n);
    CodeTernaryParts(ts, e0, n);
  }

  /** Main theorem: on every token sequence the code's parser is the textbook parser followed by the early errors. */
  lemma {:induction false} ParsersAgree(ts: seq<Token>, i: nat)
    ensures R.ParseExpression(ts, i) == Checked(Expression(Code, ts, i))
    decreases if i < |ts| then |ts| - i else 0, 1
  {
    PrimariesAgree(ts, i);
    var p := Primary(Code, ts, i);
    if p.Parsed? {
      var n := p.next;
      assert Expression(Code, ts, i) == ClimbWhole(ts, p.expr, n);
      if n < |ts| && ts[n].Operator? {
        ParsersAgree(ts, n + 1);
        OperatorCase(ts, p.expr, n);
      } else if n < |ts| && ts[n] == Question {
        assert ClimbWhole(ts, p.expr, n) == Ternary(Code, ts, p.expr, n);
        ParsersAgree(ts, n + 1);
        var c := Expression(Code, ts, n + 1);
        if c.Parsed? && c.next < |ts| {
          ParsersAgree(ts, c.next + 1);
        }
        if EarlyErrorFree(p.expr) {
          TernaryCase(ts, p.expr, n);
        }
      }
    }
  }
}
