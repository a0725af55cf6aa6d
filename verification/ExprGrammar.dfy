/** The levels of ECMA-262 expressions, operator by operator. */
module ExprGrammar {
  import opened ExprSyntax
  import opened PrecedenceClimbing
  import opened ClimbingTheory
  import opened RotationTheory
  import opened FlatChains
  import opened NullishRule
  import R = RotationParser

  // ----- the levels that both share

  predicate Exponential(e: Expr) {
    IsOperand(e) || (IsOpenBinary(e) && e.op == Exponentiation && IsOperand(e.left) && Exponential(e.right))
  }

  predicate Multiplicative(e: Expr) {
    || Exponential(e)
    || (IsOpenBinary(e) && e.op in {Multiply, Divide, Mod} && Multiplicative(e.left) && Exponential(e.right))
  }

  predicate Additive(e: Expr) {
    || Multiplicative(e)
    || (IsOpenBinary(e) && e.op in {Plus, Minus} && Additive(e.left) && Multiplicative(e.right))
  }

  predicate Shifted(e: Expr) {
    || Additive(e)
    || (IsOpenBinary(e) && e.op in {LeftShift, RightShift, UnsignedRightShift} && Shifted(e.left) && Additive(e.right))
  }

  predicate Relational(e: Expr) {
    || Shifted(e)
    || (IsOpenBinary(e) && e.op in {LessThan, GreaterThan, LessThanEqual, GreaterThanEqual, InstanceOf, In}
        && Relational(e.left) && Shifted(e.right))
  }

  predicate Equality(e: Expr) {
    || Relational(e)
    || (IsOpenBinary(e) && e.op in {Equal, NotEqual, StrictEqual, NotStrictEqual}
        && Equality(e.left) && Relational(e.right))
  }

  predicate BitwiseAndLevel(e: Expr) {
    || Equality(e)
    || (IsOpenBinary(e) && e.op == BitwiseAnd && BitwiseAndLevel(e.left) && Equality(e.right))
  }

  predicate BitwiseXorLevel(e: Expr) {
    || BitwiseAndLevel(e)
    || (IsOpenBinary(e) && e.op == BitwiseXor && BitwiseXorLevel(e.left) && BitwiseAndLevel(e.right))
  }

  // ----- ECMA-262

  predicate BitwiseOrLevel(e: Expr) {
    || BitwiseXorLevel(e)
    || (IsOpenBinary(e) && e.op == BitwiseOr && BitwiseOrLevel(e.left) && BitwiseXorLevel(e.right))
  }

  predicate LogicalAndLevel(e: Expr) {
    || BitwiseOrLevel(e)
    || (IsOpenBinary(e) && e.op == LogicalAnd && LogicalAndLevel(e.left) && BitwiseOrLevel(e.right))
  }

  predicate LogicalOrLevel(e: Expr) {
    || LogicalAndLevel(e)
    || (IsOpenBinary(e) && e.op == LogicalOr && LogicalOrLevel(e.left) && LogicalAndLevel(e.right))
  }

  /** `??` above `||`; that the two do not meet without parentheses is a rule of its own. */
  predicate CoalesceLevel(e: Expr) {
    || LogicalOrLevel(e)
    || (IsOpenBinary(e) && e.op == NullishCoalescing && CoalesceLevel(e.left) && LogicalOrLevel(e.right))
  }

  // ----- the code: `&&` and `|` at one level

  predicate AndOrLevel(e: Expr) {
    || BitwiseXorLevel(e)
    || (IsOpenBinary(e) && e.op in {LogicalAnd, BitwiseOr} && AndOrLevel(e.left) && BitwiseXorLevel(e.right))
  }

  predicate CodeOrLevel(e: Expr) {
    || AndOrLevel(e)
    || (IsOpenBinary(e) && e.op == LogicalOr && CodeOrLevel(e.left) && AndOrLevel(e.right))
  }

  predicate CodeCoalesceLevel(e: Expr) {
    || CodeOrLevel(e)
    || (IsOpenBinary(e) && e.op == NullishCoalescing && CodeCoalesceLevel(e.left) && CodeOrLevel(e.right))
  }

  // ----- the tables are these levels

  lemma TightestIs(t: Table, op: BinOp)
    ensures Precedence(t, op) >= Precedence(t, Exponentiation) <==> op == Exponentiation
  {
  }

  lemma {:induction false} ExponentialIs(t: Table, e: Expr)
    ensures Exponential(e) <==> BindsAtLeast(t, e, Precedence(t, Exponentiation))
    decreases e
  {
    if IsOpenBinary(e) {
      TightestIs(t, e.op);
      if IsOpenBinary(e.left) {
        TightestIs(t, e.left.op);
      }
      ExponentialIs(t, e.right);
      if e.op == Exponentiation {
        assert IsOperand(e.left) ==> RespectsTable(t, e.left);
        assert IsOperand(e.left) && BindsAtLeast(t, e.right, Precedence(t, Exponentiation)) <==> RespectsTable(t, e);
      }
    }
  }

  /** One left-associative level on top of the tighter ones: `mine` says that the root operator is of the level. */
  lemma Level(t: Table, e: Expr, mine: bool, n: nat, left: bool, right: bool)
    requires IsOpenBinary(e) && (mine <==> Precedence(t, e.op) == n) && (mine ==> e.op != Exponentiation)
    requires (left <==> BindsAtLeast(t, e.left, n)) && (right <==> BindsAtLeast(t, e.right, n + 1))
    ensures BindsAtLeast(t, e, n) <==> BindsAtLeast(t, e, n + 1) || (mine && left && right)
  {
  }

  lemma {:induction false} MultiplicativeIs(t: Table, e: Expr)
    ensures Multiplicative(e) <==> BindsAtLeast(t, e, Precedence(t, Multiply))
    decreases e
  {
    ExponentialIs(t, e);
    if IsOpenBinary(e) {
      MultiplicativeIs(t, e.left);
      ExponentialIs(t, e.right);
      Level(t, e, e.op in {Multiply, Divide, Mod}, Precedence(t, Multiply), Multiplicative(e.left),
            Exponential(e.right));
    }
  }

  lemma {:induction false} AdditiveIs(t: Table, e: Expr)
    ensures Additive(e) <==> BindsAtLeast(t, e, Precedence(t, Plus))
    decreases e
  {
    MultiplicativeIs(t, e);
    if IsOpenBinary(e) {
      AdditiveIs(t, e.left);
      MultiplicativeIs(t, e.right);
      Level(t, e, e.op in {Plus, Minus}, Precedence(t, Plus), Additive(e.left), Multiplicative(e.right));
    }
  }

  lemma {:induction false} ShiftedIs(t: Table, e: Expr)
    ensures Shifted(e) <==> BindsAtLeast(t, e, Precedence(t, LeftShift))
    decreases e
  {
    AdditiveIs(t, e);
    if IsOpenBinary(e) {
      ShiftedIs(t, e.left);
      AdditiveIs(t, e.right);
      Level(t, e, e.op in {LeftShift, RightShift, UnsignedRightShift}, Precedence(t, LeftShift), Shifted(e.left),
            Additive(e.right));
    }
  }

  lemma {:induction false} RelationalIs(t: Table, e: Expr)
    ensures Relational(e) <==> BindsAtLeast(t, e, Precedence(t, LessThan))
    decreases e
  {
    ShiftedIs(t, e);
    if IsOpenBinary(e) {
      RelationalIs(t, e.left);
      ShiftedIs(t, e.right);
      Level(t, e, e.op in {LessThan, GreaterThan, LessThanEqual, GreaterThanEqual, InstanceOf, In},
            Precedence(t, LessThan), Relational(e.left), Shifted(e.right));
    }
  }

  lemma {:induction false} EqualityIs(t: Table, e: Expr)
    ensures Equality(e) <==> BindsAtLeast(t, e, Precedence(t, Equal))
    decreases e
  {
    RelationalIs(t, e);
    if IsOpenBinary(e) {
      EqualityIs(t, e.left);
      RelationalIs(t, e.right);
      Level(t, e, e.op in {Equal, NotEqual, StrictEqual, NotStrictEqual}, Precedence(t, Equal), Equality(e.left),
            Relational(e.right));
    }
  }

  lemma {:induction false} BitwiseAndIs(t: Table, e: Expr)
    ensures BitwiseAndLevel(e) <==> BindsAtLeast(t, e, Precedence(t, BitwiseAnd))
    decreases e
  {
    EqualityIs(t, e);
    if IsOpenBinary(e) {
      BitwiseAndIs(t, e.left);
      EqualityIs(t, e.right);
      Level(t, e, e.op == BitwiseAnd, Precedence(t, BitwiseAnd), BitwiseAndLevel(e.left), Equality(e.right));
    }
  }

  lemma {:induction false} BitwiseXorIs(t: Table, e: Expr)
    ensures BitwiseXorLevel(e) <==> BindsAtLeast(t, e, Precedence(t, BitwiseXor))
    decreases e
  {
    BitwiseAndIs(t, e);
    if IsOpenBinary(e) {
      BitwiseXorIs(t, e.left);
      BitwiseAndIs(t, e.right);
      Level(t, e, e.op == BitwiseXor, Precedence(t, BitwiseXor), BitwiseXorLevel(e.left), BitwiseAndLevel(e.right));
    }
  }

  lemma {:induction false} BitwiseOrIs(e: Expr)
    ensures BitwiseOrLevel(e) <==> BindsAtLeast(Ecma, e, Precedence(Ecma, BitwiseOr))
    decreases e
  {
    BitwiseXorIs(Ecma, e);
    if IsOpenBinary(e) {
      BitwiseOrIs(e.left);
      BitwiseXorIs(Ecma, e.right);
      Level(Ecma, e, e.op == BitwiseOr, Precedence(Ecma, BitwiseOr), BitwiseOrLevel(e.left), BitwiseXorLevel(e.right));
    }
  }

  lemma {:induction false} LogicalAndIs(e: Expr)
    ensures LogicalAndLevel(e) <==> BindsAtLeast(Ecma, e, Precedence(Ecma, LogicalAnd))
    decreases e
  {
    BitwiseOrIs(e);
    if IsOpenBinary(e) {
      LogicalAndIs(e.left);
      BitwiseOrIs(e.right);
      Level(Ecma, e, e.op == LogicalAnd, Precedence(Ecma, LogicalAnd), LogicalAndLevel(e.left),
            BitwiseOrLevel(e.right));
    }
  }

  lemma {:induction false} LogicalOrIs(e: Expr)
    ensures LogicalOrLevel(e) <==> BindsAtLeast(Ecma, e, Precedence(Ecma, LogicalOr))
    decreases e
  {
    LogicalAndIs(e);
    if IsOpenBinary(e) {
      LogicalOrIs(e.left);
      LogicalAndIs(e.right);
      Level(Ecma, e, e.op == LogicalOr, Precedence(Ecma, LogicalOr), LogicalOrLevel(e.left), LogicalAndLevel(e.right));
    }
  }

  lemma {:induction false} CoalesceIs(e: Expr)
    ensures CoalesceLevel(e) <==> BindsAtLeast(Ecma, e, Precedence(Ecma, NullishCoalescing))
    decreases e
  {
    LogicalOrIs(e);
    if IsOpenBinary(e) {
      CoalesceIs(e.left);
      LogicalOrIs(e.right);
      Level(Ecma, e, e.op == NullishCoalescing, Precedence(Ecma, NullishCoalescing), CoalesceLevel(e.left),
            LogicalOrLevel(e.right));
    }
  }

  lemma {:induction false} AndOrIs(e: Expr)
    ensures AndOrLevel(e) <==> BindsAtLeast(Code, e, Precedence(Code, LogicalAnd))
    decreases e
  {
    BitwiseXorIs(Code, e);
    if IsOpenBinary(e) {
      AndOrIs(e.left);
      BitwiseXorIs(Code, e.right);
      Level(Code, e, e.op in {LogicalAnd, BitwiseOr}, Precedence(Code, LogicalAnd), AndOrLevel(e.left),
            BitwiseXorLevel(e.right));
    }
  }

  lemma {:induction false} CodeOrIs(e: Expr)
    ensures CodeOrLevel(e) <==> BindsAtLeast(Code, e, Precedence(Code, LogicalOr))
    decreases e
  {
    AndOrIs(e);
    if IsOpenBinary(e) {
      CodeOrIs(e.left);
      AndOrIs(e.right);
      Level(Code, e, e.op == LogicalOr, Precedence(Code, LogicalOr), CodeOrLevel(e.left), AndOrLevel(e.right));
    }
  }

  lemma {:induction false} CodeCoalesceIs(e: Expr)
    ensures CodeCoalesceLevel(e) <==> BindsAtLeast(Code, e, Precedence(Code, NullishCoalescing))
    decreases e
  {
    CodeOrIs(e);
    if IsOpenBinary(e) {
      CodeCoalesceIs(e.left);
      CodeOrIs(e.right);
      Level(Code, e, e.op == NullishCoalescing, Precedence(Code, NullishCoalescing), CodeCoalesceLevel(e.left),
            CodeOrLevel(e.right));
    }
  }

  lemma LoosestIs(t: Table, op: BinOp)
    ensures Precedence(t, op) >= Precedence(t, NullishCoalescing)
  {
  }

  /** The reference table is the grammar: a chain respects it if and only if it is built level by level. */
  lemma EcmaIsGrammar(e: Expr)
    requires !IsOpenConditional(e)
    ensures RespectsTable(Ecma, e) <==> CoalesceLevel(e)
  {
    CoalesceIs(e);
    if IsOpenBinary(e) {
      LoosestIs(Ecma, e.op);
    }
  }

  /** The table of the code is the same grammar, but for `&&` and `|` at one level. */
  lemma CodeIsGrammar(e: Expr)
    requires !IsOpenConditional(e)
    ensures RespectsTable(Code, e) <==> CodeCoalesceLevel(e)
  {
    CodeCoalesceIs(e);
    if IsOpenBinary(e) {
      LoosestIs(Code, e.op);
    }
  }

  // ----- `??` as section 13.13 has it

  /** `??` over bitwise or only. */
  predicate CoalesceExpression(e: Expr) {
    && IsOpenBinary(e) && e.op == NullishCoalescing
    && (CoalesceExpression(e.left) || BitwiseOrLevel(e.left)) && BitwiseOrLevel(e.right)
  }

  predicate ShortCircuit(e: Expr) {
    LogicalOrLevel(e) || CoalesceExpression(e)
  }

  lemma AboveLogical(e: Expr)
    requires LogicalOrLevel(e)
    ensures Rator(NullishCoalescing) !in Frontier(e)
    ensures BitwiseOrLevel(e) <==> !ChainHasLogical(e)
  {
    LogicalOrIs(e);
    BitwiseOrIs(e);
    LogicalInFrontier(e);
    var f := Frontier(e);
    forall k | 0 <= k < |f| && f[k].Rator?
      ensures f[k].op != NullishCoalescing && (BitwiseOrLevel(e) ==> !IsLogicalOrAnd(f[k].op))
    {
      RootBindsLeast(Ecma, e, 2, k);
      if BitwiseOrLevel(e) {
        RootBindsLeast(Ecma, e, 4, k);
      }
    }
  }

  /** The grammar with its rule for `??`: nested by level, and `??` in one chain with neither `||` nor `&&`. */
  lemma {:induction false} ShortCircuitIs(e: Expr)
    ensures ShortCircuit(e) <==> CoalesceLevel(e) && !Mixes(Frontier(e))
    decreases e
  {
    LogicalInFrontier(e);
    if LogicalOrLevel(e) {
      AboveLogical(e);
    } else if IsOpenBinary(e) && e.op == NullishCoalescing {
      ShortCircuitIs(e.left);
      CoalesceHead(e);
    }
  }

  lemma CoalesceHead(e: Expr)
    requires IsOpenBinary(e) && e.op == NullishCoalescing && !LogicalOrLevel(e)
    requires ShortCircuit(e.left) <==> CoalesceLevel(e.left) && !Mixes(Frontier(e.left))
    ensures CoalesceExpression(e) <==> CoalesceLevel(e) && !Mixes(Frontier(e))
  {
    HeadHasNoLogical(e.left);
    assert Frontier(e)[|Frontier(e.left)|] == Rator(NullishCoalescing);
    LogicalInFrontier(e);
    if LogicalOrLevel(e.right) {
      AboveLogical(e.right);
    } else {
      OrUnderLogicalOr(e.right);
    }
  }

  lemma OrUnderLogicalOr(e: Expr)
    ensures BitwiseOrLevel(e) ==> LogicalOrLevel(e)
  {
  }

  lemma HeadHasNoLogical(e: Expr)
    requires ShortCircuit(e) <==> CoalesceLevel(e) && !Mixes(Frontier(e))
    ensures CoalesceExpression(e) || BitwiseOrLevel(e) <==> CoalesceLevel(e) && !ChainHasLogical(e)
  {
    LogicalInFrontier(e);
    OrUnderLogicalOr(e);
    if CoalesceExpression(e) {
      CoalesceHasNoLogical(e);
    }
    if LogicalOrLevel(e) {
      AboveLogical(e);
    }
  }

  lemma {:induction false} CoalesceHasNoLogical(e: Expr)
    requires CoalesceExpression(e)
    ensures !ChainHasLogical(e)
    decreases e
  {
    LogicalOrIs(e.right);
    BitwiseOrIs(e.right);
    AboveLogical(e.right);
    if CoalesceExpression(e.left) {
      CoalesceHasNoLogical(e.left);
    } else {
      LogicalOrIs(e.left);
      BitwiseOrIs(e.left);
      AboveLogical(e.left);
    }
  }

  // ----- what the parsers build

  /** The chain of a parse: the whole tree, or the test when a conditional follows. */
  function ChainOf(ts: seq<Token>, n: nat, e: Expr): Expr {
    if n < |ts| && ts[n] == Question && e.Conditional? then e.test else e
  }

  lemma ChainFollows(t: Table, ts: seq<Token>, i: nat, e: Expr)
    ensures var p, q := Expression(t, ts, i), FlatChain(t, ts, i);
      p.Parsed? ==>
        && q.Flat?
        && (e == ChainOf(ts, q.next, p.expr) <==>
              RespectsTable(t, e) && !IsOpenConditional(e) && Frontier(e) == q.items)
  {
    ChainIsFlat(t, ts, i);
    ChainRespectsTable(t, ts, i, 0);
    var c, q := Chain(t, ts, i, 0), FlatChain(t, ts, i);
    if c.Parsed? {
      assert [] + q.items == q.items;
      if RespectsTable(t, e) && Frontier(e) == q.items {
        UniqueParse(t, e, c.expr);
      }
    }
  }

  /** Main theorem: the chain that the code builds is the one tree of its grammar that reads as the tokens' chain. */
  lemma ParserFollowsGrammar(ts: seq<Token>, i: nat, e: Expr)
    ensures var p, q := R.ParseExpression(ts, i), FlatChain(Code, ts, i);
      p.Parsed? ==>
        && q.Flat?
        && (e == ChainOf(ts, q.next, p.expr) <==> CodeCoalesceLevel(e) && Frontier(e) == q.items)
  {
    ParsersAgree(ts, i);
    ChainFollows(Code, ts, i, e);
    CodeCoalesceIs(e);
    if !IsOpenConditional(e) {
      CodeIsGrammar(e);
    }
  }

  /** The reference parser, over the nesting of ECMA-262, builds the one tree of that grammar. */
  lemma ReferenceFollowsGrammar(ts: seq<Token>, i: nat, e: Expr)
    ensures var p, q := Expression(Ecma, ts, i), FlatChain(Ecma, ts, i);
      p.Parsed? ==>
        && q.Flat?
        && (e == ChainOf(ts, q.next, p.expr) <==> CoalesceLevel(e) && Frontier(e) == q.items)
  {
    ChainFollows(Ecma, ts, i, e);
    CoalesceIs(e);
    if !IsOpenConditional(e) {
      EcmaIsGrammar(e);
    }
  }
}
