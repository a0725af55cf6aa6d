/** The parser over mutable tree nodes: every rotation is a single `SetLeft` on a node of the left spine, and the
    tree then spells the functional result. */
module ExpressionParser {
  import opened ExprSyntax
  import R = RotationParser

  datatype Kind = LEAF | BINARY | CONDITIONAL

  class Node {
    const kind: Kind
    const id: nat
    const unary: bool
    const op: BinOp
    var grouped: bool
    var left: Node?
    const right: Node?
    var test: Node?
    const consequent: Node?
    const alternate: Node?

    constructor Leaf(id: nat, unary: bool)
      ensures kind == LEAF && this.id == id && this.unary == unary && !grouped
    {
      kind, this.id, this.unary, grouped := LEAF, id, unary, false;
      op, left, right, test, consequent, alternate := In, null, null, null, null, null;
    }

    constructor Binary(left: Node, right: Node, op: BinOp)
      ensures kind == BINARY && this.op == op && !grouped && this.left == left && this.right == right
    {
      kind, this.op, grouped := BINARY, op, false;
      this.left, this.right := left, right;
      id, unary, test, consequent, alternate := 0, false, null, null, null;
    }

    constructor Conditional(test: Node, consequent: Node, alternate: Node)
      ensures kind == CONDITIONAL && !grouped
      ensures this.test == test && this.consequent == consequent && this.alternate == alternate
    {
      kind, grouped := CONDITIONAL, false;
      this.test, this.consequent, this.alternate := test, consequent, alternate;
      id, unary, op, left, right := 0, false, In, null, null;
    }

    method SetGrouped()
      modifies this`grouped
      ensures grouped
    {
      grouped := true;
    }

    method SetLeft(node: Node)
      modifies this`left
      ensures left == node
    {
      left := node;
    }

    method SetTest(node: Node)
      modifies this`test
      ensures test == node
    {
      test := node;
    }
  }

  /** The nodes of a tree in the heap, as a value. */
  datatype Shape =
    | LeafShape(node: Node)
    | BinaryShape(node: Node, left: Shape, right: Shape)
    | ConditionalShape(node: Node, test: Shape, consequent: Shape, alternate: Shape)

  ghost function Nodes(s: Shape): set<Node> {
    match s
    case LeafShape(n) => {n}
    case BinaryShape(n, l, r) => {n} + Nodes(l) + Nodes(r)
    case ConditionalShape(n, t, c, a) => {n} + Nodes(t) + Nodes(c) + Nodes(a)
  }

  /** The nodes are pairwise distinct. */
  ghost predicate Tree(s: Shape) {
    match s
    case LeafShape(n) => true
    case BinaryShape(n, l, r) => n !in Nodes(l) && n !in Nodes(r) && Nodes(l) !! Nodes(r) && Tree(l) && Tree(r)
    case ConditionalShape(n, t, c, a) =>
      && n !in Nodes(t) && n !in Nodes(c) && n !in Nodes(a)
      && Nodes(t) !! Nodes(c) && Nodes(t) !! Nodes(a) && Nodes(c) !! Nodes(a)
      && Tree(t) && Tree(c) && Tree(a)
  }

  /** The heap spells the syntax tree `e` in shape `s`, where the left pointers of `except` are not looked at. */
  ghost predicate SpellsBut(s: Shape, e: Expr, except: set<Node>)
    reads Nodes(s)`grouped, Nodes(s)`test, (Nodes(s) - except)`left
    decreases s
  {
    match s
    case LeafShape(n) => n.kind == LEAF && e == Expr.Leaf(n.grouped, n.id, n.unary)
    case BinaryShape(n, l, r) =>
      && n.kind == BINARY && (n !in except ==> n.left == l.node) && n.right == r.node
      && e.Binary? && e.grouped == n.grouped && e.op == n.op
      && SpellsBut(l, e.left, except) && SpellsBut(r, e.right, except)
    case ConditionalShape(n, t, c, a) =>
      && n.kind == CONDITIONAL && n.test == t.node && n.consequent == c.node && n.alternate == a.node
      && e.Conditional? && e.grouped == n.grouped
      && SpellsBut(t, e.test, except) && SpellsBut(c, e.consequent, except) && SpellsBut(a, e.alternate, except)
  }

  /** The heap spells `e` in shape `s`: one fact, written as an equation so that it is proved in one piece. */
  ghost predicate Spells(s: Shape, e: Expr)
    reads Nodes(s)`grouped, Nodes(s)`test, Nodes(s)`left
  {
    true == (Tree(s) && SpellsBut(s, e, {}))
  }

  lemma Children(s: Shape, e: Expr)
    requires Spells(s, e)
    ensures s.BinaryShape? ==> Spells(s.left, e.left) && Spells(s.right, e.right)
    ensures s.ConditionalShape? ==>
      Spells(s.test, e.test) && Spells(s.consequent, e.consequent) && Spells(s.alternate, e.alternate)
  {
  }

  lemma SpellsConditional(n: Node, t: Shape, te: Expr, c: Shape, ce: Expr, a: Shape, ae: Expr)
    requires Spells(t, te) && Spells(c, ce) && Spells(a, ae)
    requires Nodes(t) !! Nodes(c) && Nodes(t) !! Nodes(a) && Nodes(c) !! Nodes(a)
    requires n !in Nodes(t) && n !in Nodes(c) && n !in Nodes(a)
    requires n.kind == CONDITIONAL && n.test == t.node && n.consequent == c.node && n.alternate == a.node
    ensures Spells(ConditionalShape(n, t, c, a), Expr.Conditional(n.grouped, te, ce, ae))
  {
  }

  predicate NodeShouldBeAmended(node: Node, op: BinOp)
    reads node`grouped
  {
    Precedence(Code, node.op) <= Precedence(Code, op) && !node.grouped
    && (op != Exponentiation || node.op != Exponentiation)
  }

  /** The checks of the two branches against mixing `??` with `||` and `&&`. */
  predicate NodeMixesNullish(node: Node, op: BinOp)
    reads node`grouped
  {
    if node.kind == BINARY && NodeShouldBeAmended(node, op) then
      IsLogicalOrAnd(op) && node.op == NullishCoalescing
    else
      op == NullishCoalescing && node.kind == BINARY && !node.grouped
      && (IsLogicalOrAnd(node.op) || node.op == NullishCoalescing)
  }

  lemma RootMatches(s: Shape, e: Expr, op: BinOp)
    requires Spells(s, e)
    ensures s.node.kind == BINARY <==> e.Binary?
    ensures s.BinaryShape? <==> e.Binary?
    ensures e.grouped == s.node.grouped
    ensures e.Binary? ==> e.op == s.node.op
    ensures R.MixesNullish(op, e) <==> NodeMixesNullish(s.node, op)
    ensures R.ShouldBeAmended(e, op) <==> s.node.kind == BINARY && NodeShouldBeAmended(s.node, op)
  {
  }

  /** The nodes of a shape at hand, and of its parts, all exist. */
  lemma AllocatedParts(s: Shape)
    ensures allocated(Nodes(s))
    ensures s.BinaryShape? ==> allocated(Nodes(s.left)) && allocated(Nodes(s.right))
    ensures s.ConditionalShape? ==>
      allocated(Nodes(s.test)) && allocated(Nodes(s.consequent)) && allocated(Nodes(s.alternate))
  {
  }

  lemma {:induction false} LookAway(s: Shape, e: Expr, m: Node)
    requires SpellsBut(s, e, {})
    ensures SpellsBut(s, e, {m})
    decreases s
  {
    match s
    case LeafShape(_) =>
    case BinaryShape(_, l, r) => LookAway(l, e.left, m); LookAway(r, e.right, m);
    case ConditionalShape(_, t, c, a) =>
      LookAway(t, e.test, m); LookAway(c, e.consequent, m); LookAway(a, e.alternate, m);
  }

  lemma {:induction false} LookBack(s: Shape, e: Expr, m: Node)
    requires SpellsBut(s, e, {m}) && m !in Nodes(s)
    ensures SpellsBut(s, e, {})
    decreases s
  {
    match s
    case LeafShape(_) =>
    case BinaryShape(_, l, r) => LookBack(l, e.left, m); LookBack(r, e.right, m);
    case ConditionalShape(_, t, c, a) =>
      LookBack(t, e.test, m); LookBack(c, e.consequent, m); LookBack(a, e.alternate, m);
  }

  /** The node whose left child the rotation replaces: the last one of the spine that must be amended. */
  ghost function Target(s: Shape, e: Expr, op: BinOp): Node
    requires s.BinaryShape? && e.Binary?
    decreases s
  {
    if s.left.BinaryShape? && R.ShouldBeAmended(e.left, op) then Target(s.left, e.left, op) else s.node
  }

  /** The shape after the new node `n`, with left operand `l`, took the place of the target's left child. */
  ghost function SpliceShape(s: Shape, e: Expr, op: BinOp, n: Node, l: Shape): Shape
    decreases s
  {
    if s.BinaryShape? && R.ShouldBeAmended(e, op) then s.(left := SpliceShape(s.left, e.left, op, n, l))
    else BinaryShape(n, l, s)
  }

  lemma {:induction false} SpliceShapeNodes(s: Shape, e: Expr, op: BinOp, n: Node, l: Shape)
    ensures Nodes(SpliceShape(s, e, op, n, l)) == Nodes(s) + {n} + Nodes(l)
    ensures s.BinaryShape? && R.ShouldBeAmended(e, op) ==> SpliceShape(s, e, op, n, l).node == s.node
    decreases s
  {
    if s.BinaryShape? && R.ShouldBeAmended(e, op) {
      SpliceShapeNodes(s.left, e.left, op, n, l);
    }
  }

  lemma {:induction false} TargetInSpine(s: Shape, e: Expr, op: BinOp)
    requires s.BinaryShape? && e.Binary?
    ensures Target(s, e, op) in Nodes(s)
    decreases s
  {
    if s.left.BinaryShape? && R.ShouldBeAmended(e.left, op) {
      TargetInSpine(s.left, e.left, op);
    }
  }

  lemma RootInNodes(s: Shape)
    ensures s.node in Nodes(s)
  {
  }

  /** The left child of the target before the rotation. */
  ghost function Detached(s: Shape, e: Expr, op: BinOp): Node
    requires s.BinaryShape? && e.Binary?
    decreases s
  {
    if s.left.BinaryShape? && R.ShouldBeAmended(e.left, op) then Detached(s.left, e.left, op) else s.left.node
  }

  lemma SpellsBinary(n: Node, l: Shape, le: Expr, r: Shape, re: Expr)
    requires Spells(l, le) && Spells(r, re) && Nodes(l) !! Nodes(r) && n !in Nodes(l) && n !in Nodes(r)
    requires n.kind == BINARY && n.left == l.node && n.right == r.node
    ensures Spells(BinaryShape(n, l, r), Expr.Binary(n.grouped, n.op, le, re))
  {
  }

  /** The splice at the target itself. */
  lemma SpliceHere(s: Shape, e: Expr, op: BinOp, n: Node, l: Shape, le: Expr)
    requires s.BinaryShape? && Tree(s) && e.Binary? && SpellsBut(s, e, {s.node}) && s.node.left == n
    requires n.kind == BINARY && n.op == op && !n.grouped && n.left == l.node && n.right == s.left.node
    requires Spells(l, le) && n !in Nodes(l) && n !in Nodes(s) && Nodes(l) !! Nodes(s)
    ensures Spells(s.(left := BinaryShape(n, l, s.left)), e.(left := Expr.Binary(false, op, le, e.left)))
  {
    LookBack(s.right, e.right, s.node);
    LookBack(s.left, e.left, s.node);
    RootInNodes(s.left);
    SpellsBinary(n, l, le, s.left, e.left);
    SpellsBinary(s.node, BinaryShape(n, l, s.left), Expr.Binary(false, op, le, e.left), s.right, e.right);
  }

  /** A node above the target keeps its place over the spliced left child. */
  lemma SpliceBelow(s: Shape, e: Expr, m: Node, t: Shape, te: Expr)
    requires s.BinaryShape? && Tree(s) && e.Binary? && SpellsBut(s, e, {m}) && m in Nodes(s.left)
    requires Spells(t, te) && t.node == s.left.node && s.node !in Nodes(t) && Nodes(t) !! Nodes(s.right)
    ensures Spells(s.(left := t), e.(left := te))
  {
    LookBack(s.right, e.right, m);
    SpellsBinary(s.node, t, te, s.right, e.right);
  }

  /** One `SetLeft` on the target performs the whole splice. */
  lemma {:induction false} OneSetLeft(s: Shape, e: Expr, op: BinOp, n: Node, l: Shape, le: Expr)
    requires s.BinaryShape? && Tree(s) && R.ShouldBeAmended(e, op)
    requires SpellsBut(s, e, {Target(s, e, op)})
    requires Target(s, e, op).left == n
    requires n.kind == BINARY && n.op == op && !n.grouped && n.left == l.node && n.right == Detached(s, e, op)
    requires Spells(l, le) && n !in Nodes(l) && n !in Nodes(s) && Nodes(l) !! Nodes(s)
    ensures Spells(SpliceShape(s, e, op, n, l), R.Splice(le, op, e))
    decreases s
  {
    if s.left.BinaryShape? && R.ShouldBeAmended(e.left, op) {
      TargetInSpine(s.left, e.left, op);
      SpliceShapeNodes(s.left, e.left, op, n, l);
      assert SpellsBut(s.left, e.left, {Target(s.left, e.left, op)});
      OneSetLeft(s.left, e.left, op, n, l, le);
      SpliceBelow(s, e, Target(s, e, op), SpliceShape(s.left, e.left, op, n, l), R.Splice(le, op, e.left));
    } else {
      SpliceHere(s, e, op, n, l, le);
      assert SpliceShape(s.left, e.left, op, n, l) == BinaryShape(n, l, s.left);
      assert R.Splice(le, op, e.left) == Expr.Binary(false, op, le, e.left);
    }
  }

  /** The end of a conditional: the branch behind the colon at `i - 1`. */
  function WithAlternate(ts: seq<Token>, test: Expr, consequent: Expr, i: nat): Parse {
    match R.ParseExpression(ts, i)
    case SyntaxError => SyntaxError
    case Parsed(a, n) => Parsed(Expr.Conditional(false, test, consequent, a), n)
  }

  lemma TernaryParses(ts: seq<Token>, test: Expr, i: nat, c: Parse)
    requires i < |ts| && c == R.ParseExpression(ts, i + 1)
    ensures R.ParseTernary(ts, test, i) ==
      if c.Parsed? && c.next < |ts| && ts[c.next] == Colon then WithAlternate(ts, test, c.expr, c.next + 1)
      else SyntaxError
  {
  }

  class Parser {
    const tokens: seq<Token>
    var pos: nat

    constructor (tokens: seq<Token>)
      ensures this.tokens == tokens && pos == 0
    {
      this.tokens, pos := tokens, 0;
    }

    method NextToken()
      modifies this`pos
      ensures pos == old(pos) + 1
    {
      pos := pos + 1;
    }

    /** The result of a parsing method: what the functional parser says, spelled by nodes of the heap. */
    ghost predicate Result(p: Parse, ok: bool, node: Node?, s: Shape)
      reads this`pos, Nodes(s)`grouped, Nodes(s)`test, Nodes(s)`left
    {
      && ok == p.Parsed?
      && (ok ==> pos == p.next && node == s.node && Spells(s, p.expr))
    }

    method ParseExpression() returns (ok: bool, node: Node?, ghost s: Shape)
      modifies this`pos
      ensures Result(R.ParseExpression(tokens, old(pos)), ok, node, s)
      ensures ok ==> forall n :: n in Nodes(s) ==> fresh(n)
      decreases if pos < |tokens| then |tokens| - pos else 0, 3
    {
      ghost var p := R.ParsePrimary(tokens, pos);
      ok, node, s := ParsePrimary();
      if ok {
        AllocatedParts(s);
        ok, node, s := ParseAssignmentExpression(node, s, p.expr);
      }
    }

    /** An operand: a leaf, or an expression in parentheses. */
    method ParsePrimary() returns (ok: bool, node: Node?, ghost s: Shape)
      modifies this`pos
      ensures Result(R.ParsePrimary(tokens, old(pos)), ok, node, s)
      ensures ok ==> forall n :: n in Nodes(s) ==> fresh(n)
      decreases if pos < |tokens| then |tokens| - pos else 0, 0
    {
      var leaf := new Node.Leaf(0, false);
      ok, node, s := false, null, LeafShape(leaf);
      if pos >= |tokens| {
        return;
      }
      var token := tokens[pos];
      if token.Operand? {
        NextToken();
        leaf := new Node.Leaf(token.id, token.unary);
        ok, node, s := true, leaf, LeafShape(leaf);
      } else if token == LeftParen {
        NextToken();
        ghost var p := R.ParseExpression(tokens, pos);
        ok, node, s := ParseExpression();
        if ok {
          AllocatedParts(s);
          if pos < |tokens| && tokens[pos] == RightParen {
            Group(node, s, p.expr);
            NextToken();
          } else {
            ok := false;
          }
        }
      }
    }

    static method Group(node: Node, ghost s: Shape, ghost e: Expr)
      requires Spells(s, e) && node == s.node
      modifies node`grouped
      ensures Spells(s, e.(grouped := true))
    {
      Children(s, e);
      AllocatedParts(s);
      node.SetGrouped();
    }

    method ParseAssignmentExpression(lhs: Node, ghost ls: Shape, ghost le: Expr)
      returns (ok: bool, node: Node?, ghost s: Shape)
      requires pos <= |tokens| && lhs == ls.node && Spells(ls, le)
      modifies this`pos
      ensures Result(R.ParseAssignment(tokens, le, old(pos)), ok, node, s)
      ensures ok ==> forall n :: n in Nodes(s) ==> n in Nodes(ls) || fresh(n)
      decreases |tokens| - pos, 2
    {
      AllocatedParts(ls);
      ok, node, s := true, lhs, ls;
      if pos >= |tokens| {
        return;
      }
      if tokens[pos] == Question {
        ok, node, s := ParseConditional(lhs, ls, le);
      } else if tokens[pos].Operator? {
        ghost var p := R.ParseBinary(tokens, le, pos);
        ok, node, s := ParseBinaryExpression(lhs, ls, le);
        if ok {
          ok, node, s := ParseAssignmentExpression(node, s, p.expr);
        }
      }
    }

    /** The `? :` case of an assignment expression. */
    method ParseConditional(test: Node, ghost ls: Shape, ghost le: Expr)
      returns (ok: bool, node: Node?, ghost s: Shape)
      requires pos < |tokens| && tokens[pos] == Question && test == ls.node && Spells(ls, le)
      modifies this`pos
      ensures Result(R.ParseTernary(tokens, le, old(pos)), ok, node, s)
      ensures ok ==> forall n :: n in Nodes(s) ==> n in Nodes(ls) || fresh(n)
      decreases |tokens| - pos, 1
    {
      AllocatedParts(ls);
      node, s := test, ls;
      NextToken();
      ghost var p := R.ParseExpression(tokens, pos);
      TernaryParses(tokens, le, old(pos), p);
      var consequent: Node?;
      ghost var cs;
      ok, consequent, cs := ParseExpression();
      if !ok {
        return;
      }
      AllocatedParts(cs);
      if !(pos < |tokens| && tokens[pos] == Colon) {
        ok := false;
        return;
      }
      NextToken();
      ok, node, s := ParseAlternate(test, ls, le, consequent, cs, p.expr);
    }

    /** The branch behind the colon, and the node of the conditional. */
    method ParseAlternate(test: Node, ghost ls: Shape, ghost le: Expr, consequent: Node, ghost cs: Shape,
                          ghost ce: Expr)
      returns (ok: bool, node: Node?, ghost s: Shape)
      requires test == ls.node && Spells(ls, le) && consequent == cs.node && Spells(cs, ce) && Nodes(ls) !! Nodes(cs)
      modifies this`pos
      ensures Result(WithAlternate(tokens, le, ce, old(pos)), ok, node, s)
      ensures ok ==> forall n :: n in Nodes(s) ==> n in Nodes(ls) || n in Nodes(cs) || fresh(n)
      decreases if pos < |tokens| then |tokens| - pos else 0, 4
    {
      AllocatedParts(ls);
      AllocatedParts(cs);
      node, s := test, ls;
      ghost var p := R.ParseExpression(tokens, pos);
      var alternate: Node?;
      ghost var alt;
      ok, alternate, alt := ParseExpression();
      if ok {
        node, s := AllocConditional(test, ls, le, consequent, cs, ce, alternate, alt, p.expr);
      }
    }

    static method AllocConditional(test: Node, ghost ts: Shape, ghost te: Expr, c: Node, ghost cs: Shape,
                                   ghost ce: Expr,
                                   a: Node, ghost alt: Shape, ghost ae: Expr)
      returns (node: Node, ghost s: Shape)
      requires test == ts.node && c == cs.node && a == alt.node
      requires Nodes(ts) !! Nodes(cs) && Nodes(ts) !! Nodes(alt) && Nodes(cs) !! Nodes(alt)
      requires Spells(ts, te) && Spells(cs, ce) && Spells(alt, ae)
      ensures node == s.node && Spells(s, Expr.Conditional(false, te, ce, ae))
      ensures forall n :: n in Nodes(s) ==> n in Nodes(ts) || n in Nodes(cs) || n in Nodes(alt) || fresh(n)
    {
      AllocatedParts(ts);
      AllocatedParts(cs);
      AllocatedParts(alt);
      node := new Node.Conditional(test, c, a);
      SpellsConditional(node, ts, te, cs, ce, alt, ae);
      s := ConditionalShape(node, ts, cs, alt);
    }

    method ParseBinaryExpression(left: Node, ghost ls: Shape, ghost le: Expr)
      returns (ok: bool, node: Node?, ghost s: Shape)
      requires pos < |tokens| && tokens[pos].Operator?
      requires left == ls.node && Spells(ls, le)
      modifies this`pos
      ensures Result(R.ParseBinary(tokens, le, old(pos)), ok, node, s)
      ensures ok ==> forall n :: n in Nodes(s) ==> n in Nodes(ls) || fresh(n)
      decreases |tokens| - pos, 1
    {
      AllocatedParts(ls);
      ok, node, s := false, left, ls;
      var op := tokens[pos].op;
      if op == Exponentiation && left.kind == LEAF && left.unary && !left.grouped {
        return;
      }
      NextToken();
      ghost var p := R.ParseExpression(tokens, pos);
      var right: Node?;
      ghost var rs;
      ok, right, rs := ParseExpression();
      if !ok {
        return;
      }
      ghost var re := p.expr;
      assert R.ParseBinary(tokens, le, old(pos)) ==
        if R.MixesNullish(op, R.CombineTest(le, op, re)) then SyntaxError else Parsed(R.Combine(le, op, re), pos);
      if right.kind == CONDITIONAL && !right.grouped {
        ok, s := CombineThroughTest(left, ls, le, op, right, rs, re);
        node := right;
      } else {
        ok, node, s := CombineOperands(left, ls, le, op, right, rs, re);
      }
    }

    /** A conditional on the right-hand side takes the operator into its test. */
    static method CombineThroughTest(left: Node, ghost ls: Shape, ghost le: Expr, op: BinOp,
                                     right: Node, ghost rs: Shape, ghost re: Expr)
      returns (ok: bool, ghost s: Shape)
      requires left == ls.node && right == rs.node && Nodes(ls) !! Nodes(rs)
      requires Spells(ls, le) && Spells(rs, re) && re.Conditional?
      modifies Nodes(rs)`left, Nodes(rs)`test
      ensures ok <==> !R.MixesNullish(op, re.test)
      ensures ok ==> right == s.node && Spells(s, re.(test := R.Splice(le, op, re.test)))
      ensures ok ==>
                && rs.ConditionalShape? && s.ConditionalShape?
                && s.consequent == rs.consequent && s.alternate == rs.alternate
      ensures ok ==> Nodes(ls) + Nodes(rs) <= Nodes(s)
      ensures ok ==> forall n :: n in Nodes(s) ==> n in Nodes(ls) || n in Nodes(rs) || fresh(n)
    {
      AllocatedParts(rs);
      AllocatedParts(ls);
      Children(rs, re);
      var node;
      ok, node, s := CombineOperands(left, ls, le, op, right.test, rs.test, re.test);
      if ok {
        s := ReplaceTest(right, node, s, R.Splice(le, op, re.test), rs.consequent, re.consequent, rs.alternate,
                         re.alternate);
      }
    }

    static method ReplaceTest(conditional: Node, test: Node, ghost ts: Shape, ghost te: Expr,
                              ghost cs: Shape, ghost ce: Expr, ghost alt: Shape, ghost ae: Expr)
      returns (ghost s: Shape)
      requires conditional.kind == CONDITIONAL && test == ts.node
      requires conditional.consequent == cs.node && conditional.alternate == alt.node
      requires Nodes(ts) !! Nodes(cs) && Nodes(ts) !! Nodes(alt) && Nodes(cs) !! Nodes(alt)
      requires conditional !in Nodes(ts) && conditional !in Nodes(cs) && conditional !in Nodes(alt)
      requires Spells(ts, te) && Spells(cs, ce) && Spells(alt, ae)
      modifies conditional`test
      ensures s == ConditionalShape(conditional, ts, cs, alt)
      ensures Spells(s, Expr.Conditional(conditional.grouped, te, ce, ae))
    {
      AllocatedParts(ts);
      AllocatedParts(cs);
      AllocatedParts(alt);
      conditional.SetTest(test);
      SpellsConditional(conditional, ts, te, cs, ce, alt, ae);
      s := ConditionalShape(conditional, ts, cs, alt);
    }

    /** `left op right`, by rotation in place where the right-hand side binds no tighter than `op`. */
    static method CombineOperands(left: Node, ghost ls: Shape, ghost le: Expr, op: BinOp,
                                  right: Node, ghost rs: Shape, ghost re: Expr)
      returns (ok: bool, node: Node?, ghost s: Shape)
      requires left == ls.node && right == rs.node && Nodes(ls) !! Nodes(rs)
      requires Spells(ls, le) && Spells(rs, re)
      modifies Nodes(rs)`left
      ensures ok <==> !R.MixesNullish(op, re)
      ensures ok ==> node == s.node && Spells(s, R.Splice(le, op, re))
      ensures ok ==> Nodes(ls) + Nodes(rs) <= Nodes(s)
      ensures ok ==> forall n :: n in Nodes(s) ==> n in Nodes(ls) || n in Nodes(rs) || fresh(n)
    {
      RootMatches(rs, re, op);
      ok, node, s := !NodeMixesNullish(right, op), right, rs;
      if ok {
        if right.kind == BINARY && NodeShouldBeAmended(right, op) {
          s := Rotate(left, ls, le, op, right, rs, re);
        } else {
          node, s := AllocBinary(left, ls, le, op, right, rs, re);
        }
      }
    }

    static method AllocBinary(left: Node, ghost ls: Shape, ghost le: Expr, op: BinOp,
                              right: Node, ghost rs: Shape, ghost re: Expr)
      returns (node: Node, ghost s: Shape)
      requires left == ls.node && right == rs.node && Nodes(ls) !! Nodes(rs)
      requires Spells(ls, le) && Spells(rs, re)
      ensures node == s.node && Spells(s, Expr.Binary(false, op, le, re))
      ensures Nodes(ls) + Nodes(rs) <= Nodes(s)
      ensures forall n :: n in Nodes(s) ==> n in Nodes(ls) || n in Nodes(rs) || fresh(n)
    {
      AllocatedParts(ls);
      AllocatedParts(rs);
      node := new Node.Binary(left, right, op);
      SpellsBinary(node, ls, le, rs, re);
      s := BinaryShape(node, ls, rs);
    }

    /** The rotation: a new node takes the place of the left child of the last amended node. */
    static method Rotate(left: Node, ghost ls: Shape, ghost le: Expr, op: BinOp,
                         right: Node, ghost rs: Shape, ghost re: Expr)
      returns (ghost s: Shape)
      requires left == ls.node && right == rs.node && Nodes(ls) !! Nodes(rs)
      requires Spells(ls, le) && Spells(rs, re) && R.ShouldBeAmended(re, op)
      modifies Nodes(rs)`left
      ensures right == s.node && Spells(s, R.Splice(le, op, re))
      ensures Nodes(ls) + Nodes(rs) <= Nodes(s)
      ensures forall n :: n in Nodes(s) ==> n in Nodes(ls) || n in Nodes(rs) || fresh(n)
    {
      AllocatedParts(ls);
      AllocatedParts(rs);
      var target := FindTarget(op, right, rs, re);
      var n := new Node.Binary(left, target.left, op);
      LookAway(rs, re, target);
      target.SetLeft(n);
      assert Spells(ls, le);
      OneSetLeft(rs, re, op, n, ls, le);
      SpliceShapeNodes(rs, re, op, n, ls);
      s := SpliceShape(rs, re, op, n, ls);
    }

    /** The walk down the left spine, as long as the nodes bind no tighter than `op`. */
    static method FindTarget(op: BinOp, right: Node, ghost rs: Shape, ghost re: Expr) returns (target: Node)
      requires right == rs.node && Spells(rs, re) && R.ShouldBeAmended(re, op)
      ensures rs.BinaryShape? && target == Target(rs, re, op) && target in Nodes(rs)
      ensures target.left == Detached(rs, re, op)
    {
      var shouldBeAmended := true;
      var binaryExpression, parentExpression := right, right;
      ghost var cur, e := rs, re;
      while binaryExpression.left.kind == BINARY && shouldBeAmended
        invariant cur.BinaryShape? && cur.node == binaryExpression && Spells(cur, e) && Nodes(cur) <= Nodes(rs)
        invariant shouldBeAmended == R.ShouldBeAmended(e, op)
        invariant shouldBeAmended ==>
                    Target(rs, re, op) == Target(cur, e, op) && Detached(rs, re, op) == Detached(cur, e, op)
        invariant !shouldBeAmended ==>
                    Target(rs, re, op) == parentExpression && parentExpression.left == Detached(rs, re, op)
        decreases cur
      {
        Children(cur, e);
        RootMatches(cur.left, e.left, op);
        parentExpression := binaryExpression;
        binaryExpression := binaryExpression.left;
        cur, e := cur.left, e.left;
        shouldBeAmended := NodeShouldBeAmended(binaryExpression, op);
      }
      Children(cur, e);
      target := if shouldBeAmended then binaryExpression else parentExpression;
      TargetInSpine(rs, re, op);
    }
  }
}
