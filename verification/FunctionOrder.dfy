/** Which arrows the order of the list leaves without their `this`: those in default values, and no others in a
    complete program. */
module FunctionOrder {
  import opened Options
  import opened ScopeTree
  import opened LexicalAddress
  import opened MandatoryParams
  import opened ArrowThis
  import opened VisitOrder

  /** The list of functions of a program whose top-level code is `root`, in the order of the reference pass. */
  ghost predicate ListedInOrder(t: Skeleton, arrows: set<nat>, fs: seq<FunctionInfo>, root: Node) {
    && Listing(t, arrows, fs) && 0 !in arrows && root.FunctionNode? && root.scope == 0 && root.listed && Fits(t, root)
    && |fs| == |Entries(root)| && forall i :: 0 <= i < |fs| ==> fs[i].scope == Entries(root)[i]
  }

  /** The enclosing ordinary function of a scope is around it with its body or with its parameters. */
  lemma {:induction false} EnclosingIsAround(t: Skeleton, arrows: set<nat>, i: nat)
    requires WellFormed(t) && i < |t|
    ensures var g := EnclosingOrdinary(t, arrows, i);
      Encloses(t, g, i) || (t[g].kind == FUNCTION && Encloses(t, ParamScopeOf(t, g), i))
    decreases i
  {
    assert WellFormedAt(t, i);
    if !(IsFunction(t, Host(t, i)) && (Host(t, i) !in arrows || i == 0)) {
      EnclosingIsAround(t, arrows, Parent(t, i));
    }
  }

  /** An arrow that uses `this` or `new.target` gets it from its nearest enclosing ordinary function if and only if that
      function is listed and its body, not one of its default values, is around the arrow. */
  lemma ArrowSeesEnclosingFromBody(t: Skeleton, arrows: set<nat>, s: State, fs: seq<FunctionInfo>, root: Node,
                                   k: nat, x: string)
    requires ListedInOrder(t, arrows, fs, root) && StateOf(t, s) && Hidden(t, s.w, {}, {})
    requires k < |fs| && fs[k].arrow
    requires (x == THIS && fs[k].usesThisOrSuper) || (x == NEW_TARGET && fs[k].usesNewTarget)
    ensures var a, g := fs[k].scope, EnclosingOrdinary(t, arrows, fs[k].scope);
      && (AtLookup(t, arrows, s, fs, k, x) == Some(g) <==> g in Done(fs) && Encloses(t, g, a))
      && (g in Done(fs) && Encloses(t, g, a) ==> CapturedAt(ProcessAll(t, arrows, s, fs).w, g, x))
  {
    var a, g := fs[k].scope, EnclosingOrdinary(t, arrows, fs[k].scope);
    ArrowSeesEnclosing(t, arrows, s, fs, k, x);
    EnclosingIsNoArrow(t, arrows, a);
    EnclosingIsAround(t, arrows, a);
    DoneBefore(t, arrows, fs, root, k, g);
  }

  /** A function around another is done before it exactly when it is around it with its body. */
  lemma DoneBefore(t: Skeleton, arrows: set<nat>, fs: seq<FunctionInfo>, root: Node, k: nat, g: nat)
    requires ListedInOrder(t, arrows, fs, root) && k < |fs| && g < |t| && g != fs[k].scope
    requires Encloses(t, g, fs[k].scope) || (t[g].kind == FUNCTION && Encloses(t, ParamScopeOf(t, g), fs[k].scope))
    ensures g in Done(fs[..k]) <==> g in Done(fs) && Encloses(t, g, fs[k].scope)
  {
    if g in Done(fs) {
      var i :| 0 <= i < |fs| && fs[i].scope == g;
      DefaultsComeFirst(t, root, i, k);
      if i < k {
        assert fs[..k][i].scope == g;
      }
    }
  }

  /** Where every function is listed that holds anything, the enclosing ordinary function of an arrow is. */
  lemma EnclosingIsListed(t: Skeleton, arrows: set<nat>, fs: seq<FunctionInfo>, root: Node, k: nat)
    requires ListedInOrder(t, arrows, fs, root) && Complete(t, root) && k < |fs|
    ensures EnclosingOrdinary(t, arrows, fs[k].scope) in Done(fs)
  {
    var a, g := fs[k].scope, EnclosingOrdinary(t, arrows, fs[k].scope);
    assert Entries(root)[k] == a;
    EnclosingIsAround(t, arrows, a);
    assert WellFormedAt(t, g);
    if t[g].kind == FUNCTION {
      EnclosesTwice(t, ParamScopeOf(t, g), g, g);
      if Encloses(t, g, a) {
        EnclosesTwice(t, ParamScopeOf(t, g), g, a);
      }
      AroundIsListed(t, root, g, a);
    } else {
      TopIsListed(root);
    }
    var i :| 0 <= i < |fs| && Entries(root)[i] == g;
    assert fs[i].scope == g;
  }

  lemma TopIsListed(root: Node)
    requires root.FunctionNode? && root.listed
    ensures root.scope in Entries(root)
  {
    assert Entries(root) == EntriesAll(root, root.params) + ([root.scope] + EntriesAll(root, root.body));
    assert ([root.scope] + EntriesAll(root, root.body))[0] == root.scope;
  }

  // ----- two programs

  function Bare(scope: nat, arrow: bool): FunctionInfo {
    FunctionInfo(scope, arrow, false, false, arrow, false)
  }

  /** `function g(a = () => this) {}`: the arrow comes before `g` in the list and finds the `this` of the top level. */
  function DefaultArrow(): (Skeleton, seq<FunctionInfo>) {
    ([ScopeNode(GLOBAL, None, None), ScopeNode(FUNCTION_PARAM, Some(0), Some(2)), ScopeNode(FUNCTION, Some(1), None),
      ScopeNode(FUNCTION_PARAM, Some(1), Some(4)), ScopeNode(FUNCTION, Some(3), None)],
     [Bare(0, false), Bare(4, true), Bare(2, false)])
  }

  function DefaultArrowTree(): Node {
    FunctionNode(0, true, [], [FunctionNode(2, true, [FunctionNode(4, true, [], [])], [])])
  }

  lemma DefaultArrowScopes()
    ensures var t := DefaultArrow().0;
      && WellFormed(t) && Host(t, 1) == 2 && Host(t, 3) == 4 && Parent(t, 4) == 3 && Parent(t, 3) == 1
         && Parent(t, 1) == 0
      && EnclosingOrdinary(t, {4}, 4) == 2
  {
    var t := DefaultArrow().0;
    forall i | 0 <= i < |t| ensures WellFormedAt(t, i) {
    }
    assert WellFormed(t);
    assert EnclosingOrdinary(t, {4}, 4) == EnclosingOrdinary(t, {4}, 3) == EnclosingOrdinary(t, {4}, 1) == 2;
  }

  lemma EntriesStep(n: Node, c: Node, ns: seq<Node>)
    requires PartsOf([c] + ns, n) && PartsOf(ns, n)
    ensures EntriesAll(n, [c] + ns) == Entries(c) + EntriesAll(n, ns)
  {
    assert ([c] + ns)[0] == c && ([c] + ns)[1..] == ns;
  }

  lemma BodyEntry(n: Node, c: Node)
    requires n.FunctionNode? && n.listed && n.params == [] && n.body == [c]
    ensures Entries(n) == [n.scope] + Entries(c)
  {
    assert n.body[0] < n;
    assert [c] == [c] + [];
    EntriesStep(n, c, []);
  }

  lemma ParamEntry(n: Node, c: Node)
    requires n.FunctionNode? && n.listed && n.params == [c] && n.body == []
    ensures Entries(n) == Entries(c) + [n.scope]
  {
    assert n.params[0] < n;
    assert [c] == [c] + [];
    EntriesStep(n, c, []);
  }

  /** A program whose top level holds one function or class. */
  lemma OneNodeProgram(t: Skeleton, arrows: set<nat>, fs: seq<FunctionInfo>, root: Node, c: Node)
    requires Listing(t, arrows, fs) && 0 !in arrows && root == FunctionNode(0, true, [], [c])
    requires Fits(t, c) && IsInner(t, c) && Holder(t, c) == 0
    requires |fs| == 1 + |Entries(c)| && fs[0].scope == 0
    requires forall i :: 0 <= i < |Entries(c)| ==> fs[i + 1].scope == Entries(c)[i]
    ensures ListedInOrder(t, arrows, fs, root)
    ensures Complete(t, c) ==> Complete(t, root)
  {
    BodyEntry(root, c);
  }

  lemma LeafFits(t: Skeleton, c: Node)
    requires WellFormed(t) && IsInner(t, c) && IsInitializer(c)
    ensures Fits(t, c)
    ensures c.listed ==> Entries(c) == [c.scope]
    ensures Complete(t, c)
  {
    assert WellFormedAt(t, 0);
  }

  /** A function with a default value that is a function. */
  lemma DefaultFits(t: Skeleton, g: Node, c: Node)
    requires WellFormed(t) && IsInner(t, g) && g == FunctionNode(g.scope, true, [c], [])
    requires IsInner(t, c) && IsInitializer(c) && c.listed && Holder(t, c) == ParamScopeOf(t, g.scope)
    ensures Fits(t, g) && Complete(t, g) && Entries(g) == [c.scope, g.scope]
  {
    LeafFits(t, c);
    ParamEntry(g, c);
  }

  lemma DefaultArrowListing()
    ensures Listing(DefaultArrow().0, {4}, DefaultArrow().1)
  {
    DefaultArrowScopes();
  }

  lemma DefaultArrowFits()
    ensures var t, g := DefaultArrow().0, DefaultArrowTree().body[0];
      && WellFormed(t) && Fits(t, g) && Complete(t, g) && IsInner(t, g) && Holder(t, g) == 0 && Entries(g) == [4, 2]
  {
    var t, g := DefaultArrow().0, DefaultArrowTree().body[0];
    DefaultArrowScopes();
    assert Around(t, 1) == 1 && Around(t, 0) == 0;
    DefaultFits(t, g, g.params[0]);
  }

  lemma DefaultArrowIsListed()
    ensures var (t, fs) := DefaultArrow();
      ListedInOrder(t, {4}, fs, DefaultArrowTree()) && Complete(t, DefaultArrowTree())
  {
    var fs := DefaultArrow().1;
    DefaultArrowListing();
    DefaultArrowFits();
    assert fs[0].scope == 0 && fs[1].scope == 4 && fs[2].scope == 2;
    OneNodeProgram(DefaultArrow().0, {4}, fs, DefaultArrowTree(), DefaultArrowTree().body[0]);
  }

  /** Where only the top level binds `this`, the arrow's lookup goes there. */
  lemma DefaultArrowResolves(b: seq<map<string, nat>>, done: set<nat>)
    requires |b| == 5 && WellFormed(DefaultArrow().0)
    requires HiddenEverywhere(DefaultArrow().0, b, done, {0})
    ensures var r := Resolve(DefaultArrow().0, b, THIS, 4);
      r.Resolved? && r.scope == 0
  {
    var t := DefaultArrow().0;
    DefaultArrowScopes();
    assert HiddenAt(t, b, done, {0}, 0) && HiddenAt(t, b, done, {0}, 1);
    assert HiddenAt(t, b, done, {0}, 3) && HiddenAt(t, b, done, {0}, 4);
    assert Resolve(t, b, THIS, 1) == Resolve(t, b, THIS, 0);
    assert Resolve(t, b, THIS, 4) == Resolve(t, b, THIS, 3) == Resolve(t, b, THIS, 1);
  }

  lemma DefaultArrowMissesThis()
    ensures var (t, fs) := DefaultArrow();
      && ListedInOrder(t, {4}, fs, DefaultArrowTree()) && EnclosingOrdinary(t, {4}, 4) == 2
      && StateOf(t, EmptyState(t)) && Hidden(t, EmptyState(t).w, {}, {})
      && AtLookup(t, {4}, EmptyState(t), fs, 1, THIS) == Some(0)
  {
    DefaultArrowScopes();
    DefaultArrowIsListed();
    EmptyStateOk(DefaultArrow().0);
    DefaultArrowFinds(DefaultArrow().0, DefaultArrow().1, EmptyState(DefaultArrow().0));
  }

  lemma DefaultArrowFinds(t: Skeleton, fs: seq<FunctionInfo>, s: State)
    requires (t, fs) == DefaultArrow() && Listing(t, {4}, fs) && StateOf(t, s) && Hidden(t, s.w, {}, {})
    ensures AtLookup(t, {4}, s, fs, 1, THIS) == Some(0)
  {
    assert fs[0] == Bare(0, false) && fs[1] == Bare(4, true);
    ListingPrefix(t, {4}, fs, 1);
    DefaultArrowDone(fs);
    var before := ProcessAll(t, {4}, s, fs[..1]);
    NotDoneIsUnbound(t, before.w, fs[1], {0}, {0});
    AddedKeepsHidden(t, before, fs[1], {0}, {0});
    DefaultArrowResolves(AddMandatoryParams(t, before, 4, TableOf(fs[1])).w.bindings, {0} + {4});
  }

  lemma DefaultArrowDone(fs: seq<FunctionInfo>)
    requires |fs| >= 2 && fs[0] == Bare(0, false) && fs[1] == Bare(4, true)
    ensures Done(fs[..1]) == {0} && OrdinaryOf(fs[..1]) == {0} && {0} + Ordinary(fs[1]) == {0}
  {
    assert fs[..1] == [fs[0]];
  }

  /** `class C { m() {} x = () => this; }`: the list is top level, constructor, instance initializer, `m`, arrow. */
  function FieldArrow(): (Skeleton, seq<FunctionInfo>) {
    ([ScopeNode(GLOBAL, None, None), ScopeNode(CLASS, Some(0), None),
      ScopeNode(FUNCTION_PARAM, Some(1), Some(3)), ScopeNode(FUNCTION, Some(2), None),
      ScopeNode(FUNCTION_PARAM, Some(1), Some(5)), ScopeNode(FUNCTION, Some(4), None),
      ScopeNode(FUNCTION_PARAM, Some(1), Some(7)), ScopeNode(FUNCTION, Some(6), None),
      ScopeNode(FUNCTION_PARAM, Some(5), Some(9)), ScopeNode(FUNCTION, Some(8), None),
      ScopeNode(FUNCTION_PARAM, Some(1), Some(11)), ScopeNode(FUNCTION, Some(10), None)],
     [Bare(0, false), Bare(11, false), Bare(5, false), Bare(7, false), Bare(9, true)])
  }

  function FieldArrowTree(): Node {
    FunctionNode(0, true, [], [
      ClassNode(1, [], FunctionNode(3, false, [], []), FunctionNode(11, true, [], []), FunctionNode(5, true, [], []),
                [Method([FunctionNode(7, true, [], [])]), Field(false, [], [FunctionNode(9, true, [], [])])])])
  }

  lemma FieldArrowScopes()
    ensures var t := FieldArrow().0; WellFormed(t) && EnclosingOrdinary(t, {9}, 9) == 5 && Encloses(t, 5, 9)
  {
    var t := FieldArrow().0;
    forall i | 0 <= i < |t| ensures WellFormedAt(t, i) {
    }
    assert WellFormed(t);
    assert Parent(t, 9) == 8 && Parent(t, 8) == 5 && Host(t, 8) == 9;
    assert EnclosingOrdinary(t, {9}, 9) == EnclosingOrdinary(t, {9}, 8) == EnclosingOrdinary(t, {9}, 5);
    assert Encloses(t, 5, 8);
  }

  /** A class with one method and one field, none of them with parts but the field's function. */
  predicate MethodThenField(n: Node, m: Node, a: Node) {
    && n.ClassNode? && n.heritage == [] && n.elements == [Method([m]), Field(false, [], [a])]
    && IsInitializer(n.staticInit) && IsInitializer(n.constructorNode) && IsInitializer(n.instanceInit)
    && IsInitializer(m) && IsInitializer(a)
    && !n.staticInit.listed && n.constructorNode.listed && n.instanceInit.listed && m.listed && a.listed
  }

  lemma MethodThenFieldVisits(n: Node, m: Node, a: Node)
    requires MethodThenField(n, m, a)
    ensures Visits(n) == [n.staticInit, n.constructorNode, n.instanceInit, m, a]
  {
    TwoElements(Method([m]), Field(false, [], [a]), true);
    TwoElements(Method([m]), Field(false, [], [a]), false);
    assert NodesOf(Field(false, [], [a])) == [a];
    assert ElementVisits(n.elements, true) == [] && ElementVisits(n.elements, false) == [m, a];
  }

  lemma TwoElements(e: Element, e': Element, early: bool)
    ensures ElementVisits([e, e'], early) ==
            (if IsEarly(e) == early then NodesOf(e) else []) + (if IsEarly(e') == early then NodesOf(e') else [])
  {
    assert [e, e'][1..] == [e'] && [e'][1..] == [];
    assert ElementVisits([], early) == [];
    assert ElementVisits([e'], early) == if IsEarly(e') == early then NodesOf(e') else [];
  }

  function ListedScopes(ns: seq<Node>): seq<nat> {
    if ns == [] then [] else (if ns[0].FunctionNode? && ns[0].listed then [ns[0].scope] else []) + ListedScopes(ns[1..])
  }

  lemma {:induction false} LeafEntries(n: Node, ns: seq<Node>)
    requires PartsOf(ns, n) && forall i :: 0 <= i < |ns| ==> IsInitializer(ns[i])
    ensures EntriesAll(n, ns) == ListedScopes(ns)
    decreases |ns|
  {
    if ns != [] {
      LeafEntries(n, ns[1..]);
      assert IsInitializer(ns[0]);
      assert Entries(ns[0]) == if ns[0].listed then [ns[0].scope] else [];
    }
  }

  lemma MethodThenFieldEntries(n: Node, m: Node, a: Node)
    requires MethodThenField(n, m, a)
    ensures Entries(n) == [n.constructorNode.scope, n.instanceInit.scope, m.scope, a.scope]
  {
    MethodThenFieldVisits(n, m, a);
    LeafEntries(n, Visits(n));
    var v := Visits(n);
    assert v[4..] == [a] && v[3..][1..] == v[4..] && v[2..][1..] == v[3..] && v[1..][1..] == v[2..];
    assert [a][1..] == [] && ListedScopes([a]) == [a.scope];
    assert ListedScopes(v[3..]) == [m.scope] + ListedScopes([a]);
    assert ListedScopes(v[1..]) == [n.constructorNode.scope, n.instanceInit.scope] + ListedScopes(v[3..]);
  }

  lemma MethodThenFieldFits(t: Skeleton, n: Node, m: Node, a: Node)
    requires WellFormed(t) && n.scope < |t| && t[n.scope].kind == CLASS && MethodThenField(n, m, a)
    requires HangIn(t, [n.staticInit, n.constructorNode, n.instanceInit], n.scope)
    requires HangIn(t, [m], n.scope) && HangIn(t, [a], n.instanceInit.scope)
    requires OwnScopes([n.staticInit, n.constructorNode, n.instanceInit, m, a])
    ensures Fits(t, n)
  {
    MethodThenFieldVisits(n, m, a);
    var v, three := Visits(n), [n.staticInit, n.constructorNode, n.instanceInit];
    assert IsInner(t, three[0]) && IsInner(t, three[1]) && IsInner(t, three[2]);
    assert IsInner(t, [m][0]) && IsInner(t, [a][0]);
    assert ElementHangs(t, n, n.elements[0]) && ElementHangs(t, n, n.elements[1]);
    forall i | 0 <= i < |v| ensures v[i] < n && Fits(t, v[i]) {
      assert PartsOf(v, n);
      LeafFits(t, v[i]);
    }
  }

  lemma NotHung(t: Skeleton, c: Node, h: nat)
    requires WellFormed(t) && IsInner(t, c) && Holder(t, c) != h
    ensures !HangIn(t, [c], h)
  {
    assert [c][0] == c;
  }

  lemma MethodThenFieldComplete(t: Skeleton, n: Node, m: Node, a: Node)
    requires WellFormed(t) && MethodThenField(n, m, a)
    requires forall c :: c in Visits(n) ==> IsInner(t, c) && Holder(t, c) != n.staticInit.scope
    ensures Complete(t, n)
  {
    MethodThenFieldVisits(n, m, a);
    LeafFits(t, Visits(n)[2]);
    forall i | 0 <= i < |Visits(n)|
      ensures Visits(n)[i] < n && Complete(t, Visits(n)[i]) && !HangIn(t, [Visits(n)[i]], n.staticInit.scope)
    {
      assert PartsOf(Visits(n), n);
      LeafFits(t, Visits(n)[i]);
      NotHung(t, Visits(n)[i], n.staticInit.scope);
    }
  }

  lemma FieldArrowHolders()
    ensures var t, n := FieldArrow().0, FieldArrowTree().body[0];
      && WellFormed(t) && IsInner(t, n) && Holder(t, n) == 0
      && HangIn(t, [n.staticInit, n.constructorNode, n.instanceInit], n.scope)
      && HangIn(t, n.elements[0].nodes, n.scope) && HangIn(t, n.elements[1].value, n.instanceInit.scope)
  {
    FieldArrowScopes();
    var t := FieldArrow().0;
    assert Around(t, 1) == 1 && Around(t, 5) == 5 && Around(t, 0) == 0;
  }

  lemma MethodThenFieldHolders(t: Skeleton, n: Node, m: Node, a: Node)
    requires WellFormed(t) && n.scope < |t| && t[n.scope].kind == CLASS && MethodThenField(n, m, a)
    requires HangIn(t, [n.staticInit, n.constructorNode, n.instanceInit], n.scope)
    requires HangIn(t, [m], n.scope) && HangIn(t, [a], n.instanceInit.scope)
    requires n.staticInit.scope != n.instanceInit.scope
    ensures forall c :: c in Visits(n) ==> IsInner(t, c) && Holder(t, c) != n.staticInit.scope
  {
    MethodThenFieldVisits(n, m, a);
    var three := [n.staticInit, n.constructorNode, n.instanceInit];
    HangsIn(t, three, n.scope, three[0]);
    forall c | c in Visits(n) ensures IsInner(t, c) && Holder(t, c) != n.staticInit.scope {
      if c in three {
        HangsIn(t, three, n.scope, c);
      } else {
        assert [m][0] == m && [a][0] == a;
      }
    }
  }

  lemma FieldArrowFits()
    ensures var t, n := FieldArrow().0, FieldArrowTree().body[0];
      WellFormed(t) && Fits(t, n) && Complete(t, n)
  {
    var n := FieldArrowTree().body[0];
    FieldArrowHolders();
    MethodThenFieldFits(FieldArrow().0, n, n.elements[0].nodes[0], n.elements[1].value[0]);
    MethodThenFieldHolders(FieldArrow().0, n, n.elements[0].nodes[0], n.elements[1].value[0]);
    MethodThenFieldComplete(FieldArrow().0, n, n.elements[0].nodes[0], n.elements[1].value[0]);
  }

  lemma FieldArrowListing()
    ensures var (t, fs) := FieldArrow();
      && Listing(t, {9}, fs) && |fs| == 5 && fs[0].scope == 0
      && fs[1].scope == 11 && fs[2].scope == 5 && fs[3].scope == 7 && fs[4].scope == 9
  {
    FieldArrowScopes();
  }

  lemma FieldArrowEntries()
    ensures Entries(FieldArrowTree().body[0]) == [11, 5, 7, 9]
  {
    var n := FieldArrowTree().body[0];
    MethodThenFieldEntries(n, n.elements[0].nodes[0], n.elements[1].value[0]);
  }

  lemma FiveFunctions(t: Skeleton, fs: seq<FunctionInfo>, root: Node, c: Node)
    requires Listing(t, {9}, fs) && root == FunctionNode(0, true, [], [c])
    requires Fits(t, c) && IsInner(t, c) && Holder(t, c) == 0 && Entries(c) == [11, 5, 7, 9]
    requires |fs| == 5 && fs[0].scope == 0 && Complete(t, c)
    requires fs[1].scope == 11 && fs[2].scope == 5 && fs[3].scope == 7 && fs[4].scope == 9
    ensures ListedInOrder(t, {9}, fs, root) && Complete(t, root)
  {
    OneNodeProgram(t, {9}, fs, root, c);
  }

  lemma FieldArrowIsListed()
    ensures ListedInOrder(FieldArrow().0, {9}, FieldArrow().1, FieldArrowTree())
    ensures Complete(FieldArrow().0, FieldArrowTree())
  {
    FieldArrowListing();
    FieldArrowHolders();
    FieldArrowFits();
    FieldArrowEntries();
    FiveFunctions(FieldArrow().0, FieldArrow().1, FieldArrowTree(), FieldArrowTree().body[0]);
  }

  /** In a program that declares nothing but functions. */
  lemma EmptySeesEnclosing(t: Skeleton, arrows: set<nat>, fs: seq<FunctionInfo>, root: Node, k: nat)
    requires ListedInOrder(t, arrows, fs, root) && Complete(t, root)
    requires k < |fs| && fs[k].arrow && fs[k].usesThisOrSuper
    requires Encloses(t, EnclosingOrdinary(t, arrows, fs[k].scope), fs[k].scope)
    ensures StateOf(t, EmptyState(t)) && Hidden(t, EmptyState(t).w, {}, {})
    ensures AtLookup(t, arrows, EmptyState(t), fs, k, THIS) == Some(EnclosingOrdinary(t, arrows, fs[k].scope))
  {
    EmptyStateOk(t);
    EnclosingIsListed(t, arrows, fs, root, k);
    ArrowSeesEnclosingFromBody(t, arrows, EmptyState(t), fs, root, k, THIS);
  }

  /** A method between the initializer and the function of its field does no harm. */
  lemma FieldArrowSeesThis()
    ensures var (t, fs) := FieldArrow();
      && ListedInOrder(t, {9}, fs, FieldArrowTree()) && Complete(t, FieldArrowTree())
      && EnclosingOrdinary(t, {9}, 9) == 5
      && StateOf(t, EmptyState(t)) && Hidden(t, EmptyState(t).w, {}, {})
      && AtLookup(t, {9}, EmptyState(t), fs, 4, THIS) == Some(5)
  {
    FieldArrowScopes();
    FieldArrowIsListed();
    var fs := FieldArrow().1;
    assert fs[4] == Bare(9, true);
    EmptySeesEnclosing(FieldArrow().0, {9}, fs, FieldArrowTree(), 4);
  }

  /** A class with every kind of element; its parts hold nothing further. */
  lemma EveryElement(n: Node, h: Node, m: Node, k: Node, v: Node, sk: Node, sv: Node, b: Node)
    requires n.ClassNode? && n.heritage == [h]
    requires n.elements == [Method([m]), Field(false, [k], [v]), Field(true, [sk], [sv]), StaticBlock([b])]
    requires ListedLeaves([h, n.staticInit, sk, sv, b, n.constructorNode, n.instanceInit, m, k, v])
    ensures Entries(n) ==
            [h.scope, n.staticInit.scope, sk.scope, sv.scope, b.scope, n.constructorNode.scope, n.instanceInit.scope,
             m.scope, k.scope, v.scope]
  {
    EveryElementVisits(n, h, m, k, v, sk, sv, b);
    LeafEntries(n, Visits(n));
    AllListed(Visits(n));
  }

  predicate ListedLeaves(ns: seq<Node>) {
    forall i :: 0 <= i < |ns| ==> IsInitializer(ns[i]) && ns[i].listed
  }

  lemma {:induction false} AllListed(ns: seq<Node>)
    requires ListedLeaves(ns)
    ensures |ListedScopes(ns)| == |ns| && forall i :: 0 <= i < |ns| ==> ListedScopes(ns)[i] == ns[i].scope
    decreases |ns|
  {
    if ns != [] {
      AllListed(ns[1..]);
    }
  }

  lemma EveryElementVisits(n: Node, h: Node, m: Node, k: Node, v: Node, sk: Node, sv: Node, b: Node)
    requires n.ClassNode? && n.heritage == [h]
    requires n.elements == [Method([m]), Field(false, [k], [v]), Field(true, [sk], [sv]), StaticBlock([b])]
    ensures Visits(n) == [h, n.staticInit, sk, sv, b, n.constructorNode, n.instanceInit, m, k, v]
  {
    var front, back := [Method([m]), Field(false, [k], [v])], [Field(true, [sk], [sv]), StaticBlock([b])];
    assert n.elements == front + back;
    ElementsJoin(front, back, true);
    ElementsJoin(front, back, false);
    TwoElements(front[0], front[1], true);
    TwoElements(front[0], front[1], false);
    TwoElements(back[0], back[1], true);
    TwoElements(back[0], back[1], false);
    assert NodesOf(front[1]) == [k, v] && NodesOf(back[0]) == [sk, sv];
  }

  lemma {:induction false} ElementsJoin(es: seq<Element>, fs: seq<Element>, early: bool)
    ensures ElementVisits(es + fs, early) == ElementVisits(es, early) + ElementVisits(fs, early)
    decreases |es|
  {
    if es == [] {
      assert es + fs == fs;
    } else {
      assert (es + fs)[1..] == es[1..] + fs;
      ElementsJoin(es[1..], fs, early);
    }
  }
}
