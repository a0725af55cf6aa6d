/** Owners, activations and environments, by kinds alone. */
module ScopePlaces {
  import opened Options
  import opened ScopeTree
  import opened LexicalAddress
  import opened LexicalCapture
  import opened MandatoryParams
  import opened ArrowThis
  import opened ClassLevel
  import opened BindingRun
  import opened FinalAddresses

  /** The kinds with an environment of their own at run time, when a variable of theirs is captured. */
  predicate HoldsVariables(kind: ScopeType) {
    kind in {CLASS, LOOP, FUNCTION, STATIC_BLOCK, GLOBAL, MODULE}
  }

  /** The kinds whose code runs in an activation of its own. */
  predicate StartsActivation(kind: ScopeType) {
    kind in {FUNCTION, STATIC_BLOCK, GLOBAL, MODULE}
  }

  /** The order of the enumeration makes exactly these kinds variable scopes and function variable scopes. */
  lemma KindsAreThese(kind: ScopeType)
    ensures IsVariableScope(kind) <==> HoldsVariables(kind)
    ensures IsFunctionVariableScope(kind) <==> StartsActivation(kind)
  {
  }

  /** Of the scopes around `i`, itself included, `o` is the innermost with the property. */
  ghost predicate Innermost(t: Skeleton, i: nat, o: nat, p: ScopeType -> bool)
    requires WellFormed(t) && i < |t|
  {
    && o < |t| && Encloses(t, o, i) && p(t[o].kind)
    && forall a :: 0 <= a < |t| && Encloses(t, a, i) && p(t[a].kind) ==> Encloses(t, a, o)
  }

  lemma InnermostIsOne(t: Skeleton, i: nat, o: nat, o': nat, p: ScopeType -> bool)
    requires WellFormed(t) && i < |t| && Innermost(t, i, o, p) && Innermost(t, i, o', p)
    ensures o == o'
  {
    assert Encloses(t, o, o') && Encloses(t, o', o);
  }

  lemma InnermostAtSelf(t: Skeleton, i: nat, p: ScopeType -> bool)
    requires WellFormed(t) && i < |t| && p(t[i].kind)
    ensures Innermost(t, i, i, p)
  {
  }

  lemma InnermostFromParent(t: Skeleton, i: nat, o: nat, p: ScopeType -> bool)
    requires WellFormed(t) && 0 < i < |t| && !p(t[i].kind) && Innermost(t, Parent(t, i), o, p)
    ensures Innermost(t, i, o, p)
  {
    forall a | 0 <= a < |t| && Encloses(t, a, i) && p(t[a].kind) ensures Encloses(t, a, o) {
      assert Encloses(t, a, Parent(t, i));
    }
  }

  /** Variables of a scope belong to the innermost scope around it that holds variables, those of a parameter scope to
      its function. */
  lemma {:induction false} OwnerIsInnermost(t: Skeleton, i: nat, o: nat)
    requires WellFormed(t) && i < |t|
    ensures o == Owner(t, i) <==>
            if t[i].kind == FUNCTION_PARAM then o == FunctionOf(t, i) else Innermost(t, i, o, HoldsVariables)
    decreases i
  {
    assert WellFormedAt(t, i);
    if t[i].kind != FUNCTION_PARAM {
      OwnerHolds(t, i);
      if Innermost(t, i, o, HoldsVariables) {
        InnermostIsOne(t, i, o, Owner(t, i), HoldsVariables);
      }
    }
  }

  lemma {:induction false} OwnerHolds(t: Skeleton, i: nat)
    requires WellFormed(t) && i < |t| && t[i].kind != FUNCTION_PARAM
    ensures Innermost(t, i, Owner(t, i), HoldsVariables)
    decreases i
  {
    assert WellFormedAt(t, i);
    KindsAreThese(t[i].kind);
    if HoldsVariables(t[i].kind) {
      InnermostAtSelf(t, i, HoldsVariables);
    } else {
      OwnerHolds(t, Parent(t, i));
      InnermostFromParent(t, i, Owner(t, i), HoldsVariables);
    }
  }

  /** Code runs in the activation of the innermost scope around it that starts one; default values run in that of the
      function. */
  lemma {:induction false} ActivationIsInnermost(t: Skeleton, i: nat, a: nat)
    requires WellFormed(t) && i < |t|
    ensures a == Activation(t, i) <==> RunsIn(t, i, a)
    decreases i
  {
    ActivationRuns(t, i);
    if RunsIn(t, i, a) {
      RunsInOne(t, i, a, Activation(t, i));
    }
  }

  /** A parameter scope counts as its function. */
  predicate MayRunIn(t: Skeleton, a: nat)
    requires WellFormed(t) && a < |t|
  {
    t[a].kind == FUNCTION_PARAM || StartsActivation(t[a].kind)
  }

  /** The function of a parameter scope, and otherwise the scope itself. */
  function ActivationOf(t: Skeleton, b: nat): nat
    requires WellFormed(t) && b < |t|
  {
    if t[b].kind == FUNCTION_PARAM then FunctionOf(t, b) else b
  }

  /** `a` is the activation of the innermost parameter scope or scope with an activation around `i`. */
  ghost predicate RunsIn(t: Skeleton, i: nat, a: nat)
    requires WellFormed(t) && i < |t|
  {
    exists b :: 0 <= b < |t| && IsNearestRun(t, i, b) && a == ActivationOf(t, b)
  }

  ghost predicate IsNearestRun(t: Skeleton, i: nat, b: nat)
    requires WellFormed(t) && i < |t|
  {
    && b < |t| && Encloses(t, b, i) && MayRunIn(t, b)
    && forall c :: 0 <= c < |t| && Encloses(t, c, i) && MayRunIn(t, c) ==> Encloses(t, c, b)
  }

  lemma RunsInOne(t: Skeleton, i: nat, a: nat, a': nat)
    requires WellFormed(t) && i < |t| && RunsIn(t, i, a) && RunsIn(t, i, a')
    ensures a == a'
  {
    var b :| 0 <= b < |t| && IsNearestRun(t, i, b) && a == ActivationOf(t, b);
    var b' :| 0 <= b' < |t| && IsNearestRun(t, i, b') && a' == ActivationOf(t, b');
    assert Encloses(t, b, b') && Encloses(t, b', b);
  }

  lemma {:induction false} ActivationRuns(t: Skeleton, i: nat)
    requires WellFormed(t) && i < |t|
    ensures RunsIn(t, i, Activation(t, i))
    decreases i
  {
    assert WellFormedAt(t, i);
    KindsAreThese(t[i].kind);
    if MayRunIn(t, i) {
      assert IsNearestRun(t, i, i);
    } else {
      var p := Parent(t, i);
      ActivationRuns(t, p);
      var b :| 0 <= b < |t| && IsNearestRun(t, p, b) && Activation(t, p) == ActivationOf(t, b);
      assert IsNearestRun(t, i, b);
    }
  }

  // ----- the run-time chain

  /** On the chain of the code in scope `i` are exactly the scopes around it that hold variables and have slots; a
      function is there from its parameter scope on. */
  lemma {:induction false} ChainIsThese(t: Skeleton, w: World, i: nat, x: nat)
    requires WellFormed(t) && |w.slots| == |t| && i < |t|
    ensures x in EnvChain(t, w, i) <==>
            x < |t| && HoldsVariables(t[x].kind) && w.slots[x] > 0 && Encloses(t, Rank(t, x), i)
    decreases i
  {
    assert WellFormedAt(t, i);
    KindsAreThese(t[i].kind);
    if i > 0 {
      ChainIsThese(t, w, Parent(t, i), x);
    }
    if x < |t| && t[x].kind == FUNCTION {
      assert FunctionOf(t, Rank(t, x)) == x;
    }
  }

  /** They stand in the chain from the inside out. */
  lemma ChainIsInsideOut(t: Skeleton, w: World, i: nat, a: nat, b: nat)
    requires WellFormed(t) && |w.slots| == |t| && i < |t| && a < b < |EnvChain(t, w, i)|
    ensures var x, y := EnvChain(t, w, i)[a], EnvChain(t, w, i)[b];
      x < |t| && y < |t| && Rank(t, x) != Rank(t, y) && Encloses(t, Rank(t, y), Rank(t, x))
  {
    var x, y := EnvChain(t, w, i)[a], EnvChain(t, w, i)[b];
    ChainDescends(t, w, i);
    ChainIsThese(t, w, i, x);
    ChainIsThese(t, w, i, y);
    EnclosingAreNested(t, Rank(t, x), Rank(t, y), i);
  }

  // ----- what names and `this` resolve to

  /** A name resolves to the innermost scope around the reference that binds it, and to nothing when none does. */
  lemma {:induction false} ResolveIsInnermost(t: Skeleton, b: seq<map<string, nat>>, name: string, i: nat,
                                              s: nat, v: nat)
    requires WellFormed(t) && |b| == |t| && i < |t|
    ensures Resolve(t, b, name, i) == Resolved(s, v) <==>
            && s < |t| && Encloses(t, s, i) && name in b[s] && v == b[s][name]
            && forall a :: 0 <= a < |t| && Encloses(t, a, i) && name in b[a] ==> Encloses(t, a, s)
    ensures Resolve(t, b, name, i) == Unresolved <==> forall a :: 0 <= a < |t| && Encloses(t, a, i) ==> name !in b[a]
    decreases i
  {
    if name !in b[i] && i > 0 {
      ResolveIsInnermost(t, b, name, Parent(t, i), s, v);
    }
    if name in b[i] && s < |t| && Encloses(t, s, i) && Encloses(t, i, s) {
      assert s == i;
    }
  }

  /** Function `g`, no arrow, is around scope `i`, from its parameter scope on; the top level is around everything. */
  predicate OrdinaryAround(t: Skeleton, arrows: set<nat>, g: nat, i: nat)
    requires WellFormed(t) && i < |t|
  {
    g == 0 || (g < |t| && t[g].kind == FUNCTION && g !in arrows && Encloses(t, Rank(t, g), i))
  }

  /** The enclosing ordinary function of a scope is the innermost one around it. */
  lemma {:induction false} EnclosingIsInnermost(t: Skeleton, arrows: set<nat>, i: nat)
    requires WellFormed(t) && i < |t| && 0 !in arrows
    ensures var g := EnclosingOrdinary(t, arrows, i);
      && OrdinaryAround(t, arrows, g, i)
      && forall h: nat :: OrdinaryAround(t, arrows, h, i) ==> Encloses(t, Rank(t, h), Rank(t, g))
    decreases i
  {
    assert WellFormedAt(t, i) && WellFormedAt(t, 0);
    TopEncloses(t, Rank(t, EnclosingOrdinary(t, arrows, i)));
    if !(IsFunction(t, Host(t, i)) && (Host(t, i) !in arrows || i == 0)) {
      EnclosingIsInnermost(t, arrows, Parent(t, i));
      forall h: nat | OrdinaryAround(t, arrows, h, i)
        ensures OrdinaryAround(t, arrows, h, Parent(t, i))
      {
        if h != 0 {
          assert FunctionOf(t, Rank(t, h)) == h;
        }
      }
    } else {
      HostIsInnermostFunction(t, arrows, i);
    }
  }

  lemma {:induction false} TopEncloses(t: Skeleton, i: nat)
    requires WellFormed(t) && i < |t|
    ensures Encloses(t, 0, i)
    decreases i
  {
    if i > 0 {
      TopEncloses(t, Parent(t, i));
    }
  }

  lemma HostIsInnermostFunction(t: Skeleton, arrows: set<nat>, i: nat)
    requires WellFormed(t) && i < |t| && 0 !in arrows && IsFunction(t, Host(t, i)) && Host(t, i) !in arrows
    ensures OrdinaryAround(t, arrows, Host(t, i), i)
    ensures forall h: nat :: OrdinaryAround(t, arrows, h, i) ==> Encloses(t, Rank(t, h), Rank(t, Host(t, i)))
  {
    assert WellFormedAt(t, i) && WellFormedAt(t, 0);
    var g := Host(t, i);
    TopEncloses(t, Rank(t, g));
    if t[i].kind == FUNCTION {
      assert Rank(t, i) == Parent(t, i) && Encloses(t, Rank(t, i), i);
    }
    forall h: nat | OrdinaryAround(t, arrows, h, i) && h != 0 ensures Encloses(t, Rank(t, h), Rank(t, g)) {
      assert t[Rank(t, h)].kind == FUNCTION_PARAM;
    }
  }

  // ----- captured variables of loops, classes and all other scopes that hold variables

  /** Once binding is finished a captured variable that scope `i` binds is addressed in the environment of `i` itself:
      for a loop, that of the iteration. */
  lemma CapturedInOwnScope(b: Binding, name: string, start: nat, i: nat, v: nat)
    requires BindingOk(b) && start < |b.t| && Resolve(b.t, Final(b).bindings, name, start) == Resolved(i, v)
    requires i < |b.t| && HoldsVariables(b.t[i].kind) && v < |Final(b).vars| && Final(b).vars[v].lexicalBound
    ensures Cell(b.t, Final(b), name, start) == Some((i, Final(b).vars[v].slot))
    ensures Final(b).vars[v].slot < Final(b).slots[i]
  {
    var w := Final(b);
    assert BindingsAt(b.t, w, i);
    InnermostAtSelf(b.t, i, HoldsVariables);
    OwnerIsInnermost(b.t, i, i);
    FinalAddressIsRight(b, name, start, v);
  }

  /** `for (let i = 0; ; ) { fs.push(() => i); }` at top level. */
  function LoopVariable(): (Skeleton, World) {
    ([ScopeNode(GLOBAL, None, None), ScopeNode(LOOP, Some(0), None), ScopeNode(FUNCTION_PARAM, Some(1), Some(3)),
      ScopeNode(FUNCTION, Some(2), None)],
     World([map[], map["i" := 0], map[], map[]], [0, 0, 0, 0], [Variable("i", true, 1, false, 0)]))
  }

  /** The reference in the function puts `i` into the environment of the loop, which the function then sees first. */
  lemma LoopVariableIsInLoop()
    ensures var (t, w) := LoopVariable();
      && WorldOf(t, w)
      && var w' := LookupReference(t, w, Reference(3, "i"));
      && w'.slots == [0, 1, 0, 0] && w'.vars[0] == Variable("i", true, 1, true, 0) && EnvChain(t, w', 3) == [1]
  {
    var (t, w) := LoopVariable();
    LoopVariableWorld();
    assert FindFrom(t, w, "i", 3, Walk(false, false, 0, 0)) == FindFrom(t, w, "i", 2, Walk(true, true, 1, 0));
    assert FindFrom(t, w, "i", 2, Walk(true, true, 1, 0)) == FindFrom(t, w, "i", 1, Walk(false, true, 1, 0));
    var w' := LookupReference(t, w, Reference(3, "i"));
    assert EnvChain(t, w', 0) == [] && EnvChain(t, w', 1) == [1] && EnvChain(t, w', 2) == [1];
  }

  lemma LoopVariableWorld()
    ensures WorldOf(LoopVariable().0, LoopVariable().1)
  {
    var (t, w) := LoopVariable();
    forall i | 0 <= i < |t| ensures WellFormedAt(t, i) {
    }
    assert WellFormed(t);
    forall i | 0 <= i < |t| ensures BindingsAt(t, w, i) {
    }
  }
}
