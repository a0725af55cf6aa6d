/** Lookup of a name through the scopes, with the level counters that become the lexical address. */
module LexicalAddress {
  import opened Options
  import opened ScopeTree

  /** A variable of the program. `home` is the variable scope that can hold it at run time;
      global, module and import variables are not `local` and are never captured. */
  datatype Variable = Variable(name: string, local: bool, home: nat, lexicalBound: bool, slot: nat)

  /** What the binder changes: bindings of each scope, environment size of each scope, variables. */
  datatype World = World(bindings: seq<map<string, nat>>, slots: seq<nat>, vars: seq<Variable>)

  ghost predicate BindingsAt(t: Skeleton, w: World, i: nat)
    requires WellFormed(t) && |w.bindings| == |t| && i < |t|
  {
    forall n :: n in w.bindings[i] ==>
      && w.bindings[i][n] < |w.vars|
      && w.vars[w.bindings[i][n]].home == Owner(t, i)
      // what a parameter scope binds, its function scope binds too; to another variable when the body of a named
      // function expression declares the function's own name
      && (t[i].kind == FUNCTION_PARAM ==> n in w.bindings[FunctionOf(t, i)])
  }

  ghost predicate WorldOf(t: Skeleton, w: World) {
    && WellFormed(t) && |w.bindings| == |w.slots| == |t|
    && forall i :: 0 <= i < |t| ==> BindingsAt(t, w, i)
  }

  /** `(function g() { var g; return () => g; })`: the parameter scope binds the name of the function, the
      function scope the variable of the body. */
  function ShadowedOwnName(): (Skeleton, World) {
    ([ScopeNode(GLOBAL, None, None), ScopeNode(FUNCTION_PARAM, Some(0), Some(2)), ScopeNode(FUNCTION, Some(1), None)],
     World([map[], map["g" := 0], map["g" := 1]], [0, 0, 0],
           [Variable("g", true, 2, false, 0), Variable("g", true, 2, false, 0)]))
  }

  lemma ShadowedOwnNameIsAWorld()
    ensures WorldOf(ShadowedOwnName().0, ShadowedOwnName().1)
    ensures ShadowedOwnName().1.bindings[1]["g"] != ShadowedOwnName().1.bindings[2]["g"]
  {
    var t, w := ShadowedOwnName().0, ShadowedOwnName().1;
    forall i | 0 <= i < |t| ensures WellFormedAt(t, i) {
    }
    assert WellFormed(t);
    assert Owner(t, 1) == 2 && Owner(t, 2) == 2;
    assert BindingsAt(t, w, 0) && BindingsAt(t, w, 1) && BindingsAt(t, w, 2);
  }

  function NeedLexEnv(w: World, i: nat): bool
    requires i < |w.slots|
  {
    w.slots[i] != 0
  }

  datatype FindResult = NotFound | Found(scope: nat, level: nat, lexLevel: nat, variable: nat)

  /** The counters of the walk to the root. `fromFunction` says that the scope before was a function variable
      scope, `lexical` that some scope before was one. */
  datatype Walk = Walk(fromFunction: bool, lexical: bool, level: nat, lexLevel: nat)

  /** Leaving scope `i` without having found the name. */
  function Leave(t: Skeleton, w: World, i: nat, k: Walk): (k': Walk)
    requires WellFormed(t) && |w.slots| == |t| && i < |t|
    ensures k'.level >= k.level && k'.lexLevel >= k.lexLevel
  {
    var kind := t[i].kind;
    var lexical := k.lexical || IsFunctionVariableScope(kind);
    var functionScopeNotIterated := kind == FUNCTION_PARAM && !k.fromFunction;
    var env :=
      if IsVariableScope(kind) then NeedLexEnv(w, i)
      else functionScopeNotIterated && NeedLexEnv(w, FunctionOf(t, i));
    Walk(IsFunctionVariableScope(kind), lexical,
         k.level + (if (IsVariableScope(kind) && lexical) || functionScopeNotIterated then 1 else 0),
         k.lexLevel + (if env then 1 else 0))
  }

  function FindFrom(t: Skeleton, w: World, name: string, iter: nat, k: Walk): (r: FindResult)
    requires WorldOf(t, w) && iter < |t|
    ensures r.Found? ==> r.scope <= iter && name in w.bindings[r.scope] && r.variable == w.bindings[r.scope][name]
    ensures r.Found? ==> r.variable < |w.vars| && w.vars[r.variable].home == Owner(t, r.scope)
    ensures r.Found? ==> r.level >= k.level && r.lexLevel >= k.lexLevel
    decreases iter
  {
    if name in w.bindings[iter] then
      assert BindingsAt(t, w, iter);
      Found(iter, k.level, k.lexLevel, w.bindings[iter][name])
    else if iter == 0 then NotFound
    else FindFrom(t, w, name, Parent(t, iter), Leave(t, w, iter, k))
  }

  function Find(t: Skeleton, w: World, name: string, start: nat): (r: FindResult)
    requires WorldOf(t, w) && start < |t|
  {
    FindFrom(t, w, name, start, Walk(false, false, 0, 0))
  }

  // ----- what a lookup means

  datatype Resolution = Unresolved | Resolved(scope: nat, variable: nat)

  /** Plain scoping: the innermost scope on the way out that binds the name. */
  function Resolve(t: Skeleton, bindings: seq<map<string, nat>>, name: string, i: nat): (r: Resolution)
    requires WellFormed(t) && |bindings| == |t| && i < |t|
    ensures r.Resolved? ==> r.scope <= i && name in bindings[r.scope] && r.variable == bindings[r.scope][name]
    decreases i
  {
    if name in bindings[i] then Resolved(i, bindings[i][name])
    else if i == 0 then Unresolved
    else Resolve(t, bindings, name, Parent(t, i))
  }

  /** The environments on the run-time chain of the code in scope `i`, innermost first: a scope gets one iff it
      has slots, and a function's environment already exists when its parameters are evaluated. */
  function EnvChain(t: Skeleton, w: World, i: nat): seq<nat>
    requires WellFormed(t) && |w.slots| == |t| && i < |t|
    decreases i
  {
    var outer := if i == 0 then [] else EnvChain(t, w, Parent(t, i));
    if t[i].kind == FUNCTION then outer
    else if t[i].kind == FUNCTION_PARAM then Env(w, FunctionOf(t, i)) + outer
    else if IsVariableScope(t[i].kind) then Env(w, i) + outer
    else outer
  }

  function Env(w: World, i: nat): seq<nat>
    requires i < |w.slots|
  {
    if NeedLexEnv(w, i) then [i] else []
  }

  /** The part of the chain that a walk arriving at `iter` has not counted yet. */
  function ChainAhead(t: Skeleton, w: World, iter: nat, fromFunction: bool): seq<nat>
    requires WellFormed(t) && |w.slots| == |t| && iter < |t|
  {
    if t[iter].kind == FUNCTION_PARAM && fromFunction then
      assert WellFormedAt(t, iter);
      EnvChain(t, w, Parent(t, iter))
    else EnvChain(t, w, iter)
  }

  /** A walk reaches a parameter scope from its own body only after the body did not bind the name. */
  ghost predicate Arrived(t: Skeleton, w: World, name: string, iter: nat, fromFunction: bool)
    requires WorldOf(t, w) && iter < |t|
  {
    t[iter].kind == FUNCTION_PARAM && fromFunction ==> name !in w.bindings[FunctionOf(t, iter)]
  }

  lemma NextArrived(t: Skeleton, w: World, name: string, iter: nat)
    requires WorldOf(t, w) && 0 < iter < |t| && name !in w.bindings[iter]
    ensures Arrived(t, w, name, Parent(t, iter), IsFunctionVariableScope(t[iter].kind))
  {
    assert WellFormedAt(t, iter);
    assert WellFormedAt(t, Parent(t, iter));
  }

  /** The walk finds what plain scoping finds. */
  lemma {:induction false} FindIsResolve(t: Skeleton, w: World, name: string, iter: nat, k: Walk)
    requires WorldOf(t, w) && iter < |t|
    ensures var r, s := FindFrom(t, w, name, iter, k), Resolve(t, w.bindings, name, iter);
      && (r.Found? <==> s.Resolved?)
      && (r.Found? ==> r.scope == s.scope && r.variable == s.variable)
    decreases iter
  {
    if name !in w.bindings[iter] && iter != 0 {
      FindIsResolve(t, w, name, Parent(t, iter), Leave(t, w, iter, k));
    }
  }

  /** Leaving a scope counts exactly the environment that the run-time chain has for it. */
  lemma LeaveCountsEnvironment(t: Skeleton, w: World, iter: nat, k: Walk)
    requires WellFormed(t) && |w.slots| == |t| && 0 < iter < |t|
    ensures var k' := Leave(t, w, iter, k);
      var n, ahead := k'.lexLevel - k.lexLevel, ChainAhead(t, w, iter, k.fromFunction);
      n <= |ahead| && ahead[n..] == ChainAhead(t, w, Parent(t, iter), k'.fromFunction)
  {
    ChainOnLeave(t, w, iter, k.fromFunction);
  }

  /** The environment that is on the chain for one scope, when the walk has not come from its function's body. */
  function EnvOn(t: Skeleton, w: World, iter: nat, fromFunction: bool): seq<nat>
    requires WellFormed(t) && |w.slots| == |t| && iter < |t|
  {
    if t[iter].kind == FUNCTION_PARAM then (if fromFunction then [] else Env(w, FunctionOf(t, iter)))
    else if IsVariableScope(t[iter].kind) then Env(w, iter)
    else []
  }

  lemma ChainOnLeave(t: Skeleton, w: World, iter: nat, fromFunction: bool)
    requires WellFormed(t) && |w.slots| == |t| && 0 < iter < |t|
    ensures ChainAhead(t, w, iter, fromFunction) ==
            EnvOn(t, w, iter, fromFunction) + ChainAhead(t, w, Parent(t, iter), IsFunctionVariableScope(t[iter].kind))
  {
    var p := Parent(t, iter);
    assert WellFormedAt(t, iter) && WellFormedAt(t, p);
    if t[iter].kind == FUNCTION {
      assert FunctionOf(t, p) == iter && p != 0;
      assert EnvChain(t, w, iter) == EnvChain(t, w, p);
      assert EnvChain(t, w, p) == Env(w, iter) + EnvChain(t, w, Parent(t, p));
    } else {
      assert EnvChain(t, w, iter) == EnvOn(t, w, iter, false) + EnvChain(t, w, p);
      assert t[p].kind == FUNCTION_PARAM ==> !IsFunctionVariableScope(t[iter].kind);
    }
  }

  /** After `n` environments of `ahead` comes the chain of scope `i`. */
  ghost predicate LeadsTo(t: Skeleton, w: World, ahead: seq<nat>, n: int, i: nat)
    requires WellFormed(t) && |w.slots| == |t| && i < |t|
  {
    0 <= n <= |ahead| && ahead[n..] == EnvChain(t, w, i)
  }

  lemma LeadsOn(t: Skeleton, w: World, ahead: seq<nat>, a: nat, rest: seq<nat>, b: int, i: nat)
    requires WellFormed(t) && |w.slots| == |t| && i < |t|
    requires a <= |ahead| && ahead[a..] == rest && LeadsTo(t, w, rest, b, i)
    ensures LeadsTo(t, w, ahead, a + b, i)
  {
    DropTwice(ahead, a, b);
  }

  lemma DropTwice(s: seq<nat>, a: nat, b: nat)
    requires a <= |s| && b <= |s[a..]|
    ensures s[a..][b..] == s[a + b..]
  {
  }

  /** The levels counted so far lead to the part of the run-time chain that the found scope's code sees. */
  lemma {:induction false} LevelsCountEnvironments(t: Skeleton, w: World, name: string, iter: nat, k: Walk)
    requires WorldOf(t, w) && iter < |t| && Arrived(t, w, name, iter, k.fromFunction)
    ensures var r, ahead := FindFrom(t, w, name, iter, k), ChainAhead(t, w, iter, k.fromFunction);
      r.Found? ==> LeadsTo(t, w, ahead, r.lexLevel - k.lexLevel, r.scope)
    decreases iter
  {
    if name in w.bindings[iter] {
      assert BindingsAt(t, w, iter);
    } else if iter != 0 {
      NextArrived(t, w, name, iter);
      LevelsCountEnvironments(t, w, name, Parent(t, iter), Leave(t, w, iter, k));
      if FindFrom(t, w, name, iter, k).Found? {
        LevelStep(t, w, iter, k, FindFrom(t, w, name, iter, k).scope, FindFrom(t, w, name, iter, k).lexLevel);
      }
    }
  }

  lemma LevelStep(t: Skeleton, w: World, iter: nat, k: Walk, found: nat, level: nat)
    requires WellFormed(t) && |w.slots| == |t| && 0 < iter < |t| && found < |t|
    requires var k' := Leave(t, w, iter, k);
      LeadsTo(t, w, ChainAhead(t, w, Parent(t, iter), k'.fromFunction), level - k'.lexLevel, found)
    ensures LeadsTo(t, w, ChainAhead(t, w, iter, k.fromFunction), level - k.lexLevel, found)
  {
    var k' := Leave(t, w, iter, k);
    LeaveCountsEnvironment(t, w, iter, k);
    LeadsOn(t, w, ChainAhead(t, w, iter, k.fromFunction), k'.lexLevel - k.lexLevel,
            ChainAhead(t, w, Parent(t, iter), k'.fromFunction), level - k'.lexLevel, found);
  }

  /** A scope that owns an environment is the head of the chain of its own code. */
  lemma {:induction false} OwnerHeadsChain(t: Skeleton, w: World, i: nat)
    requires WellFormed(t) && |w.slots| == |t| && i < |t| && NeedLexEnv(w, Owner(t, i))
    ensures EnvChain(t, w, i) != [] && EnvChain(t, w, i)[0] == Owner(t, i)
    decreases i
  {
    assert WellFormedAt(t, i);
    if t[i].kind == FUNCTION {
      var p := ParamScopeOf(t, i);
      assert EnvChain(t, w, i) == EnvChain(t, w, p);
    } else if !IsVariableScope(t[i].kind) && t[i].kind != FUNCTION_PARAM {
      var p := Parent(t, i);
      assert WellFormedAt(t, p);
      OwnerHeadsChain(t, w, p);
    }
  }

  /** Address correctness: going up `lexLevel` environments from the run-time environment of the reference leads
      to the environment of the variable's owner. */
  lemma AddressReachesOwner(t: Skeleton, w: World, name: string, start: nat)
    requires WorldOf(t, w) && start < |t|
    ensures var r := Find(t, w, name, start);
      r.Found? && NeedLexEnv(w, w.vars[r.variable].home) ==>
        r.lexLevel < |EnvChain(t, w, start)| && EnvChain(t, w, start)[r.lexLevel] == w.vars[r.variable].home
  {
    var r := Find(t, w, name, start);
    if r.Found? && NeedLexEnv(w, w.vars[r.variable].home) {
      assert BindingsAt(t, w, r.scope);
      LevelsCountEnvironments(t, w, name, start, Walk(false, false, 0, 0));
      OwnerHeadsChain(t, w, r.scope);
      var chain := EnvChain(t, w, start);
      assert chain[r.lexLevel..] != [];
      assert chain[r.lexLevel..][0] == chain[r.lexLevel];
    }
  }

  /** The level is positive exactly when the walk left the activation it started in. */
  lemma {:induction false} LevelTellsActivations(t: Skeleton, w: World, name: string, iter: nat, k: Walk)
    requires WorldOf(t, w) && iter < |t| && !k.fromFunction && !k.lexical
    ensures var r := FindFrom(t, w, name, iter, k);
      r.Found? ==> (r.level > k.level <==> Activation(t, r.scope) != Activation(t, iter))
    decreases iter
  {
    var r := FindFrom(t, w, name, iter, k);
    assert BindingsAt(t, w, iter);
    if name !in w.bindings[iter] && iter != 0 && r.Found? {
      var p, k' := Parent(t, iter), Leave(t, w, iter, k);
      assert WellFormedAt(t, iter);
      if IsFunctionVariableScope(t[iter].kind) || t[iter].kind == FUNCTION_PARAM {
        assert r.level >= k'.level > k.level;
        var f := Activation(t, iter);
        if t[iter].kind == FUNCTION {
          assert r.scope != p by { assert BindingsAt(t, w, p); }
        }
        assert r.scope < Rank(t, f) by {
          assert r.scope <= p;
          if t[iter].kind == FUNCTION_PARAM { assert ParamScopeOf(t, f) == iter; }
        }
        OutsideActivation(t, f, r.scope);
      } else {
        LevelTellsActivations(t, w, name, p, k');
      }
    }
  }
}
