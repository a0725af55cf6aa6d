/** The level of a class scope as the private-name lookup counts it, against the run-time chain. */
module ClassLevel {
  import opened Options
  import opened ScopeTree
  import opened LexicalAddress

  datatype ClassResult = NoClass | AtClass(scope: nat, lexLevel: nat)

  /** The walk outwards to the first class that declares the private name; it counts variable scopes only. */
  function FindPrivateName(t: Skeleton, w: World, declaring: set<nat>, iter: nat, lexLevel: nat): (r: ClassResult)
    requires WellFormed(t) && |w.slots| == |t| && iter < |t|
    ensures r.AtClass? ==> r.scope <= iter && r.scope in declaring && t[r.scope].kind == CLASS && r.lexLevel >= lexLevel
    decreases iter
  {
    if t[iter].kind == CLASS && iter in declaring then AtClass(iter, lexLevel)
    else if iter == 0 then NoClass
    else FindPrivateName(t, w, declaring, Parent(t, iter),
           lexLevel + (if IsVariableScope(t[iter].kind) && NeedLexEnv(w, iter) then 1 else 0))
  }

  /** How many function environments the walk passes without counting: those of functions whose parameter scope
      it enters from a default value, that is, not through the function's body. */
  function Missed(t: Skeleton, w: World, declaring: set<nat>, iter: nat, fromFunction: bool): nat
    requires WellFormed(t) && |w.slots| == |t| && iter < |t|
    decreases iter
  {
    if (t[iter].kind == CLASS && iter in declaring) || iter == 0 then 0
    else
      (if t[iter].kind == FUNCTION_PARAM && !fromFunction && NeedLexEnv(w, FunctionOf(t, iter)) then 1 else 0)
      + Missed(t, w, declaring, Parent(t, iter), IsFunctionVariableScope(t[iter].kind))
  }

  /** All environments that the run-time chain has between a scope and the declaring class. */
  function Passed(t: Skeleton, w: World, declaring: set<nat>, iter: nat, fromFunction: bool): nat
    requires WellFormed(t) && |w.slots| == |t| && iter < |t|
    decreases iter
  {
    if (t[iter].kind == CLASS && iter in declaring) || iter == 0 then 0
    else Leave(t, w, iter, Walk(fromFunction, false, 0, 0)).lexLevel
         + Passed(t, w, declaring, Parent(t, iter), IsFunctionVariableScope(t[iter].kind))
  }

  lemma {:induction false} CountedAndMissed(t: Skeleton, w: World, declaring: set<nat>, iter: nat, fromFunction: bool,
                                            n: nat)
    requires WellFormed(t) && |w.slots| == |t| && iter < |t|
    ensures var r := FindPrivateName(t, w, declaring, iter, n);
      r.AtClass? ==>
        r.lexLevel + Missed(t, w, declaring, iter, fromFunction) == n + Passed(t, w, declaring, iter, fromFunction)
    decreases iter
  {
    if !(t[iter].kind == CLASS && iter in declaring) && iter != 0 {
      CountedAndMissed(t, w, declaring, Parent(t, iter), IsFunctionVariableScope(t[iter].kind),
        n + (if IsVariableScope(t[iter].kind) && NeedLexEnv(w, iter) then 1 else 0));
    }
  }

  lemma {:induction false} PassedLeadsToClass(t: Skeleton, w: World, declaring: set<nat>, iter: nat,
                                              fromFunction: bool, n: nat)
    requires WellFormed(t) && |w.slots| == |t| && iter < |t|
    requires FindPrivateName(t, w, declaring, iter, n).AtClass?
    ensures Passed(t, w, declaring, iter, fromFunction) <= |ChainAhead(t, w, iter, fromFunction)|
    ensures ChainAhead(t, w, iter, fromFunction)[Passed(t, w, declaring, iter, fromFunction)..]
         == EnvChain(t, w, FindPrivateName(t, w, declaring, iter, n).scope)
    decreases iter
  {
    if !(t[iter].kind == CLASS && iter in declaring) {
      var p, k' := Parent(t, iter), Leave(t, w, iter, Walk(fromFunction, false, 0, 0));
      var n' := n + (if IsVariableScope(t[iter].kind) && NeedLexEnv(w, iter) then 1 else 0);
      assert FindPrivateName(t, w, declaring, iter, n) == FindPrivateName(t, w, declaring, p, n');
      PassedLeadsToClass(t, w, declaring, p, k'.fromFunction, n');
      var rest := Passed(t, w, declaring, p, k'.fromFunction);
      assert Passed(t, w, declaring, iter, fromFunction) == k'.lexLevel + rest;
      LeaveCountsEnvironment(t, w, iter, Walk(fromFunction, false, 0, 0));
      DropTwice(ChainAhead(t, w, iter, fromFunction), k'.lexLevel, rest);
    }
  }

  /** Environments on a chain, by the outermost scopes of the code that they serve. */
  ghost predicate DescendsFrom(t: Skeleton, c: seq<nat>, bound: int)
    requires WellFormed(t)
  {
    && (forall a :: 0 <= a < |c| ==> c[a] < |t| && Rank(t, c[a]) <= bound)
    && (forall a, b :: 0 <= a < b < |c| ==> Rank(t, c[b]) < Rank(t, c[a]))
  }

  lemma EnvDescends(t: Skeleton, w: World, o: nat, outer: seq<nat>, bound: int)
    requires WellFormed(t) && |w.slots| == |t| && o < |t| && bound < Rank(t, o) && DescendsFrom(t, outer, bound)
    ensures DescendsFrom(t, Env(w, o) + outer, Rank(t, o))
  {
  }

  lemma {:induction false} ChainDescends(t: Skeleton, w: World, i: nat)
    requires WellFormed(t) && |w.slots| == |t| && i < |t|
    ensures DescendsFrom(t, EnvChain(t, w, i), i)
    decreases i
  {
    assert WellFormedAt(t, i);
    var outer: seq<nat>, bound: int := [], -1;
    if i != 0 {
      ChainDescends(t, w, Parent(t, i));
      outer, bound := EnvChain(t, w, Parent(t, i)), Parent(t, i);
    }
    if t[i].kind == FUNCTION_PARAM {
      EnvDescends(t, w, FunctionOf(t, i), outer, bound);
    } else if IsVariableScope(t[i].kind) && t[i].kind != FUNCTION {
      EnvDescends(t, w, i, outer, bound);
    }
  }

  /** The counted level reaches the environment of the declaring class exactly when nothing is missed: when no
      parameter scope whose function has an environment is entered from one of its default values. */
  lemma PrivateLevelIsRight(t: Skeleton, w: World, declaring: set<nat>, start: nat)
    requires WellFormed(t) && |w.slots| == |t| && start < |t|
    ensures var r, chain := FindPrivateName(t, w, declaring, start, 0), EnvChain(t, w, start);
      r.AtClass? && NeedLexEnv(w, r.scope) ==>
        && r.lexLevel < |chain|
        && (chain[r.lexLevel] == r.scope <==> Missed(t, w, declaring, start, false) == 0)
  {
    var r, chain := FindPrivateName(t, w, declaring, start, 0), EnvChain(t, w, start);
    if r.AtClass? && NeedLexEnv(w, r.scope) {
      CountedAndMissed(t, w, declaring, start, false, 0);
      PassedLeadsToClass(t, w, declaring, start, false, 0);
      OwnerHeadsChain(t, w, r.scope);
      ChainDescends(t, w, start);
      var n := r.lexLevel + Missed(t, w, declaring, start, false);
      assert chain[n..][0] == chain[n];
    }
  }

  /** The walk from `iter` passes scope `p` before it stops. */
  predicate OnWalk(t: Skeleton, declaring: set<nat>, iter: nat, p: nat)
    requires WellFormed(t) && iter < |t|
    ensures OnWalk(t, declaring, iter, p) ==> p <= iter
    decreases iter
  {
    !((t[iter].kind == CLASS && iter in declaring) || iter == 0)
    && (p == iter || OnWalk(t, declaring, Parent(t, iter), p))
  }

  /** The walk enters parameter scope `p` through the body of its function, or the function has no environment. */
  predicate Harmless(t: Skeleton, w: World, declaring: set<nat>, iter: nat, fromFunction: bool, p: nat)
    requires WellFormed(t) && |w.slots| == |t| && iter < |t| && p < |t|
  {
    t[p].kind == FUNCTION_PARAM ==>
      || OnWalk(t, declaring, iter, FunctionOf(t, p)) || (p == iter && fromFunction)
      || !NeedLexEnv(w, FunctionOf(t, p))
  }

  /** What a step outwards does to the scopes further out. */
  lemma HarmlessFurtherOut(t: Skeleton, w: World, declaring: set<nat>, iter: nat, fromFunction: bool, p: nat)
    requires WellFormed(t) && |w.slots| == |t| && 0 < iter < |t| && !(t[iter].kind == CLASS && iter in declaring)
    requires OnWalk(t, declaring, Parent(t, iter), p)
    ensures Harmless(t, w, declaring, iter, fromFunction, p)
      <==> Harmless(t, w, declaring, Parent(t, iter), IsFunctionVariableScope(t[iter].kind), p)
  {
    assert WellFormedAt(t, iter) && WellFormedAt(t, p);
  }

  /** A walk misses nothing exactly when each parameter scope on it is entered through the body of its function, or
      belongs to a function without an environment. */
  lemma {:induction false} BodiesMissNothing(t: Skeleton, w: World, declaring: set<nat>, iter: nat, fromFunction: bool)
    requires WellFormed(t) && |w.slots| == |t| && iter < |t|
    ensures Missed(t, w, declaring, iter, fromFunction) == 0 <==>
            forall p :: 0 <= p < |t| && OnWalk(t, declaring, iter, p) ==>
              Harmless(t, w, declaring, iter, fromFunction, p)
    decreases iter
  {
    if !(t[iter].kind == CLASS && iter in declaring) && iter != 0 {
      var q, from := Parent(t, iter), IsFunctionVariableScope(t[iter].kind);
      BodiesMissNothing(t, w, declaring, q, from);
      forall p | 0 <= p < |t| && OnWalk(t, declaring, q, p)
        ensures Harmless(t, w, declaring, iter, fromFunction, p) <==> Harmless(t, w, declaring, q, from, p)
      {
        HarmlessFurtherOut(t, w, declaring, iter, fromFunction, p);
      }
      assert OnWalk(t, declaring, iter, iter);
      assert Missed(t, w, declaring, iter, fromFunction) == 0 <==>
             Harmless(t, w, declaring, iter, fromFunction, iter) && Missed(t, w, declaring, q, from) == 0 by {
        if t[iter].kind == FUNCTION_PARAM {
          assert !OnWalk(t, declaring, iter, FunctionOf(t, iter));
        }
      }
    }
  }

  /** The level of a private name is right exactly when no captured function is entered through a default value between
      the reference and the class. */
  lemma PrivateLevelByWalk(t: Skeleton, w: World, declaring: set<nat>, start: nat)
    requires WellFormed(t) && |w.slots| == |t| && start < |t|
    ensures var r, chain := FindPrivateName(t, w, declaring, start, 0), EnvChain(t, w, start);
      r.AtClass? && NeedLexEnv(w, r.scope) ==>
        && r.lexLevel < |chain|
        && (chain[r.lexLevel] == r.scope <==>
              forall p :: 0 <= p < |t| && OnWalk(t, declaring, start, p) ==> Harmless(t, w, declaring, start, false, p))
  {
    PrivateLevelIsRight(t, w, declaring, start);
    BodiesMissNothing(t, w, declaring, start, false);
  }

  /** `class C { #x; m(a = this.#x) { ... } }` where a variable of `m` is captured: the default value of `a` is
      compiled in the parameter scope, and the level that it gets for `#x` is one too small. */
  lemma DefaultValueMissesClass()
    ensures var t := [ScopeNode(GLOBAL, None, None), ScopeNode(CLASS, Some(0), None),
                      ScopeNode(FUNCTION_PARAM, Some(1), Some(3)), ScopeNode(FUNCTION, Some(2), None)];
      var w := World([map[], map[], map[], map[]], [0, 1, 0, 1], []);
      && WellFormed(t)
      && FindPrivateName(t, w, {1}, 2, 0) == AtClass(1, 0)
      && EnvChain(t, w, 2) == [3, 1]
  {
    var t := [ScopeNode(GLOBAL, None, None), ScopeNode(CLASS, Some(0), None),
              ScopeNode(FUNCTION_PARAM, Some(1), Some(3)), ScopeNode(FUNCTION, Some(2), None)];
    var w := World([map[], map[], map[], map[]], [0, 1, 0, 1], []);
    forall i | 0 <= i < |t| ensures WellFormedAt(t, i) {
    }
    assert WellFormed(t);
    assert EnvChain(t, w, 0) == [];
    assert EnvChain(t, w, 1) == [1];
    assert FindPrivateName(t, w, {1}, 1, 0) == AtClass(1, 0);
  }
}
