/** The static shape of a program's scopes, shared by the binder's models. */
module ScopeTree {
  import opened Options

  /** In the order of the source's enumeration: the tests on scopes compare positions in it. */
  datatype ScopeType =
    | PARAM | CATCH_PARAM | FUNCTION_PARAM | CATCH | LOCAL
    | CLASS | LOOP | FUNCTION | STATIC_BLOCK | GLOBAL | MODULE

  function Order(kind: ScopeType): nat {
    match kind
    case PARAM => 0
    case CATCH_PARAM => 1
    case FUNCTION_PARAM => 2
    case CATCH => 3
    case LOCAL => 4
    case CLASS => 5
    case LOOP => 6
    case FUNCTION => 7
    case STATIC_BLOCK => 8
    case GLOBAL => 9
    case MODULE => 10
  }

  predicate IsVariableScope(kind: ScopeType) {
    Order(kind) > Order(LOCAL)
  }

  predicate IsFunctionVariableScope(kind: ScopeType) {
    Order(kind) >= Order(FUNCTION)
  }

  /** `func` is the function scope that belongs to a function parameter scope. */
  datatype ScopeNode = ScopeNode(kind: ScopeType, parent: Option<nat>, func: Option<nat>)

  type Skeleton = seq<ScopeNode>

  /** Scope 0 is the top scope; a scope comes after its parent. */
  ghost predicate WellFormedAt(t: Skeleton, i: nat)
    requires i < |t|
  {
    && (t[i].parent == None <==> i == 0)
    && (t[i].kind == GLOBAL || t[i].kind == MODULE <==> i == 0)
    && (t[i].parent.Some? ==> t[i].parent.value < i)
    // a function scope lies in its own parameter scope, and each knows the other
    && (t[i].kind == FUNCTION ==> t[t[i].parent.value].kind == FUNCTION_PARAM && t[t[i].parent.value].func == Some(i))
    && (t[i].kind == FUNCTION_PARAM <==> t[i].func.Some?)
    && (t[i].func.Some? ==>
          i < t[i].func.value < |t| && t[t[i].func.value].kind == FUNCTION && t[t[i].func.value].parent == Some(i))
    // besides the body, a parameter scope holds the functions and classes of its default values
    && (t[i].parent.Some? && t[t[i].parent.value].kind == FUNCTION_PARAM ==>
          t[i].kind == FUNCTION || t[i].kind == FUNCTION_PARAM || t[i].kind == CLASS)
  }

  ghost predicate WellFormed(t: Skeleton) {
    |t| > 0 && forall i :: 0 <= i < |t| ==> WellFormedAt(t, i)
  }

  function Parent(t: Skeleton, i: nat): (p: nat)
    requires WellFormed(t) && 0 < i < |t|
    ensures p < i && t[i].parent == Some(p)
  {
    assert WellFormedAt(t, i);
    t[i].parent.value
  }

  function FunctionOf(t: Skeleton, i: nat): (f: nat)
    requires WellFormed(t) && i < |t| && t[i].kind == FUNCTION_PARAM
    ensures i < f < |t| && t[f].kind == FUNCTION && Parent(t, f) == i
  {
    assert WellFormedAt(t, i);
    t[i].func.value
  }

  /** Scope `a` is `i` or around it. */
  predicate Encloses(t: Skeleton, a: nat, i: nat)
    requires WellFormed(t) && i < |t|
    ensures Encloses(t, a, i) ==> a <= i
    decreases i
  {
    a == i || (i > 0 && Encloses(t, a, Parent(t, i)))
  }

  lemma {:induction false} EnclosesTwice(t: Skeleton, a: nat, b: nat, i: nat)
    requires WellFormed(t) && i < |t| && b < |t| && Encloses(t, a, b) && Encloses(t, b, i)
    ensures Encloses(t, a, i)
    decreases i
  {
    if b != i {
      EnclosesTwice(t, a, b, Parent(t, i));
    }
  }

  /** Of two scopes around a scope one is around the other. */
  lemma {:induction false} EnclosingAreNested(t: Skeleton, a: nat, b: nat, i: nat)
    requires WellFormed(t) && i < |t| && Encloses(t, a, i) && Encloses(t, b, i)
    ensures Encloses(t, a, b) || Encloses(t, b, a)
    decreases i
  {
    if a != i && b != i {
      EnclosingAreNested(t, a, b, Parent(t, i));
    }
  }

  /** The function, static block or top-level code in whose activation the code of a scope runs. */
  function Activation(t: Skeleton, i: nat): (a: nat)
    requires WellFormed(t) && i < |t|
    ensures a < |t| && IsFunctionVariableScope(t[a].kind)
    decreases i
  {
    if t[i].kind == FUNCTION_PARAM then FunctionOf(t, i)
    else if IsFunctionVariableScope(t[i].kind) then i
    else
      assert WellFormedAt(t, i);
      Activation(t, Parent(t, i))
  }

  /** The scope whose environment holds the captured variables of scope `i`. */
  function Owner(t: Skeleton, i: nat): (o: nat)
    requires WellFormed(t) && i < |t|
    ensures o < |t| && IsVariableScope(t[o].kind)
    decreases i
  {
    if t[i].kind == FUNCTION_PARAM then FunctionOf(t, i)
    else if IsVariableScope(t[i].kind) then i
    else
      assert WellFormedAt(t, i);
      Owner(t, Parent(t, i))
  }

  /** The next variable scope outwards. */
  function NextVariableScope(t: Skeleton, i: nat): (s: nat)
    requires WellFormed(t) && i < |t|
    ensures s < |t| && IsVariableScope(t[s].kind)
    decreases i
  {
    assert WellFormedAt(t, i);
    if IsVariableScope(t[i].kind) then i else NextVariableScope(t, Parent(t, i))
  }

  /** The two differ only where a parameter scope is asked. */
  lemma {:induction false} NextIsOwner(t: Skeleton, i: nat)
    requires WellFormed(t) && i < |t|
    ensures t[i].kind != FUNCTION_PARAM ==> NextVariableScope(t, i) == Owner(t, i)
    decreases i
  {
    assert WellFormedAt(t, i);
    if !IsVariableScope(t[i].kind) && t[i].kind != FUNCTION_PARAM {
      assert WellFormedAt(t, Parent(t, i));
      NextIsOwner(t, Parent(t, i));
    }
  }

  function ParamScopeOf(t: Skeleton, f: nat): (p: nat)
    requires WellFormed(t) && f < |t| && t[f].kind == FUNCTION
    ensures p < f && t[f].parent == Some(p) && t[p].kind == FUNCTION_PARAM && FunctionOf(t, p) == f
  {
    assert WellFormedAt(t, f);
    assert WellFormedAt(t, t[f].parent.value);
    t[f].parent.value
  }

  /** A scope, or for a function scope its parameter scope: the outermost scope that comes with it. */
  function Rank(t: Skeleton, i: nat): (p: nat)
    requires WellFormed(t) && i < |t|
    ensures p <= i
  {
    if t[i].kind == FUNCTION then ParamScopeOf(t, i) else i
  }

  /** Scopes before the outermost scope of an activation do not run in it. */
  lemma {:induction false} OutsideActivation(t: Skeleton, f: nat, r: nat)
    requires WellFormed(t) && f < |t| && IsFunctionVariableScope(t[f].kind)
    requires r < Rank(t, f)
    ensures Activation(t, r) != f
    decreases r
  {
    assert WellFormedAt(t, r);
    if t[r].kind != FUNCTION_PARAM && !IsFunctionVariableScope(t[r].kind) {
      OutsideActivation(t, f, Parent(t, r));
    }
  }
}
