/** The hidden parameters of every function, and how an arrow reaches the `this` of its enclosing function. */
module MandatoryParams {
  import opened ScopeTree
  import opened LexicalAddress

  const FUNC := "4funcObj"
  const NEW_TARGET := "4newTarget"
  const THIS := "this"

  const FUNCTION_MANDATORY_PARAMS := [FUNC, NEW_TARGET, THIS]
  const ARROW_MANDATORY_PARAMS := [FUNC, "0newTarget", "0this"]
  const CTOR_ARROW_MANDATORY_PARAMS := ["0funcObj", "0newTarget", "0this"]

  /** The parameter lists of the function scopes, next to the world. */
  datatype State = State(w: World, params: seq<seq<nat>>)

  predicate IsFunction(t: Skeleton, f: nat)
    requires f < |t|
  {
    t[f].kind == FUNCTION || t[f].kind == GLOBAL || t[f].kind == MODULE
  }

  ghost predicate StateOf(t: Skeleton, s: State) {
    && WorldOf(t, s.w) && |s.params| == |t|
    && forall f, k :: 0 <= f < |t| && 0 <= k < |s.params[f]| ==> s.params[f][k] < |s.w.vars|
  }

  function InsertNew(m: map<string, nat>, name: string, v: nat): map<string, nat> {
    if name in m then m else m[name := v]
  }

  /** One hidden parameter, put in front; bindings that are there already stay. */
  function AddMandatoryParam(t: Skeleton, s: State, f: nat, name: string): (s': State)
    requires StateOf(t, s) && f < |t| && IsFunction(t, f)
    requires t[f].kind == FUNCTION ==> (name in s.w.bindings[f] <==> name in s.w.bindings[ParamScopeOf(t, f)])
    ensures StateOf(t, s')
  {
    var v := |s.w.vars|;
    var own := s.w.bindings[f := InsertNew(s.w.bindings[f], name, v)];
    var bindings :=
      if t[f].kind != FUNCTION then own
      else own[ParamScopeOf(t, f) := InsertNew(own[ParamScopeOf(t, f)], name, v)];
    var w := s.w.(bindings := bindings, vars := s.w.vars + [Variable(name, true, f, false, 0)]);
    assert WorldOf(t, w) by { AddedParamKeepsWorld(t, s, f, name, w); }
    State(w, s.params[f := [v] + s.params[f]])
  }

  lemma AddedParamKeepsWorld(t: Skeleton, s: State, f: nat, name: string, w: World)
    requires StateOf(t, s) && f < |t| && IsFunction(t, f)
    requires t[f].kind == FUNCTION ==> (name in s.w.bindings[f] <==> name in s.w.bindings[ParamScopeOf(t, f)])
    requires var v := |s.w.vars|;
      var own := s.w.bindings[f := InsertNew(s.w.bindings[f], name, v)];
      w == s.w.(vars := s.w.vars + [Variable(name, true, f, false, 0)],
                bindings := if t[f].kind != FUNCTION then own
                            else own[ParamScopeOf(t, f) := InsertNew(own[ParamScopeOf(t, f)], name, v)])
    ensures WorldOf(t, w)
  {
    forall i | 0 <= i < |t| ensures BindingsAt(t, w, i) {
      assert BindingsAt(t, s.w, i) && WellFormedAt(t, i) && WellFormedAt(t, f);
      if t[i].kind == FUNCTION_PARAM && FunctionOf(t, i) != f {
        assert t[f].kind == FUNCTION ==> i != ParamScopeOf(t, f);
      }
    }
  }

  /** No scope of the function has a binding for any of these names yet. */
  predicate NoneBound(t: Skeleton, w: World, f: nat, names: seq<string>)
    requires WellFormed(t) && |w.bindings| == |t| && f < |t|
  {
    forall n :: n in names ==> n !in w.bindings[f] && (t[f].kind == FUNCTION ==> n !in w.bindings[ParamScopeOf(t, f)])
  }

  predicate Distinct(names: seq<string>) {
    forall a, b :: 0 <= a < b < |names| ==> names[a] != names[b]
  }

  /** Binding the names changes the scopes of the function only, and there only the names. */
  ghost predicate OnlyBinds(t: Skeleton, w: World, w': World, f: nat, names: seq<string>)
    requires WellFormed(t) && |w.bindings| == |w'.bindings| == |t| && f < |t|
  {
    && (forall i :: 0 <= i < |t| && i != f && (t[f].kind == FUNCTION ==> i != ParamScopeOf(t, f)) ==>
          w'.bindings[i] == w.bindings[i])
    && (forall x :: x in w'.bindings[f] <==> x in w.bindings[f] || x in names)
    && (forall x :: x in w.bindings[f] ==> w'.bindings[f][x] == w.bindings[f][x])
    && (t[f].kind == FUNCTION ==> ParamOnlyBinds(w, w', f, ParamScopeOf(t, f), names))
  }

  /** The parameter scope keeps what it bound, and shares the new names with the function scope. */
  ghost predicate ParamOnlyBinds(w: World, w': World, f: nat, p: nat, names: seq<string>)
    requires f < |w'.bindings| && p < |w.bindings| == |w'.bindings|
  {
    && (forall x :: x in w'.bindings[p] <==> x in w.bindings[p] || x in names)
    && (forall x :: x in w.bindings[p] ==> w'.bindings[p][x] == w.bindings[p][x])
    && (forall x :: x in names ==> x in w'.bindings[f] && x in w'.bindings[p] && w'.bindings[p][x] == w'.bindings[f][x])
  }

  lemma OneMoreBinding(t: Skeleton, s: State, s1: State, f: nat, name: string, rest: seq<string>)
    requires StateOf(t, s) && StateOf(t, s1) && f < |t| && IsFunction(t, f) && OnlyBinds(t, s.w, s1.w, f, rest)
    requires t[f].kind == FUNCTION ==> (name in s1.w.bindings[f] <==> name in s1.w.bindings[ParamScopeOf(t, f)])
    requires name !in s1.w.bindings[f]
    ensures OnlyBinds(t, s.w, AddMandatoryParam(t, s1, f, name).w, f, [name] + rest)
  {
  }

  /** All names of a table, last one first, so that they end up in the order of the table. */
  function AddMandatoryParams(t: Skeleton, s: State, f: nat, names: seq<string>): (s': State)
    requires StateOf(t, s) && f < |t| && IsFunction(t, f) && NoneBound(t, s.w, f, names) && Distinct(names)
    ensures StateOf(t, s') && OnlyBinds(t, s.w, s'.w, f, names)
    decreases |names|
  {
    if names == [] then s
    else
      var rest := AddMandatoryParams(t, s, f, names[1..]);
      assert names[0] !in names[1..];
      assert names == [names[0]] + names[1..];
      OneMoreBinding(t, s, rest, f, names[0], names[1..]);
      AddMandatoryParam(t, rest, f, names[0])
  }

  /** The variables that adding a table creates, for its names from position `k` on. */
  function NewIds(n: nat, names: seq<string>): seq<nat> {
    seq(|names|, k requires 0 <= k < |names| => n + |names| - 1 - k)
  }

  ghost predicate InFront(s: State, s': State, f: nat, names: seq<string>)
    requires f < |s.params|
  {
    && s'.params == s.params[f := NewIds(|s.w.vars|, names) + s.params[f]]
    && |s'.w.vars| == |s.w.vars| + |names| && s'.w.vars[..|s.w.vars|] == s.w.vars && s'.w.slots == s.w.slots
  }

  ghost predicate NamedAndBound(w: World, f: nat, names: seq<string>, ids: seq<nat>)
    requires f < |w.bindings| && |ids| == |names|
  {
    forall k :: 0 <= k < |names| ==>
      && ids[k] < |w.vars| && w.vars[ids[k]] == Variable(names[k], true, f, false, 0)
      && names[k] in w.bindings[f] && w.bindings[f][names[k]] == ids[k]
  }

  lemma OneMoreInFront(t: Skeleton, s: State, s1: State, f: nat, name: string, rest: seq<string>)
    requires StateOf(t, s) && StateOf(t, s1) && f < |t| && IsFunction(t, f) && InFront(s, s1, f, rest)
    requires t[f].kind == FUNCTION ==> (name in s1.w.bindings[f] <==> name in s1.w.bindings[ParamScopeOf(t, f)])
    ensures InFront(s, AddMandatoryParam(t, s1, f, name), f, [name] + rest)
    ensures NewIds(|s.w.vars|, [name] + rest) == [|s1.w.vars|] + NewIds(|s.w.vars|, rest)
  {
    var n := |s.w.vars|;
    assert NewIds(n, [name] + rest) == [n + |rest|] + NewIds(n, rest);
    assert NewIds(n, [name] + rest) + s.params[f] == [n + |rest|] + (NewIds(n, rest) + s.params[f]);
  }

  lemma OneMoreNamed(t: Skeleton, s1: State, f: nat, name: string, rest: seq<string>, ids: seq<nat>)
    requires StateOf(t, s1) && f < |t| && IsFunction(t, f) && |ids| == |rest| && NamedAndBound(s1.w, f, rest, ids)
    requires t[f].kind == FUNCTION ==> (name in s1.w.bindings[f] <==> name in s1.w.bindings[ParamScopeOf(t, f)])
    requires name !in s1.w.bindings[f]
    ensures NamedAndBound(AddMandatoryParam(t, s1, f, name).w, f, [name] + rest, [|s1.w.vars|] + ids)
  {
    var w := AddMandatoryParam(t, s1, f, name).w;
    forall k | 0 <= k < |rest| + 1
      ensures ([|s1.w.vars|] + ids)[k] < |w.vars|
      ensures w.vars[([|s1.w.vars|] + ids)[k]] == Variable(([name] + rest)[k], true, f, false, 0)
      ensures ([name] + rest)[k] in w.bindings[f] && w.bindings[f][([name] + rest)[k]] == ([|s1.w.vars|] + ids)[k]
    {
      if k > 0 {
        assert w.vars[ids[k - 1]] == s1.w.vars[ids[k - 1]];
        assert rest[k - 1] in s1.w.bindings[f];
      }
    }
  }

  /** Adding a table puts fresh variables of the function, in table order, in front of the parameters it had, and
      binds each under its name; every other function, variable and environment stays as it is. */
  lemma {:induction false} TableThenOriginal(t: Skeleton, s: State, f: nat, names: seq<string>)
    requires StateOf(t, s) && f < |t| && IsFunction(t, f) && NoneBound(t, s.w, f, names) && Distinct(names)
    ensures InFront(s, AddMandatoryParams(t, s, f, names), f, names)
    ensures NamedAndBound(AddMandatoryParams(t, s, f, names).w, f, names, NewIds(|s.w.vars|, names))
    decreases |names|
  {
    var n := |s.w.vars|;
    if names == [] {
      assert NewIds(n, names) + s.params[f] == s.params[f];
    } else {
      var s1, rest := AddMandatoryParams(t, s, f, names[1..]), names[1..];
      TableThenOriginal(t, s, f, rest);
      FirstNameIsFree(t, s, f, names);
      OneMoreInFront(t, s, s1, f, names[0], rest);
      OneMoreNamed(t, s1, f, names[0], rest, NewIds(n, rest));
    }
  }

  /** When the first name of a table has its turn, no scope of the function binds it yet. */
  lemma FirstNameIsFree(t: Skeleton, s: State, f: nat, names: seq<string>)
    requires StateOf(t, s) && f < |t| && IsFunction(t, f) && NoneBound(t, s.w, f, names) && Distinct(names)
             && names != []
    ensures names == [names[0]] + names[1..] && NoneBound(t, s.w, f, names[1..]) && Distinct(names[1..])
    ensures var s1 := AddMandatoryParams(t, s, f, names[1..]);
      && names[0] !in s1.w.bindings[f]
      && (t[f].kind == FUNCTION ==> names[0] !in s1.w.bindings[ParamScopeOf(t, f)])
      && AddMandatoryParams(t, s, f, names) == AddMandatoryParam(t, s1, f, names[0])
  {
    assert names[0] !in names[1..];
    assert names[0] in names;
  }
}
