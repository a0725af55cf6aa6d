/** What an arrow of a constructor finds when it looks up the function object, which it needs for `super`: the
    nearest function that holds one. */
module FunctionObject {
  import opened Options
  import opened ScopeTree
  import opened LexicalAddress
  import opened MandatoryParams
  import opened ArrowThis

  /** An arrow that uses `super` in a derived constructor leaves the name of the function object free. */
  predicate LeavesFree(fi: FunctionInfo) {
    fi.arrow && fi.superInCtor
  }

  lemma TableHasFunc(fi: FunctionInfo)
    ensures FUNC in TableOf(fi) <==> !LeavesFree(fi)
  {
    assert FUNC == FUNCTION_MANDATORY_PARAMS[0] == ARROW_MANDATORY_PARAMS[0];
    assert FUNC !in CTOR_ARROW_MANDATORY_PARAMS;
  }

  /** The functions of the list that bind the function object: all but the arrows that use `super`. */
  function Holders(fs: seq<FunctionInfo>): set<nat> {
    set k | 0 <= k < |fs| && !LeavesFree(fs[k]) :: fs[k].scope
  }

  lemma HoldersStep(fs: seq<FunctionInfo>)
    requires fs != []
    ensures var n := |fs| - 1;
      Holders(fs) == Holders(fs[..n]) + (if LeavesFree(fs[n]) then {} else {fs[n].scope})
  {
    assert forall k :: 0 <= k < |fs| - 1 ==> fs[..|fs| - 1][k] == fs[k];
  }

  /** The function object is bound in the scopes of exactly these functions. */
  ghost predicate FuncBound(t: Skeleton, b: seq<map<string, nat>>, holders: set<nat>)
    requires WellFormed(t) && |b| == |t|
  {
    forall i :: 0 <= i < |t| ==> FuncAt(t, b, holders, i)
  }

  predicate FuncAt(t: Skeleton, b: seq<map<string, nat>>, holders: set<nat>, i: nat)
    requires WellFormed(t) && i < |t| == |b|
  {
    FUNC in b[i] <==> Host(t, i) in holders
  }

  lemma AddedKeepsFunc(t: Skeleton, s: State, fi: FunctionInfo, holders: set<nat>, i: nat)
    requires StateOf(t, s) && FuncBound(t, s.w.bindings, holders) && i < |t|
    requires fi.scope < |t| && IsFunction(t, fi.scope) && NoneBound(t, s.w, fi.scope, TableOf(fi))
    ensures FuncAt(t, AddMandatoryParams(t, s, fi.scope, TableOf(fi)).w.bindings,
                   holders + (if LeavesFree(fi) then {} else {fi.scope}), i)
  {
    TableHasFunc(fi);
    assert FuncAt(t, s.w.bindings, holders, i);
    AddedNames(t, s, fi.scope, TableOf(fi), i, FUNC);
  }

  /** A table adds its names to the scopes of its function, and nothing elsewhere. */
  lemma AddedNames(t: Skeleton, s: State, f: nat, names: seq<string>, i: nat, x: string)
    requires StateOf(t, s) && f < |t| && IsFunction(t, f) && NoneBound(t, s.w, f, names) && Distinct(names) && i < |t|
    ensures x in AddMandatoryParams(t, s, f, names).w.bindings[i] <==>
            x in s.w.bindings[i] || (Host(t, i) == f && x in names)
  {
    assert WellFormedAt(t, i) && WellFormedAt(t, f);
    if Host(t, i) != f {
      assert t[f].kind == FUNCTION ==> i != ParamScopeOf(t, f);
    } else {
      assert i == f || (t[f].kind == FUNCTION && i == ParamScopeOf(t, f));
    }
  }

  lemma {:induction false} ProcessAllBindsFunc(t: Skeleton, arrows: set<nat>, s: State, fs: seq<FunctionInfo>)
    requires StateOf(t, s) && Hidden(t, s.w, {}, {}) && Listing(t, arrows, fs)
    ensures FuncBound(t, ProcessAll(t, arrows, s, fs).w.bindings, Holders(fs))
    decreases |fs|
  {
    if fs == [] {
      forall i | 0 <= i < |t| ensures FuncAt(t, s.w.bindings, Holders(fs), i) {
        assert HiddenAt(t, s.w.bindings, {}, {}, i);
      }
    } else {
      var n := |fs| - 1;
      ListingInit(t, arrows, fs);
      ProcessAllBindsFunc(t, arrows, s, fs[..n]);
      HoldersStep(fs);
      var before := ProcessAll(t, arrows, s, fs[..n]);
      NotDoneIsUnbound(t, before.w, fs[n], Done(fs[..n]), OrdinaryOf(fs[..n]));
      forall i | 0 <= i < |t| ensures FuncAt(t, ProcessAll(t, arrows, s, fs).w.bindings, Holders(fs), i) {
        AddedKeepsFunc(t, before, fs[n], Holders(fs[..n]), i);
      }
    }
  }

  /** The innermost function of a set around a scope. */
  function NearestHolder(t: Skeleton, holders: set<nat>, i: nat): (h: Option<nat>)
    requires WellFormed(t) && i < |t|
    ensures h.Some? ==> h.value in holders
    decreases i
  {
    if Host(t, i) in holders then Some(Host(t, i)) else if i == 0 then None else NearestHolder(t, holders, Parent(t, i))
  }

  lemma {:induction false} LookupFindsHolder(t: Skeleton, b: seq<map<string, nat>>, holders: set<nat>, i: nat)
    requires WellFormed(t) && |b| == |t| && FuncBound(t, b, holders) && i < |t|
    ensures var r := Resolve(t, b, FUNC, i);
      && (r.Resolved? ==> r.scope < |t|)
      && NearestHolder(t, holders, i) == if r.Resolved? then Some(Host(t, r.scope)) else None
    decreases i
  {
    assert FuncAt(t, b, holders, i);
    if FUNC !in b[i] && i != 0 {
      LookupFindsHolder(t, b, holders, Parent(t, i));
    }
  }

  /** Arrow `h` lies between scope `i` and the nearest enclosing ordinary function; so does the arrow of `i` itself. */
  predicate Between(t: Skeleton, arrows: set<nat>, i: nat, h: nat)
    requires WellFormed(t) && i < |t|
    decreases i
  {
    !(IsFunction(t, Host(t, i)) && (Host(t, i) !in arrows || i == 0))
    && ((IsFunction(t, Host(t, i)) && h == Host(t, i)) || (i > 0 && Between(t, arrows, Parent(t, i), h)))
  }

  lemma {:induction false} HolderIsEnclosing(t: Skeleton, arrows: set<nat>, holders: set<nat>, i: nat)
    requires WellFormed(t) && i < |t| && 0 !in arrows && forall h :: h in holders ==> h < |t| && IsFunction(t, h)
    ensures var g := EnclosingOrdinary(t, arrows, i);
      NearestHolder(t, holders, i) == Some(g) <==>
        g in holders && forall h :: Between(t, arrows, i, h) ==> h !in holders
    decreases i
  {
    assert WellFormedAt(t, i);
    EnclosingIsNoArrow(t, arrows, i);
    if !(IsFunction(t, Host(t, i)) && (Host(t, i) !in arrows || i == 0)) {
      HolderIsEnclosing(t, arrows, holders, Parent(t, i));
      assert IsFunction(t, Host(t, i)) ==> Between(t, arrows, i, Host(t, i));
      assert forall h :: Between(t, arrows, Parent(t, i), h) ==> Between(t, arrows, i, h);
    }
  }

  /** The function whose function object the lookup of the arrow at position `k` finds, at the time it is made. */
  ghost function FuncAtLookup(t: Skeleton, arrows: set<nat>, s: State, fs: seq<FunctionInfo>, k: nat): (h: Option<nat>)
    requires StateOf(t, s) && Hidden(t, s.w, {}, {}) && Listing(t, arrows, fs) && k < |fs|
  {
    AtLookup(t, arrows, s, fs, k, FUNC)
  }

  /** An arrow that uses `super` in a derived constructor finds the constructor's function object if and only if the
      constructor comes earlier in the list and no arrow between them that is in the list before it binds its own. */
  lemma ConstructorArrowFindsFunc(t: Skeleton, arrows: set<nat>, s: State, fs: seq<FunctionInfo>, k: nat)
    requires StateOf(t, s) && Hidden(t, s.w, {}, {}) && Listing(t, arrows, fs) && 0 !in arrows
    requires k < |fs| && LeavesFree(fs[k])
    ensures var g := EnclosingOrdinary(t, arrows, fs[k].scope);
      FuncAtLookup(t, arrows, s, fs, k) == Some(g) <==>
        && g in Done(fs[..k])
        && forall j :: 0 <= j < k && Between(t, arrows, fs[k].scope, fs[j].scope) ==> LeavesFree(fs[j])
  {
    var a, holders := fs[k].scope, Holders(fs[..k]);
    var g := EnclosingOrdinary(t, arrows, a);
    ListingPrefix(t, arrows, fs, k);
    ProcessAllBindsFunc(t, arrows, s, fs[..k]);
    var before := ProcessAll(t, arrows, s, fs[..k]);
    DoneIsBefore(fs, k);
    NotDoneIsUnbound(t, before.w, fs[k], Done(fs[..k]), OrdinaryOf(fs[..k]));
    var b := AddMandatoryParams(t, before, a, TableOf(fs[k])).w.bindings;
    assert holders + {} == holders;
    forall i | 0 <= i < |t| ensures FuncAt(t, b, holders, i) {
      AddedKeepsFunc(t, before, fs[k], holders, i);
    }
    LookupFindsHolder(t, b, holders, a);
    HolderIsEnclosing(t, arrows, holders, a);
    HoldersBetween(t, arrows, fs, k, g);
  }

  lemma HoldersBetween(t: Skeleton, arrows: set<nat>, fs: seq<FunctionInfo>, k: nat, g: nat)
    requires Listing(t, arrows, fs) && k < |fs| && g == EnclosingOrdinary(t, arrows, fs[k].scope) && 0 !in arrows
    ensures g in Holders(fs[..k]) <==> g in Done(fs[..k])
    ensures (forall h :: Between(t, arrows, fs[k].scope, h) ==> h !in Holders(fs[..k])) <==>
            (forall j :: 0 <= j < k && Between(t, arrows, fs[k].scope, fs[j].scope) ==> LeavesFree(fs[j]))
  {
    EnclosingIsNoArrow(t, arrows, fs[k].scope);
    assert forall j :: 0 <= j < k ==> fs[..k][j] == fs[j];
    if g in Done(fs[..k]) {
      var j :| 0 <= j < k && fs[..k][j].scope == g;
      assert !fs[j].arrow;
    }
    forall j | 0 <= j < k && !LeavesFree(fs[j]) ensures fs[j].scope in Holders(fs[..k]) {
      assert !LeavesFree(fs[..k][j]);
    }
  }

  /** A derived constructor with `() => () => super.m()`: the outer arrow binds the function object itself, and the
      inner one, which uses `super`, finds that of the outer arrow. */
  function NestedArrows(): (Skeleton, seq<FunctionInfo>)
  {
    ([ScopeNode(GLOBAL, None, None), ScopeNode(FUNCTION_PARAM, Some(0), Some(2)), ScopeNode(FUNCTION, Some(1), None),
      ScopeNode(FUNCTION_PARAM, Some(2), Some(4)), ScopeNode(FUNCTION, Some(3), None),
      ScopeNode(FUNCTION_PARAM, Some(4), Some(6)), ScopeNode(FUNCTION, Some(5), None)],
     [FunctionInfo(0, false, false, false, false, false), FunctionInfo(2, false, false, false, false, false),
      FunctionInfo(4, true, false, false, false, false), FunctionInfo(6, true, true, false, true, false)])
  }

  lemma NestedArrowScopes()
    ensures var (t, fs) := NestedArrows();
      && WellFormed(t) && Listing(t, {4, 6}, fs) && EnclosingOrdinary(t, {4, 6}, 6) == 2
  {
    var (t, fs) := NestedArrows();
    forall i | 0 <= i < |t| ensures WellFormedAt(t, i) {
    }
    assert WellFormed(t);
    var arrows := {4, 6};
    assert EnclosingOrdinary(t, arrows, 4) == EnclosingOrdinary(t, arrows, 3) == EnclosingOrdinary(t, arrows, 2) == 2;
    assert EnclosingOrdinary(t, arrows, 6) == EnclosingOrdinary(t, arrows, 5) == EnclosingOrdinary(t, arrows, 4);
  }

  lemma PlainArrowIsBetween()
    ensures WellFormed(NestedArrows().0) && Between(NestedArrows().0, {4, 6}, 6, 4)
  {
    var t, arrows := NestedArrows().0, {4, 6};
    NestedArrowScopes();
    assert WellFormedAt(t, 4) && WellFormedAt(t, 5) && WellFormedAt(t, 6);
    assert Between(t, arrows, 4, 4);
    assert Between(t, arrows, 5, 4);
  }

  lemma PlainArrowHidesConstructor()
    ensures var (t, fs) := NestedArrows();
      && WellFormed(t) && Listing(t, {4, 6}, fs) && EnclosingOrdinary(t, {4, 6}, 6) == 2 && 2 in Done(fs[..3])
      && StateOf(t, EmptyState(t)) && Hidden(t, EmptyState(t).w, {}, {})
      && FuncAtLookup(t, {4, 6}, EmptyState(t), fs, 3) != Some(2)
  {
    var (t, fs) := NestedArrows();
    NestedArrowScopes();
    PlainArrowIsBetween();
    EmptyStateOk(t);
    assert fs[..3][1].scope == 2;
    ConstructorArrowFindsFunc(t, {4, 6}, EmptyState(t), fs, 3);
  }
}
