/** The pass that gives every function its hidden parameters, what the arrows then see as `this`, and which variables
    of the enclosing functions they capture. */
module ArrowThis {
  import opened Options
  import opened ScopeTree
  import opened LexicalAddress
  import opened LexicalCapture
  import opened MandatoryParams

  /** One entry of the list of functions: its scope and the flags that the reference pass left on it. */
  datatype FunctionInfo = FunctionInfo(scope: nat, arrow: bool, superInCtor: bool,
                                       usesNewTarget: bool, usesThisOrSuper: bool, usesArgs: bool)

  function TableOf(fi: FunctionInfo): (names: seq<string>)
    ensures Distinct(names)
    ensures forall x :: x in names ==> x in HIDDEN_NAMES
    ensures fi.arrow ==> THIS !in names && NEW_TARGET !in names
    ensures !fi.arrow ==> THIS in names && NEW_TARGET in names
  {
    if !fi.arrow then FUNCTION_MANDATORY_PARAMS
    else if fi.superInCtor then CTOR_ARROW_MANDATORY_PARAMS
    else ARROW_MANDATORY_PARAMS
  }

  const HIDDEN_NAMES := {FUNC, NEW_TARGET, THIS, "0funcObj", "0newTarget", "0this"}

  /** The lookups that an arrow makes right after it got its own parameters. */
  function LookupsOf(fi: FunctionInfo): (es: seq<Reference>)
    ensures forall e :: e in es ==> e.scope == fi.scope
    ensures fi.arrow && fi.usesThisOrSuper ==> Reference(fi.scope, THIS) in es
    ensures fi.arrow && fi.usesNewTarget ==> Reference(fi.scope, NEW_TARGET) in es
  {
    if !fi.arrow then []
    else
      (if fi.usesNewTarget then [Reference(fi.scope, NEW_TARGET)] else [])
      + (if fi.usesThisOrSuper then [Reference(fi.scope, THIS)] else [])
      + (if fi.usesArgs then [Reference(fi.scope, "arguments")] else [])
      + (if fi.superInCtor then [Reference(fi.scope, FUNC)] else [])
  }

  /** The function that a scope's bindings of hidden parameters belong to. */
  function Host(t: Skeleton, i: nat): nat
    requires WellFormed(t) && i < |t|
  {
    if t[i].kind == FUNCTION_PARAM then FunctionOf(t, i) else i
  }

  /** Hidden names are bound only in functions that are done; `this` and `new.target` exactly in the ordinary ones. */
  ghost predicate HiddenAt(t: Skeleton, bindings: seq<map<string, nat>>, done: set<nat>, ordinary: set<nat>, i: nat)
    requires WellFormed(t) && i < |t| == |bindings|
  {
    && (forall x :: x in HIDDEN_NAMES && x in bindings[i] ==> Host(t, i) in done)
    && (THIS in bindings[i] <==> Host(t, i) in ordinary)
    && (NEW_TARGET in bindings[i] <==> Host(t, i) in ordinary)
  }

  /** A parameter scope and its function scope bind the name to the same variable. */
  predicate SharedAt(t: Skeleton, bindings: seq<map<string, nat>>, i: nat, x: string)
    requires WellFormed(t) && i < |t| == |bindings|
  {
    t[i].kind == FUNCTION_PARAM && x in bindings[i] ==>
      x in bindings[FunctionOf(t, i)] && bindings[FunctionOf(t, i)][x] == bindings[i][x]
  }

  predicate IsLocalAt(w: World, i: nat, x: string)
    requires i < |w.bindings|
  {
    x in w.bindings[i] && w.bindings[i][x] < |w.vars| &&
    w.vars[w.bindings[i][x]].local && w.vars[w.bindings[i][x]].home == i
  }

  /** The `this` and `new.target` of the ordinary functions are capturable variables of theirs. */
  ghost predicate Locals(w: World, ordinary: set<nat>) {
    forall i :: i in ordinary ==> i < |w.bindings| && IsLocalAt(w, i, THIS) && IsLocalAt(w, i, NEW_TARGET)
  }

  ghost predicate HiddenEverywhere(t: Skeleton, bindings: seq<map<string, nat>>, done: set<nat>, ordinary: set<nat>)
    requires WellFormed(t) && |t| == |bindings|
  {
    forall i :: 0 <= i < |t| ==> HiddenAt(t, bindings, done, ordinary, i)
  }

  ghost predicate SharedEverywhere(t: Skeleton, bindings: seq<map<string, nat>>)
    requires WellFormed(t) && |t| == |bindings|
  {
    forall i :: 0 <= i < |t| ==> SharedAt(t, bindings, i, THIS) && SharedAt(t, bindings, i, NEW_TARGET)
  }

  ghost predicate Hidden(t: Skeleton, w: World, done: set<nat>, ordinary: set<nat>) {
    && WorldOf(t, w) && ordinary <= done && (forall f :: f in done ==> f < |t| && IsFunction(t, f))
    && HiddenEverywhere(t, w.bindings, done, ordinary) && SharedEverywhere(t, w.bindings)
  }

  /** A program that declares nothing. */
  function EmptyState(t: Skeleton): State {
    State(World(seq(|t|, i => map[]), seq(|t|, i => 0), []), seq(|t|, i => []))
  }

  lemma EmptyStateOk(t: Skeleton)
    requires WellFormed(t)
    ensures StateOf(t, EmptyState(t)) && Hidden(t, EmptyState(t).w, {}, {})
  {
    var w := EmptyState(t).w;
    forall i | 0 <= i < |t| ensures BindingsAt(t, w, i) && HiddenAt(t, w.bindings, {}, {}, i) {
      assert w.bindings[i] == map[];
    }
    forall i | 0 <= i < |t| ensures SharedAt(t, w.bindings, i, THIS) && SharedAt(t, w.bindings, i, NEW_TARGET) {
      assert w.bindings[i] == map[];
    }
  }

  function Process(t: Skeleton, s: State, fi: FunctionInfo, ghost done: set<nat>, ghost ordinary: set<nat>): (s': State)
    requires StateOf(t, s) && Hidden(t, s.w, done, ordinary)
    requires fi.scope < |t| && IsFunction(t, fi.scope) && fi.scope !in done
    ensures StateOf(t, s')
  {
    NotDoneIsUnbound(t, s.w, fi, done, ordinary);
    var s1 := AddMandatoryParams(t, s, fi.scope, TableOf(fi));
    LookupsKeepVars(t, s1.w, LookupsOf(fi));
    State(ResolveAll(t, s1.w, LookupsOf(fi)), s1.params)
  }

  lemma NotDoneIsUnbound(t: Skeleton, w: World, fi: FunctionInfo, done: set<nat>, ordinary: set<nat>)
    requires Hidden(t, w, done, ordinary) && fi.scope < |t| && IsFunction(t, fi.scope) && fi.scope !in done
    ensures NoneBound(t, w, fi.scope, TableOf(fi))
  {
    var f := fi.scope;
    assert HiddenAt(t, w.bindings, done, ordinary, f);
    if t[f].kind == FUNCTION {
      assert HiddenAt(t, w.bindings, done, ordinary, ParamScopeOf(t, f));
    }
  }

  /** A run of lookups only marks variables as captured. */
  lemma {:induction false} LookupsKeepVars(t: Skeleton, w: World, es: seq<Reference>)
    requires WorldOf(t, w) && InTree(t, es)
    ensures var w' := ResolveAll(t, w, es);
      && |w'.vars| == |w.vars|
      && forall v :: 0 <= v < |w.vars| ==>
           && w'.vars[v].local == w.vars[v].local && w'.vars[v].home == w.vars[v].home
              && w'.vars[v].name == w.vars[v].name
           && (w.vars[v].lexicalBound ==> w'.vars[v] == w.vars[v])
    decreases |es|
  {
    if es != [] {
      LookupsKeepVars(t, w, es[..|es| - 1]);
    }
  }

  function Ordinary(fi: FunctionInfo): set<nat> {
    if fi.arrow then {} else {fi.scope}
  }

  /** In the scopes of the function itself: exactly the names of its table are new. */
  lemma AddedIsHiddenHere(t: Skeleton, s: State, fi: FunctionInfo, done: set<nat>, ordinary: set<nat>, i: nat)
    requires StateOf(t, s) && Hidden(t, s.w, done, ordinary) && i < |t| && Host(t, i) == fi.scope
    requires IsFunction(t, fi.scope) && fi.scope !in done && NoneBound(t, s.w, fi.scope, TableOf(fi))
    ensures var w := AddMandatoryParams(t, s, fi.scope, TableOf(fi)).w;
      HiddenAt(t, w.bindings, done + {fi.scope}, ordinary + Ordinary(fi), i)
  {
    assert HiddenAt(t, s.w.bindings, done, ordinary, i) && WellFormedAt(t, i);
  }

  /** Everywhere else nothing changes. */
  lemma AddedIsHiddenElsewhere(t: Skeleton, s: State, fi: FunctionInfo, done: set<nat>, ordinary: set<nat>, i: nat)
    requires StateOf(t, s) && Hidden(t, s.w, done, ordinary) && i < |t| && Host(t, i) != fi.scope
    requires fi.scope < |t| && IsFunction(t, fi.scope) && fi.scope !in done && NoneBound(t, s.w, fi.scope, TableOf(fi))
    ensures var w := AddMandatoryParams(t, s, fi.scope, TableOf(fi)).w;
      HiddenAt(t, w.bindings, done + {fi.scope}, ordinary + Ordinary(fi), i)
  {
    var s1 := AddMandatoryParams(t, s, fi.scope, TableOf(fi));
    assert HiddenAt(t, s.w.bindings, done, ordinary, i) && WellFormedAt(t, i) && WellFormedAt(t, fi.scope);
    assert i != fi.scope && (t[fi.scope].kind == FUNCTION ==> i != ParamScopeOf(t, fi.scope));
    assert s1.w.bindings[i] == s.w.bindings[i];
  }

  lemma AddedIsShared(t: Skeleton, s: State, fi: FunctionInfo, done: set<nat>, ordinary: set<nat>, i: nat, x: string)
    requires StateOf(t, s) && Hidden(t, s.w, done, ordinary) && i < |t| && (x == THIS || x == NEW_TARGET)
    requires fi.scope < |t| && IsFunction(t, fi.scope) && fi.scope !in done && NoneBound(t, s.w, fi.scope, TableOf(fi))
    ensures SharedAt(t, AddMandatoryParams(t, s, fi.scope, TableOf(fi)).w.bindings, i, x)
  {
    var b := AddMandatoryParams(t, s, fi.scope, TableOf(fi)).w.bindings;
    assert SharedAt(t, s.w.bindings, i, x) && WellFormedAt(t, i) && WellFormedAt(t, fi.scope);
    if t[i].kind == FUNCTION_PARAM && FunctionOf(t, i) != fi.scope {
      assert t[fi.scope].kind == FUNCTION ==> i != ParamScopeOf(t, fi.scope);
      assert b[i] == s.w.bindings[i] && b[FunctionOf(t, i)] == s.w.bindings[FunctionOf(t, i)];
    }
  }

  lemma AddedKeepsLocals(t: Skeleton, s: State, fi: FunctionInfo, done: set<nat>, ordinary: set<nat>)
    requires StateOf(t, s) && Hidden(t, s.w, done, ordinary) && Locals(s.w, ordinary)
    requires fi.scope < |t| && IsFunction(t, fi.scope) && fi.scope !in done && NoneBound(t, s.w, fi.scope, TableOf(fi))
    ensures Locals(AddMandatoryParams(t, s, fi.scope, TableOf(fi)).w, ordinary + Ordinary(fi))
  {
    var s1 := AddMandatoryParams(t, s, fi.scope, TableOf(fi));
    TableThenOriginal(t, s, fi.scope, TableOf(fi));
    if !fi.arrow {
      OwnLocals(t, s, fi);
    }
    forall i | i in ordinary ensures i < |t| && IsLocalAt(s1.w, i, THIS) && IsLocalAt(s1.w, i, NEW_TARGET) {
      ElsewhereUnchanged(t, s, fi, done, ordinary, i);
      VarsKept(s.w, s1.w, i, THIS);
      VarsKept(s.w, s1.w, i, NEW_TARGET);
    }
  }

  lemma OwnLocals(t: Skeleton, s: State, fi: FunctionInfo)
    requires StateOf(t, s) && fi.scope < |t| && IsFunction(t, fi.scope) && NoneBound(t, s.w, fi.scope, TableOf(fi))
             && !fi.arrow
    ensures var w := AddMandatoryParams(t, s, fi.scope, TableOf(fi)).w;
      fi.scope < |w.bindings| && IsLocalAt(w, fi.scope, THIS) && IsLocalAt(w, fi.scope, NEW_TARGET)
  {
    TableThenOriginal(t, s, fi.scope, TableOf(fi));
    assert TableOf(fi)[1] == NEW_TARGET && TableOf(fi)[2] == THIS;
  }

  lemma ElsewhereUnchanged(t: Skeleton, s: State, fi: FunctionInfo, done: set<nat>, ordinary: set<nat>, i: nat)
    requires StateOf(t, s) && Hidden(t, s.w, done, ordinary) && i in ordinary
    requires fi.scope < |t| && IsFunction(t, fi.scope) && fi.scope !in done && NoneBound(t, s.w, fi.scope, TableOf(fi))
    ensures AddMandatoryParams(t, s, fi.scope, TableOf(fi)).w.bindings[i] == s.w.bindings[i]
  {
    assert t[fi.scope].kind == FUNCTION ==> i != ParamScopeOf(t, fi.scope);
  }

  lemma VarsKept(w: World, w1: World, i: nat, x: string)
    requires i < |w.bindings| == |w1.bindings| && w1.bindings[i] == w.bindings[i] && IsLocalAt(w, i, x)
    requires |w.vars| <= |w1.vars| && w1.vars[..|w.vars|] == w.vars
    ensures IsLocalAt(w1, i, x)
  {
    assert w1.vars[..|w.vars|][w.bindings[i][x]] == w.vars[w.bindings[i][x]];
  }

  lemma AddedIsSharedEverywhere(t: Skeleton, s: State, fi: FunctionInfo, done: set<nat>, ordinary: set<nat>)
    requires StateOf(t, s) && Hidden(t, s.w, done, ordinary)
    requires fi.scope < |t| && IsFunction(t, fi.scope) && fi.scope !in done && NoneBound(t, s.w, fi.scope, TableOf(fi))
    ensures SharedEverywhere(t, AddMandatoryParams(t, s, fi.scope, TableOf(fi)).w.bindings)
  {
    var b := AddMandatoryParams(t, s, fi.scope, TableOf(fi)).w.bindings;
    forall i | 0 <= i < |t| ensures SharedAt(t, b, i, THIS) && SharedAt(t, b, i, NEW_TARGET) {
      AddedIsShared(t, s, fi, done, ordinary, i, THIS);
      AddedIsShared(t, s, fi, done, ordinary, i, NEW_TARGET);
    }
  }

  lemma AddedIsHiddenEverywhere(t: Skeleton, s: State, fi: FunctionInfo, done: set<nat>, ordinary: set<nat>)
    requires StateOf(t, s) && Hidden(t, s.w, done, ordinary)
    requires fi.scope < |t| && IsFunction(t, fi.scope) && fi.scope !in done && NoneBound(t, s.w, fi.scope, TableOf(fi))
    ensures HiddenEverywhere(t, AddMandatoryParams(t, s, fi.scope, TableOf(fi)).w.bindings,
                             done + {fi.scope}, ordinary + Ordinary(fi))
  {
    var b := AddMandatoryParams(t, s, fi.scope, TableOf(fi)).w.bindings;
    forall i | 0 <= i < |t| ensures HiddenAt(t, b, done + {fi.scope}, ordinary + Ordinary(fi), i) {
      if Host(t, i) == fi.scope {
        AddedIsHiddenHere(t, s, fi, done, ordinary, i);
      } else {
        AddedIsHiddenElsewhere(t, s, fi, done, ordinary, i);
      }
    }
  }

  lemma HiddenWorld(t: Skeleton, w: World, done: set<nat>, ordinary: set<nat>)
    requires WorldOf(t, w) && ordinary <= done && forall f :: f in done ==> f < |t| && IsFunction(t, f)
    requires HiddenEverywhere(t, w.bindings, done, ordinary) && SharedEverywhere(t, w.bindings)
    ensures Hidden(t, w, done, ordinary)
  {
  }

  lemma AddedKeepsHidden(t: Skeleton, s: State, fi: FunctionInfo, done: set<nat>, ordinary: set<nat>)
    requires StateOf(t, s) && Hidden(t, s.w, done, ordinary)
    requires fi.scope < |t| && IsFunction(t, fi.scope) && fi.scope !in done && NoneBound(t, s.w, fi.scope, TableOf(fi))
    ensures Hidden(t, AddMandatoryParams(t, s, fi.scope, TableOf(fi)).w, done + {fi.scope}, ordinary + Ordinary(fi))
  {
    AddedIsHiddenEverywhere(t, s, fi, done, ordinary);
    AddedIsSharedEverywhere(t, s, fi, done, ordinary);
    HiddenWorld(t, AddMandatoryParams(t, s, fi.scope, TableOf(fi)).w, done + {fi.scope}, ordinary + Ordinary(fi));
  }

  lemma LookupsKeepHidden(t: Skeleton, w: World, es: seq<Reference>, done: set<nat>, ordinary: set<nat>)
    requires Hidden(t, w, done, ordinary) && Locals(w, ordinary) && InTree(t, es)
    ensures Hidden(t, ResolveAll(t, w, es), done, ordinary) && Locals(ResolveAll(t, w, es), ordinary)
  {
    LookupsKeepVars(t, w, es);
    var w' := ResolveAll(t, w, es);
    forall i | 0 <= i < |t| ensures HiddenAt(t, w'.bindings, done, ordinary, i) {
      assert HiddenAt(t, w.bindings, done, ordinary, i);
    }
    forall i | i in ordinary ensures i < |w.bindings| && IsLocalAt(w', i, THIS) && IsLocalAt(w', i, NEW_TARGET) {
      assert IsLocalAt(w, i, THIS) && IsLocalAt(w, i, NEW_TARGET);
    }
  }

  /** One function of the list keeps the discipline of the hidden names. */
  lemma ProcessKeepsHidden(t: Skeleton, s: State, fi: FunctionInfo, done: set<nat>, ordinary: set<nat>)
    requires StateOf(t, s) && Hidden(t, s.w, done, ordinary) && Locals(s.w, ordinary)
    requires fi.scope < |t| && IsFunction(t, fi.scope) && fi.scope !in done
    ensures Hidden(t, Process(t, s, fi, done, ordinary).w, done + {fi.scope}, ordinary + Ordinary(fi))
    ensures Locals(Process(t, s, fi, done, ordinary).w, ordinary + Ordinary(fi))
  {
    NotDoneIsUnbound(t, s.w, fi, done, ordinary);
    AddedKeepsHidden(t, s, fi, done, ordinary);
    AddedKeepsLocals(t, s, fi, done, ordinary);
    var s1 := AddMandatoryParams(t, s, fi.scope, TableOf(fi));
    LookupsKeepHidden(t, s1.w, LookupsOf(fi), done + {fi.scope}, ordinary + Ordinary(fi));
  }

  // ----- the whole list

  /** The list of functions: each function of the program at most once; `arrows` are the arrow functions. */
  ghost predicate Listing(t: Skeleton, arrows: set<nat>, fs: seq<FunctionInfo>) {
    && WellFormed(t)
    && (forall k :: 0 <= k < |fs| ==>
          fs[k].scope < |t| && IsFunction(t, fs[k].scope) && (fs[k].arrow <==> fs[k].scope in arrows))
    && (forall j, k :: 0 <= j < k < |fs| ==> fs[j].scope != fs[k].scope)
  }

  function Done(fs: seq<FunctionInfo>): set<nat> {
    set k | 0 <= k < |fs| :: fs[k].scope
  }

  function OrdinaryOf(fs: seq<FunctionInfo>): set<nat> {
    set k | 0 <= k < |fs| && !fs[k].arrow :: fs[k].scope
  }

  lemma DoneStep(fs: seq<FunctionInfo>)
    requires fs != []
    ensures var n := |fs| - 1;
      Done(fs) == Done(fs[..n]) + {fs[n].scope} && OrdinaryOf(fs) == OrdinaryOf(fs[..n]) + Ordinary(fs[n])
  {
    var n := |fs| - 1;
    assert forall k :: 0 <= k < n ==> fs[..n][k] == fs[k];
  }

  lemma DoneIsBefore(fs: seq<FunctionInfo>, k: nat)
    requires k < |fs| && forall i, j :: 0 <= i < j < |fs| ==> fs[i].scope != fs[j].scope
    ensures fs[k].scope !in Done(fs[..k])
  {
  }

  lemma ListingInit(t: Skeleton, arrows: set<nat>, fs: seq<FunctionInfo>)
    requires Listing(t, arrows, fs) && fs != []
    ensures Listing(t, arrows, fs[..|fs| - 1])
    ensures var last := fs[|fs| - 1];
      last.scope < |t| && IsFunction(t, last.scope) && last.scope !in Done(fs[..|fs| - 1])
  {
    DoneIsBefore(fs, |fs| - 1);
  }

  /** The state after the whole list, in order. */
  function ProcessAll(t: Skeleton, arrows: set<nat>, s: State, fs: seq<FunctionInfo>): (s': State)
    requires StateOf(t, s) && Hidden(t, s.w, {}, {}) && Listing(t, arrows, fs)
    ensures StateOf(t, s') && Hidden(t, s'.w, Done(fs), OrdinaryOf(fs)) && Locals(s'.w, OrdinaryOf(fs))
    decreases |fs|
  {
    if fs == [] then
      assert Done(fs) == {} && OrdinaryOf(fs) == {};
      s
    else
      var n := |fs| - 1;
      ListingInit(t, arrows, fs);
      var before := ProcessAll(t, arrows, s, fs[..n]);
      DoneStep(fs);
      ProcessKeepsHidden(t, before, fs[n], Done(fs[..n]), OrdinaryOf(fs[..n]));
      Process(t, before, fs[n], Done(fs[..n]), OrdinaryOf(fs[..n]))
  }

  /** The nearest function around a scope that is not an arrow; the top scope at the latest. */
  function EnclosingOrdinary(t: Skeleton, arrows: set<nat>, i: nat): (g: nat)
    requires WellFormed(t) && i < |t|
    ensures g < |t| && IsFunction(t, g)
    decreases i
  {
    if IsFunction(t, Host(t, i)) && (Host(t, i) !in arrows || i == 0) then Host(t, i)
    else
      assert WellFormedAt(t, i);
      EnclosingOrdinary(t, arrows, Parent(t, i))
  }

  /** What a lookup of a hidden name finds: the nearest ordinary function's own variable iff that function is done. */
  lemma {:induction false} LookupFindsEnclosing(t: Skeleton, w: World, done: set<nat>, ordinary: set<nat>,
                                                arrows: set<nat>,
                                                x: string, i: nat)
    requires Hidden(t, w, done, ordinary) && i < |t| && (x == THIS || x == NEW_TARGET)
    requires ordinary !! arrows && 0 !in arrows
    ensures var g, r := EnclosingOrdinary(t, arrows, i), Resolve(t, w.bindings, x, i);
      && (r.Resolved? ==> r.scope < |t| && Host(t, r.scope) in ordinary)
      && (g in ordinary <==> r.Resolved? && Host(t, r.scope) == g)
      && (g in ordinary ==> x in w.bindings[g] && r.variable == w.bindings[g][x])
    decreases i
  {
    assert HiddenAt(t, w.bindings, done, ordinary, i) && BindingsAt(t, w, i) && WellFormedAt(t, i);
    assert SharedAt(t, w.bindings, i, x);
    if x !in w.bindings[i] && i != 0 {
      LookupFindsEnclosing(t, w, done, ordinary, arrows, x, Parent(t, i));
    }
  }

  /** A variable that is captured, and whose it is. */
  ghost predicate CapturedAt(w: World, g: nat, x: string)
    requires g < |w.bindings|
  {
    IsLocalAt(w, g, x) && w.vars[w.bindings[g][x]].lexicalBound
  }

  /** The lookups of an arrow capture what they resolve to. */
  lemma ArrowCaptures(t: Skeleton, w: World, fi: FunctionInfo, done: set<nat>, ordinary: set<nat>, arrows: set<nat>,
                      x: string)
    requires Hidden(t, w, done, ordinary) && Locals(w, ordinary) && ordinary !! arrows && 0 !in arrows
    requires fi.scope < |t| && IsFunction(t, fi.scope) && fi.arrow && fi.scope in arrows
    requires (x == THIS && fi.usesThisOrSuper) || (x == NEW_TARGET && fi.usesNewTarget)
    requires EnclosingOrdinary(t, arrows, fi.scope) in ordinary
    ensures CapturedAt(ResolveAll(t, w, LookupsOf(fi)), EnclosingOrdinary(t, arrows, fi.scope), x)
  {
    var g, e, es := EnclosingOrdinary(t, arrows, fi.scope), Reference(fi.scope, x), LookupsOf(fi);
    LookupFindsEnclosing(t, w, done, ordinary, arrows, x, fi.scope);
    var r := Resolve(t, w.bindings, x, fi.scope);
    assert IsLocalAt(w, g, x);
    HostIsActivation(t, r.scope, g);
    assert e in es && Captures(t, w.bindings, e, r.variable);
    CaptureIsExact(t, w, es, r.variable);
    LookupsKeepVars(t, w, es);
  }

  lemma HostIsActivation(t: Skeleton, i: nat, g: nat)
    requires WellFormed(t) && i < |t| && Host(t, i) == g && g < |t| && IsFunction(t, g)
    ensures Activation(t, i) == g
  {
    assert WellFormedAt(t, i);
  }

  /** Later functions of the list do not touch what is captured. */
  lemma ProcessKeepsCaptured(t: Skeleton, s: State, fi: FunctionInfo, done: set<nat>, ordinary: set<nat>, g: nat,
                             x: string)
    requires StateOf(t, s) && Hidden(t, s.w, done, ordinary) && Locals(s.w, ordinary)
    requires fi.scope < |t| && IsFunction(t, fi.scope) && fi.scope !in done
    requires g in ordinary && (x == THIS || x == NEW_TARGET) && CapturedAt(s.w, g, x)
    ensures CapturedAt(Process(t, s, fi, done, ordinary).w, g, x)
  {
    NotDoneIsUnbound(t, s.w, fi, done, ordinary);
    AddedKeepsCaptured(t, s, fi, done, ordinary, g, x);
    LookupsKeepCaptured(t, AddMandatoryParams(t, s, fi.scope, TableOf(fi)).w, LookupsOf(fi), g, x);
  }

  lemma LookupsKeepCaptured(t: Skeleton, w: World, es: seq<Reference>, g: nat, x: string)
    requires WorldOf(t, w) && InTree(t, es) && g < |t| && CapturedAt(w, g, x)
    ensures g < |ResolveAll(t, w, es).bindings| && CapturedAt(ResolveAll(t, w, es), g, x)
  {
    LookupsKeepVars(t, w, es);
  }

  lemma AddedKeepsCaptured(t: Skeleton, s: State, fi: FunctionInfo, done: set<nat>, ordinary: set<nat>, g: nat,
                           x: string)
    requires StateOf(t, s) && Hidden(t, s.w, done, ordinary)
    requires fi.scope < |t| && IsFunction(t, fi.scope) && fi.scope !in done && NoneBound(t, s.w, fi.scope, TableOf(fi))
    requires g in ordinary && CapturedAt(s.w, g, x)
    ensures CapturedAt(AddMandatoryParams(t, s, fi.scope, TableOf(fi)).w, g, x)
  {
    var w1 := AddMandatoryParams(t, s, fi.scope, TableOf(fi)).w;
    TableThenOriginal(t, s, fi.scope, TableOf(fi));
    ElsewhereUnchanged(t, s, fi, done, ordinary, g);
    VarsKept(s.w, w1, g, x);
    var v := s.w.bindings[g][x];
    assert w1.vars[..|s.w.vars|][v] == s.w.vars[v];
  }

  lemma OrdinaryAreDone(fs: seq<FunctionInfo>, arrows: set<nat>, t: Skeleton, g: nat)
    requires Listing(t, arrows, fs)
    ensures OrdinaryOf(fs) !! arrows
    ensures g !in arrows ==> (g in OrdinaryOf(fs) <==> g in Done(fs))
  {
  }

  lemma {:induction false} EnclosingIsNoArrow(t: Skeleton, arrows: set<nat>, i: nat)
    requires WellFormed(t) && i < |t| && 0 !in arrows
    ensures EnclosingOrdinary(t, arrows, i) !in arrows
    decreases i
  {
    assert WellFormedAt(t, i);
    if !(IsFunction(t, Host(t, i)) && (Host(t, i) !in arrows || i == 0)) {
      EnclosingIsNoArrow(t, arrows, Parent(t, i));
    }
  }

  /** The function whose hidden variable the lookup of the arrow at position `k` finds, at the time it is made. */
  function AtLookup(t: Skeleton, arrows: set<nat>, s: State, fs: seq<FunctionInfo>, k: nat, x: string): (h: Option<nat>)
    requires StateOf(t, s) && Hidden(t, s.w, {}, {}) && Listing(t, arrows, fs) && k < |fs|
  {
    var before := ProcessAll(t, arrows, s, fs[..k]);
    DoneIsBefore(fs, k);
    NotDoneIsUnbound(t, before.w, fs[k], Done(fs[..k]), OrdinaryOf(fs[..k]));
    var w := AddMandatoryParams(t, before, fs[k].scope, TableOf(fs[k])).w;
    var r := Resolve(t, w.bindings, x, fs[k].scope);
    if r.Resolved? then Some(Host(t, r.scope)) else None
  }

  lemma LastArrow(t: Skeleton, arrows: set<nat>, s: State, fs: seq<FunctionInfo>, x: string)
    requires StateOf(t, s) && Hidden(t, s.w, {}, {}) && Listing(t, arrows, fs) && 0 !in arrows
    requires fs != [] && fs[|fs| - 1].arrow
    requires (x == THIS && fs[|fs| - 1].usesThisOrSuper) || (x == NEW_TARGET && fs[|fs| - 1].usesNewTarget)
    ensures var n := |fs| - 1;
      var g := EnclosingOrdinary(t, arrows, fs[n].scope);
      && (AtLookup(t, arrows, s, fs, n, x) == Some(g) <==> g in Done(fs[..n]))
      && (g in Done(fs[..n]) ==> CapturedAt(ProcessAll(t, arrows, s, fs).w, g, x))
  {
    var n := |fs| - 1;
    var fi, done, ordinary := fs[n], Done(fs[..n]), OrdinaryOf(fs[..n]);
    var g := EnclosingOrdinary(t, arrows, fi.scope);
    ListingInit(t, arrows, fs);
    EnclosingIsNoArrow(t, arrows, fi.scope);
    OrdinaryAreDone(fs[..n], arrows, t, g);
    var before := ProcessAll(t, arrows, s, fs[..n]);
    NotDoneIsUnbound(t, before.w, fi, done, ordinary);
    TableOfArrow(t, before, fi, done, ordinary);
    var w := AddMandatoryParams(t, before, fi.scope, TableOf(fi)).w;
    LookupFindsEnclosing(t, w, done + {fi.scope}, ordinary, arrows, x, fi.scope);
    if g in ordinary {
      ArrowCaptures(t, w, fi, done + {fi.scope}, ordinary, arrows, x);
    }
  }

  /** An arrow's own table makes it no ordinary function. */
  lemma TableOfArrow(t: Skeleton, s: State, fi: FunctionInfo, done: set<nat>, ordinary: set<nat>)
    requires StateOf(t, s) && Hidden(t, s.w, done, ordinary) && Locals(s.w, ordinary) && fi.arrow
    requires fi.scope < |t| && IsFunction(t, fi.scope) && fi.scope !in done && NoneBound(t, s.w, fi.scope, TableOf(fi))
    ensures var w := AddMandatoryParams(t, s, fi.scope, TableOf(fi)).w;
      Hidden(t, w, done + {fi.scope}, ordinary) && Locals(w, ordinary)
  {
    AddedKeepsHidden(t, s, fi, done, ordinary);
    AddedKeepsLocals(t, s, fi, done, ordinary);
    assert ordinary + Ordinary(fi) == ordinary;
  }

  lemma StepKeepsCaptured(t: Skeleton, arrows: set<nat>, s: State, fs: seq<FunctionInfo>, g: nat, x: string)
    requires StateOf(t, s) && Hidden(t, s.w, {}, {}) && Listing(t, arrows, fs) && fs != []
    requires g in OrdinaryOf(fs[..|fs| - 1]) && (x == THIS || x == NEW_TARGET)
    requires g < |t| && CapturedAt(ProcessAll(t, arrows, s, fs[..|fs| - 1]).w, g, x)
    ensures CapturedAt(ProcessAll(t, arrows, s, fs).w, g, x)
  {
    var n := |fs| - 1;
    var before := ProcessAll(t, arrows, s, fs[..n]);
    ListingInit(t, arrows, fs);
    assert ProcessAll(t, arrows, s, fs) == Process(t, before, fs[n], Done(fs[..n]), OrdinaryOf(fs[..n]));
    ProcessKeepsCaptured(t, before, fs[n], Done(fs[..n]), OrdinaryOf(fs[..n]), g, x);
  }

  lemma {:induction false} CapturedStays(t: Skeleton, arrows: set<nat>, s: State, fs: seq<FunctionInfo>, m: nat,
                                         g: nat, x: string)
    requires StateOf(t, s) && Hidden(t, s.w, {}, {}) && Listing(t, arrows, fs) && m <= |fs|
    requires g in OrdinaryOf(fs[..m]) && (x == THIS || x == NEW_TARGET)
    requires g < |t| && CapturedAt(ProcessAll(t, arrows, s, fs[..m]).w, g, x)
    ensures CapturedAt(ProcessAll(t, arrows, s, fs).w, g, x)
    decreases |fs| - m
  {
    if m == |fs| {
      assert fs[..m] == fs;
    } else {
      var rest := fs[..|fs| - 1];
      assert rest[..m] == fs[..m];
      CapturedStays(t, arrows, s, rest, m, g, x);
      OrdinaryGrows(rest, m, g);
      StepKeepsCaptured(t, arrows, s, fs, g, x);
    }
  }

  lemma OrdinaryGrows(fs: seq<FunctionInfo>, m: nat, g: nat)
    requires m <= |fs| && g in OrdinaryOf(fs[..m])
    ensures g in OrdinaryOf(fs)
  {
    var j :| 0 <= j < m && !fs[..m][j].arrow && fs[..m][j].scope == g;
    assert fs[j] == fs[..m][j];
  }

  lemma LookupOfPrefix(t: Skeleton, arrows: set<nat>, s: State, fs: seq<FunctionInfo>, k: nat, x: string)
    requires StateOf(t, s) && Hidden(t, s.w, {}, {}) && Listing(t, arrows, fs) && k < |fs|
    ensures fs[..k + 1][..k] == fs[..k] && fs[..k + 1][k] == fs[k] && |fs[..k + 1]| == k + 1
    ensures AtLookup(t, arrows, s, fs[..k + 1], k, x) == AtLookup(t, arrows, s, fs, k, x)
  {
    assert fs[..k + 1][..k] == fs[..k];
  }

  /** An arrow that uses `this` or `new.target`, at position `k` of the list, gets it from the nearest enclosing
      ordinary function, through any number of arrows, iff that function comes earlier in the list; and that
      function's variable is then captured, now and after the whole list. */
  lemma ArrowSeesEnclosing(t: Skeleton, arrows: set<nat>, s: State, fs: seq<FunctionInfo>, k: nat, x: string)
    requires StateOf(t, s) && Hidden(t, s.w, {}, {}) && Listing(t, arrows, fs) && 0 !in arrows
    requires k < |fs| && fs[k].arrow
    requires (x == THIS && fs[k].usesThisOrSuper) || (x == NEW_TARGET && fs[k].usesNewTarget)
    ensures var g := EnclosingOrdinary(t, arrows, fs[k].scope);
      && (AtLookup(t, arrows, s, fs, k, x) == Some(g) <==> g in Done(fs[..k]))
      && (g in Done(fs[..k]) ==> CapturedAt(ProcessAll(t, arrows, s, fs).w, g, x))
  {
    var g, upTo := EnclosingOrdinary(t, arrows, fs[k].scope), fs[..k + 1];
    LookupOfPrefix(t, arrows, s, fs, k, x);
    ListingPrefix(t, arrows, fs, k + 1);
    LastArrow(t, arrows, s, upTo, x);
    assert AtLookup(t, arrows, s, fs, k, x) == Some(g) <==> g in Done(fs[..k]);
    if g in Done(fs[..k]) {
      ListingPrefix(t, arrows, fs, k);
      EnclosingIsNoArrow(t, arrows, fs[k].scope);
      OrdinaryAreDone(fs[..k], arrows, t, g);
      OrdinaryGrows(upTo, k, g);
      CapturedStays(t, arrows, s, fs, k + 1, g, x);
    }
  }

  lemma ListingPrefix(t: Skeleton, arrows: set<nat>, fs: seq<FunctionInfo>, m: nat)
    requires Listing(t, arrows, fs) && m <= |fs|
    ensures Listing(t, arrows, fs[..m])
  {
  }
}
