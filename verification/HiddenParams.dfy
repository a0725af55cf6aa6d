/** The parameter lists after the pass over the list of functions, with the names written out: which stand in front,
    and in which order. */
module HiddenParams {
  import opened ScopeTree
  import opened LexicalAddress
  import opened LexicalCapture
  import opened MandatoryParams
  import opened ArrowThis

  /** The hidden parameters of a function, in order. */
  function HiddenNames(fi: FunctionInfo): seq<string> {
    if !fi.arrow then ["4funcObj", "4newTarget", "this"]
    else if fi.superInCtor then ["0funcObj", "0newTarget", "0this"]
    else ["4funcObj", "0newTarget", "0this"]
  }

  lemma TablesAreThese(fi: FunctionInfo)
    ensures TableOf(fi) == HiddenNames(fi)
  {
  }

  /** What an arrow looks up, all of it in its own scope: `new.target`, `this` (for `super` too), `arguments`, and the
      function object when it uses `super` in a derived constructor; each only if it uses it. Others look up nothing. */
  lemma ArrowLooksUp(fi: FunctionInfo, name: string)
    ensures Reference(fi.scope, name) in LookupsOf(fi) <==>
            && fi.arrow
            && ((name == "4newTarget" && fi.usesNewTarget) || (name == "this" && fi.usesThisOrSuper)
                || (name == "arguments" && fi.usesArgs) || (name == "4funcObj" && fi.superInCtor))
    ensures forall e :: e in LookupsOf(fi) ==> e.scope == fi.scope
  {
  }

  /** The names in the parameter list of function `f`. */
  function ParamNames(t: Skeleton, s: State, f: nat): seq<string>
    requires StateOf(t, s) && f < |t|
  {
    seq(|s.params[f]|, k requires 0 <= k < |s.params[f]| => s.w.vars[s.params[f][k]].name)
  }

  lemma AddedNames(t: Skeleton, s: State, g: nat, names: seq<string>, f: nat)
    requires StateOf(t, s) && g < |t| && IsFunction(t, g) && NoneBound(t, s.w, g, names) && Distinct(names) && f < |t|
    ensures ParamNames(t, AddMandatoryParams(t, s, g, names), f) ==
            (if f == g then names else []) + ParamNames(t, s, f)
  {
    TableThenOriginal(t, s, g, names);
    NamesInFront(t, s, AddMandatoryParams(t, s, g, names), g, names, f);
  }

  lemma NamesInFront(t: Skeleton, s: State, s': State, g: nat, names: seq<string>, f: nat)
    requires StateOf(t, s) && StateOf(t, s') && g < |t| && f < |t| && InFront(s, s', g, names)
    requires NamedAndBound(s'.w, g, names, NewIds(|s.w.vars|, names))
    ensures ParamNames(t, s', f) == (if f == g then names else []) + ParamNames(t, s, f)
  {
    var now, before := ParamNames(t, s', f), (if f == g then names else []) + ParamNames(t, s, f);
    forall k | 0 <= k < |now| ensures now[k] == before[k] {
      if f == g && k < |names| {
        assert s'.params[f][k] == NewIds(|s.w.vars|, names)[k];
      } else {
        var j := if f == g then k - |names| else k;
        assert s'.params[f][k] == s.params[f][j];
        assert s'.w.vars[..|s.w.vars|][s.params[f][j]] == s.w.vars[s.params[f][j]];
      }
    }
  }

  lemma LookedUpNames(t: Skeleton, s: State, es: seq<Reference>, f: nat)
    requires StateOf(t, s) && InTree(t, es) && f < |t|
    ensures StateOf(t, State(ResolveAll(t, s.w, es), s.params))
    ensures ParamNames(t, State(ResolveAll(t, s.w, es), s.params), f) == ParamNames(t, s, f)
  {
    LookupsKeepVars(t, s.w, es);
    SameNames(t, s, State(ResolveAll(t, s.w, es), s.params), f);
  }

  lemma ProcessNames(t: Skeleton, s: State, fi: FunctionInfo, done: set<nat>, ordinary: set<nat>, f: nat)
    requires StateOf(t, s) && Hidden(t, s.w, done, ordinary) && f < |t|
    requires fi.scope < |t| && IsFunction(t, fi.scope) && fi.scope !in done
    ensures ParamNames(t, Process(t, s, fi, done, ordinary), f) ==
            (if f == fi.scope then HiddenNames(fi) else []) + ParamNames(t, s, f)
  {
    NotDoneIsUnbound(t, s.w, fi, done, ordinary);
    AddedNames(t, s, fi.scope, TableOf(fi), f);
    LookupsInTree(t, fi);
    LookedUpNames(t, AddMandatoryParams(t, s, fi.scope, TableOf(fi)), LookupsOf(fi), f);
    TablesAreThese(fi);
  }

  lemma LookupsInTree(t: Skeleton, fi: FunctionInfo)
    requires fi.scope < |t|
    ensures InTree(t, LookupsOf(fi))
  {
  }

  lemma SameNames(t: Skeleton, s: State, s': State, f: nat)
    requires StateOf(t, s) && StateOf(t, s') && f < |t| && s'.params == s.params && |s'.w.vars| == |s.w.vars|
    requires forall v :: 0 <= v < |s.w.vars| ==> s'.w.vars[v].name == s.w.vars[v].name
    ensures ParamNames(t, s', f) == ParamNames(t, s, f)
  {
    forall k | 0 <= k < |s.params[f]| ensures s'.w.vars[s'.params[f][k]].name == s.w.vars[s.params[f][k]].name {
      assert s.params[f][k] < |s.w.vars|;
    }
  }

  /** The hidden parameters that the list gives to function `f`. */
  function GivenTo(fs: seq<FunctionInfo>, f: nat): seq<string> {
    if fs == [] then []
    else
      var last := fs[|fs| - 1];
      (if last.scope == f then HiddenNames(last) else []) + GivenTo(fs[..|fs| - 1], f)
  }

  /** A function of the list gets its hidden parameters, once, and a function that is not in it gets none. */
  lemma {:induction false} GivenOnce(t: Skeleton, arrows: set<nat>, fs: seq<FunctionInfo>, f: nat)
    requires Listing(t, arrows, fs)
    ensures f !in Done(fs) ==> GivenTo(fs, f) == []
    ensures forall k :: 0 <= k < |fs| && fs[k].scope == f ==> GivenTo(fs, f) == HiddenNames(fs[k])
    decreases |fs|
  {
    if fs != [] {
      var n := |fs| - 1;
      ListingInit(t, arrows, fs);
      DoneStep(fs);
      GivenOnce(t, arrows, fs[..n], f);
      forall k | 0 <= k < |fs| && fs[k].scope == f ensures GivenTo(fs, f) == HiddenNames(fs[k]) {
        if k < n {
          assert fs[..n][k] == fs[k];
        }
      }
    }
  }

  lemma {:induction false} AllNames(t: Skeleton, arrows: set<nat>, s: State, fs: seq<FunctionInfo>, f: nat)
    requires StateOf(t, s) && Hidden(t, s.w, {}, {}) && Listing(t, arrows, fs) && f < |t|
    ensures ParamNames(t, ProcessAll(t, arrows, s, fs), f) == GivenTo(fs, f) + ParamNames(t, s, f)
    decreases |fs|
  {
    if fs != [] {
      var n := |fs| - 1;
      ListingInit(t, arrows, fs);
      AllNames(t, arrows, s, fs[..n], f);
      ProcessNames(t, ProcessAll(t, arrows, s, fs[..n]), fs[n], Done(fs[..n]), OrdinaryOf(fs[..n]), f);
      Regroup(if fs[n].scope == f then HiddenNames(fs[n]) else [], GivenTo(fs[..n], f), ParamNames(t, s, f));
    }
  }

  lemma Regroup(a: seq<string>, b: seq<string>, c: seq<string>)
    ensures a + (b + c) == a + b + c
  {
  }

  /** After the pass each function of the list has its three hidden parameters in front of its own, in this order. */
  lemma ParamsStand(t: Skeleton, arrows: set<nat>, s: State, fs: seq<FunctionInfo>, k: nat)
    requires StateOf(t, s) && Hidden(t, s.w, {}, {}) && Listing(t, arrows, fs) && k < |fs|
    ensures ParamNames(t, ProcessAll(t, arrows, s, fs), fs[k].scope) ==
            HiddenNames(fs[k]) + ParamNames(t, s, fs[k].scope)
  {
    AllNames(t, arrows, s, fs, fs[k].scope);
    GivenOnce(t, arrows, fs, fs[k].scope);
  }
}
