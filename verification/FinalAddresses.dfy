/** Lexical addresses once binding is finished. */
module FinalAddresses {
  import opened Options
  import opened ScopeTree
  import opened LexicalAddress
  import opened LexicalCapture
  import opened MandatoryParams
  import opened ArrowThis
  import opened ClassEnvironment
  import opened BindingRun

  /** A table adds variables that are not captured, and takes no slots. */
  lemma AddedKeepsSlots(t: Skeleton, s: State, f: nat, names: seq<string>, members: seq<set<nat>>)
    requires StateOf(t, s) && f < |t| && IsFunction(t, f) && NoneBound(t, s.w, f, names) && Distinct(names)
    requires Slots(s.w, members)
    ensures Slots(AddMandatoryParams(t, s, f, names).w, members)
  {
    var s' := AddMandatoryParams(t, s, f, names);
    TableThenOriginal(t, s, f, names);
    forall v | 0 <= v < |s'.w.vars|
      ensures if v < |s.w.vars| then s'.w.vars[v] == s.w.vars[v] else !s'.w.vars[v].lexicalBound
    {
      AddedVariable(s, s', f, names, v);
    }
    forall o | 0 <= o < |s.w.slots| ensures SlotsAt(s'.w, members, o) {
      SlotsStay(s.w, s'.w, members, o);
    }
  }

  lemma AddedVariable(s: State, s': State, f: nat, names: seq<string>, v: nat)
    requires f < |s.params| && f < |s'.w.bindings| && InFront(s, s', f, names) && v < |s'.w.vars|
    requires NamedAndBound(s'.w, f, names, NewIds(|s.w.vars|, names))
    ensures if v < |s.w.vars| then s'.w.vars[v] == s.w.vars[v] else !s'.w.vars[v].lexicalBound
  {
    var n := |s.w.vars|;
    if v < n {
      assert s'.w.vars[..n][v] == s.w.vars[v];
    } else {
      var k := n + |names| - 1 - v;
      assert NewIds(n, names)[k] == v;
    }
  }

  lemma SlotsStay(w: World, w': World, members: seq<set<nat>>, o: nat)
    requires o < |w.slots| && |members| == |w.slots| && w'.slots == w.slots && SlotsAt(w, members, o)
             && |w.vars| <= |w'.vars|
    requires forall v :: 0 <= v < |w'.vars| ==>
               if v < |w.vars| then w'.vars[v] == w.vars[v] else !w'.vars[v].lexicalBound
    ensures SlotsAt(w', members, o)
  {
    forall s | 0 <= s < w'.slots[o] && s !in members[o] ensures SlotTaken(w', o, s) {
      assert SlotTaken(w, o, s);
      var v :| 0 <= v < |w.vars| && HeldIn(w, v, o) && w.vars[v].slot == s;
      assert HeldIn(w', v, o);
    }
  }

  lemma ProcessKeepsSlots(t: Skeleton, s: State, fi: FunctionInfo, done: set<nat>, ordinary: set<nat>,
                          members: seq<set<nat>>)
    requires StateOf(t, s) && Hidden(t, s.w, done, ordinary) && Slots(s.w, members)
    requires fi.scope < |t| && IsFunction(t, fi.scope) && fi.scope !in done
    ensures Slots(Process(t, s, fi, done, ordinary).w, members)
  {
    NotDoneIsUnbound(t, s.w, fi, done, ordinary);
    AddedKeepsSlots(t, s, fi.scope, TableOf(fi), members);
    ResolveAllKeepsSlots(t, AddMandatoryParams(t, s, fi.scope, TableOf(fi)).w, members, LookupsOf(fi));
  }

  /** The whole pass keeps the slot discipline. */
  lemma {:induction false} ProcessAllKeepsSlots(t: Skeleton, arrows: set<nat>, s: State, fs: seq<FunctionInfo>,
                                                members: seq<set<nat>>)
    requires StateOf(t, s) && Hidden(t, s.w, {}, {}) && Listing(t, arrows, fs) && Slots(s.w, members)
    ensures Slots(ProcessAll(t, arrows, s, fs).w, members)
    decreases |fs|
  {
    if fs != [] {
      var n := |fs| - 1;
      ListingInit(t, arrows, fs);
      ProcessAllKeepsSlots(t, arrows, s, fs[..n], members);
      ProcessKeepsSlots(t, ProcessAll(t, arrows, s, fs[..n]), fs[n], Done(fs[..n]), OrdinaryOf(fs[..n]), members);
    }
  }

  /** A program before binding, the references it makes and the classes it enters, and the list of its functions. */
  datatype Binding = Binding(t: Skeleton, arrows: set<nat>, start: World, events: seq<Event>,
                             params: seq<seq<nat>>, functions: seq<FunctionInfo>)

  ghost predicate BindingOk(b: Binding) {
    && WorldOf(b.t, b.start) && Unbound(b.start) && EventsInTree(b.t, b.events) && Listing(b.t, b.arrows, b.functions)
    && StateOf(b.t, State(b.start, b.params)) && Hidden(b.t, b.start, {}, {})
  }

  ghost function Start(b: Binding): (r: Run)
    requires BindingOk(b)
    ensures RunOf(b.t, r) && r.w == b.start
  {
    FreshSlots(b.start);
    Run(b.start, InitialSlots(b.start))
  }

  /** After the reference pass. */
  ghost function Referred(b: Binding): (s: State)
    requires BindingOk(b)
    ensures StateOf(b.t, s) && Hidden(b.t, s.w, {}, {}) && Slots(s.w, MemberSlots(b))
  {
    var r := RunAll(b.t, Start(b), b.events);
    HiddenWorld(b.t, r.w, {}, {});
    State(r.w, b.params)
  }

  /** The slots that class members hold, once binding is finished. */
  ghost function MemberSlots(b: Binding): seq<set<nat>>
    requires BindingOk(b)
  {
    RunAll(b.t, Start(b), b.events).members
  }

  /** After both passes. */
  ghost function Final(b: Binding): (w: World)
    requires BindingOk(b)
    ensures WorldOf(b.t, w) && Slots(w, MemberSlots(b))
    ensures Hidden(b.t, w, Done(b.functions), OrdinaryOf(b.functions))
  {
    ProcessAllKeepsSlots(b.t, b.arrows, Referred(b), b.functions, MemberSlots(b));
    ProcessAll(b.t, b.arrows, Referred(b), b.functions).w
  }

  /** Event `k` of the pass enters a class, and slot `s` of the class scope is one that it gives out. */
  ghost predicate IsMemberSlot(b: Binding, k: nat, s: nat)
    requires BindingOk(b) && k < |b.events| && b.events[k].EnterClass?
  {
    var first := FirstSlot(b.t, Start(b), b.events, k);
    first <= s < first + SlotCount(b.events[k].elements, b.events[k].useDefineSemantic)
  }

  /** Once binding is finished: the slots of a class exist in its environment, and no variable has one of them. */
  lemma MemberSlotsAreApart(b: Binding, k: nat, s: nat, v: nat)
    requires BindingOk(b) && k < |b.events| && b.events[k].EnterClass? && IsMemberSlot(b, k, s)
    requires v < |Final(b).vars| && HeldIn(Final(b), v, b.events[k].scope)
    ensures s < Final(b).slots[b.events[k].scope] && Final(b).vars[v].slot != s
  {
    MembersHoldSlots(b.t, Start(b), b.events, k);
    assert SlotsAt(Final(b), MemberSlots(b), b.events[k].scope);
  }

  /** Once binding is finished no reference to a captured variable reaches a cell of a class member. */
  lemma MemberCellsAreApart(b: Binding, k: nat, s: nat, name: string, start: nat, v: nat)
    requires BindingOk(b) && k < |b.events| && b.events[k].EnterClass? && IsMemberSlot(b, k, s)
    requires start < |b.t| && RefersToCaptured(b.t, Final(b), name, start, v)
    ensures Cell(b.t, Final(b), name, start) != Some((b.events[k].scope, s))
  {
    FinalAddressIsRight(b, name, start, v);
    if Final(b).vars[v].home == b.events[k].scope {
      MemberSlotsAreApart(b, k, s, v);
    }
  }

  /** The slot of private member `i` of the class that event `k` enters. */
  ghost function PrivateSlot(b: Binding, k: nat, i: nat): nat
    requires BindingOk(b) && k < |b.events| && b.events[k].EnterClass? && i < |Privates(b.events[k].elements)|
  {
    PrivateSlotOf(b.events[k].elements, b.events[k].useDefineSemantic, FirstSlot(b.t, Start(b), b.events, k), i)
  }

  lemma PrivateSlotIsMemberSlot(b: Binding, k: nat, i: nat)
    requires BindingOk(b) && k < |b.events| && b.events[k].EnterClass? && i < |Privates(b.events[k].elements)|
    ensures IsMemberSlot(b, k, PrivateSlot(b, k, i))
  {
    PrivateSlotInRange(b.events[k].elements, b.events[k].useDefineSemantic, FirstSlot(b.t, Start(b), b.events, k), i);
  }

  /** Once binding is finished: a reference to a captured variable, hidden parameters included, made in any scope,
      addresses the slot of that variable in the environment of its owner, and the environment has that slot. */
  lemma FinalAddressIsRight(b: Binding, name: string, start: nat, v: nat)
    requires BindingOk(b) && start < |b.t| && RefersToCaptured(b.t, Final(b), name, start, v)
    ensures var w := Final(b);
      && w.vars[v].home < |w.slots| && w.vars[v].slot < w.slots[w.vars[v].home]
      && Cell(b.t, w, name, start) == Some((w.vars[v].home, w.vars[v].slot))
  {
    CellIsRight(b.t, Final(b), MemberSlots(b), name, start, v);
  }

  /** Once binding is finished, two references address one cell exactly when they are to one variable. */
  lemma FinalCellsDoNotAlias(b: Binding, name: string, start: nat, v: nat, name': string, start': nat, v': nat)
    requires BindingOk(b) && start < |b.t| && start' < |b.t|
    requires RefersToCaptured(b.t, Final(b), name, start, v) && RefersToCaptured(b.t, Final(b), name', start', v')
    ensures Cell(b.t, Final(b), name, start) == Cell(b.t, Final(b), name', start') <==> v == v'
  {
    var w := Final(b);
    FinalAddressIsRight(b, name, start, v);
    FinalAddressIsRight(b, name', start', v');
    assert SlotsAt(w, MemberSlots(b), w.vars[v].home);
    assert HeldIn(w, v, w.vars[v].home) && HeldIn(w, v', w.vars[v'].home);
  }

  /** The `this` or `new.target` of an arrow, at run time: when its nearest enclosing ordinary function comes earlier in
      the list, the arrow addresses that function's own variable, in an existing slot of that function's environment. */
  lemma ArrowCellIsRight(b: Binding, k: nat, x: string)
    requires BindingOk(b) && 0 !in b.arrows && k < |b.functions| && b.functions[k].arrow
    requires (x == THIS && b.functions[k].usesThisOrSuper) || (x == NEW_TARGET && b.functions[k].usesNewTarget)
    requires EnclosingOrdinary(b.t, b.arrows, b.functions[k].scope) in Done(b.functions[..k])
    ensures var w, g := Final(b), EnclosingOrdinary(b.t, b.arrows, b.functions[k].scope);
      && CapturedAt(w, g, x) && w.vars[w.bindings[g][x]].slot < w.slots[g]
      && Cell(b.t, w, x, b.functions[k].scope) == Some((g, w.vars[w.bindings[g][x]].slot))
  {
    var w, g, fs, a := Final(b), EnclosingOrdinary(b.t, b.arrows, b.functions[k].scope), b.functions,
        b.functions[k].scope;
    ArrowSeesEnclosing(b.t, b.arrows, Referred(b), fs, k, x);
    ListingPrefix(b.t, b.arrows, fs, k);
    EnclosingIsNoArrow(b.t, b.arrows, a);
    OrdinaryAreDone(fs[..k], b.arrows, b.t, g);
    OrdinaryGrows(fs, k, g);
    OrdinaryAreDone(fs, b.arrows, b.t, g);
    LookupFindsEnclosing(b.t, w, Done(fs), OrdinaryOf(fs), b.arrows, x, a);
    FinalAddressIsRight(b, x, a, w.bindings[g][x]);
  }
}
