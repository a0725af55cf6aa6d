/** Whole runs of reference resolution: which variables get captured, and in which slots. */
module LexicalCapture {
  import opened Options
  import opened ScopeTree
  import opened LexicalAddress

  /** Capturing variable `v`, found in scope `r`: the first time only, in the next free slot of the owner. */
  function SetLexical(t: Skeleton, w: World, r: nat, v: nat): (w': World)
    requires WorldOf(t, w) && r < |t| && v < |w.vars|
  {
    if !w.vars[v].local || w.vars[v].lexicalBound then w
    else
      var o := Owner(t, r);
      w.(slots := w.slots[o := w.slots[o] + 1],
         vars := w.vars[v := w.vars[v].(lexicalBound := true, slot := w.slots[o])])
  }

  lemma SetLexicalKeepsWorld(t: Skeleton, w: World, r: nat, v: nat)
    requires WorldOf(t, w) && r < |t| && v < |w.vars|
    ensures WorldOf(t, SetLexical(t, w, r, v))
  {
    forall i | 0 <= i < |t| ensures BindingsAt(t, SetLexical(t, w, r, v), i) {
      assert BindingsAt(t, w, i);
    }
  }

  datatype Reference = Reference(scope: nat, name: string)

  /** One identifier reference, made in a scope. */
  function LookupReference(t: Skeleton, w: World, e: Reference): (w': World)
    requires WorldOf(t, w) && e.scope < |t|
    ensures WorldOf(t, w') && w'.bindings == w.bindings
  {
    var r := Find(t, w, e.name, e.scope);
    if r.Found? && r.level != 0 then
      SetLexicalKeepsWorld(t, w, r.scope, r.variable);
      SetLexical(t, w, r.scope, r.variable)
    else w
  }

  predicate InTree(t: Skeleton, es: seq<Reference>) {
    forall k :: 0 <= k < |es| ==> es[k].scope < |t|
  }

  /** The world after a sequence of references, in order. */
  function ResolveAll(t: Skeleton, w: World, es: seq<Reference>): (w': World)
    requires WorldOf(t, w) && InTree(t, es)
    ensures WorldOf(t, w') && w'.bindings == w.bindings
  {
    if es == [] then w
    else
      var n := |es| - 1;
      LookupReference(t, ResolveAll(t, w, es[..n]), es[n])
  }

  // ----- capture

  /** The reference is to variable `v`, from another activation than the one that declares it. */
  predicate Captures(t: Skeleton, bindings: seq<map<string, nat>>, e: Reference, v: nat)
    requires WellFormed(t) && |bindings| == |t| && e.scope < |t|
  {
    var r := Resolve(t, bindings, e.name, e.scope);
    r.Resolved? && r.variable == v && Activation(t, r.scope) != Activation(t, e.scope)
  }

  lemma LookupCaptures(t: Skeleton, w: World, e: Reference, v: nat)
    requires WorldOf(t, w) && e.scope < |t| && v < |w.vars|
    ensures var w' := LookupReference(t, w, e);
      && |w'.vars| == |w.vars| && w'.vars[v].local == w.vars[v].local
      && (w'.vars[v].lexicalBound <==>
            w.vars[v].lexicalBound || (w.vars[v].local && Captures(t, w.bindings, e, v)))
  {
    FindIsResolve(t, w, e.name, e.scope, Walk(false, false, 0, 0));
    LevelTellsActivations(t, w, e.name, e.scope, Walk(false, false, 0, 0));
  }

  /** Capture is exact: after any run a variable is lexically bound iff it is local and some reference made in
      another activation resolves to it (or it was bound before the run). */
  lemma {:induction false} CaptureIsExact(t: Skeleton, w: World, es: seq<Reference>, v: nat)
    requires WorldOf(t, w) && InTree(t, es) && v < |w.vars|
    ensures var w' := ResolveAll(t, w, es);
      && |w'.vars| == |w.vars| && w'.vars[v].local == w.vars[v].local
      && (w'.vars[v].lexicalBound <==>
            w.vars[v].lexicalBound || (w.vars[v].local && exists e :: e in es && Captures(t, w.bindings, e, v)))
    decreases |es|
  {
    if es != [] {
      var n := |es| - 1;
      CaptureIsExact(t, w, es[..n], v);
      LookupCaptures(t, ResolveAll(t, w, es[..n]), es[n], v);
      assert es == es[..n] + [es[n]];
    }
  }

  // ----- slots

  /** The slots of scope `o` are those of the members of a class and those of captured variables: no slot is used
      twice, and each slot is used. `members` are the slots that class members hold, scope by scope. */
  ghost predicate SlotsAt(w: World, members: seq<set<nat>>, o: nat)
    requires o < |w.slots| && |members| == |w.slots|
  {
    && (forall s :: s in members[o] ==> s < w.slots[o])
    && (forall v | 0 <= v < |w.vars| && HeldIn(w, v, o) :: w.vars[v].slot < w.slots[o] && w.vars[v].slot !in members[o])
    && (forall u, v | 0 <= u < v < |w.vars| && HeldIn(w, u, o) && HeldIn(w, v, o) :: w.vars[u].slot != w.vars[v].slot)
    && (forall s :: 0 <= s < w.slots[o] && s !in members[o] ==> SlotTaken(w, o, s))
  }

  predicate HeldIn(w: World, v: nat, o: nat)
    requires v < |w.vars|
  {
    w.vars[v].lexicalBound && w.vars[v].home == o
  }

  ghost predicate SlotTaken(w: World, o: nat, s: nat) {
    exists v :: 0 <= v < |w.vars| && HeldIn(w, v, o) && w.vars[v].slot == s
  }

  ghost predicate Slots(w: World, members: seq<set<nat>>) {
    |members| == |w.slots| && forall o :: 0 <= o < |w.slots| ==> SlotsAt(w, members, o)
  }

  /** `w'` is later than `w`: captured variables keep their slot, and environments only grow. */
  ghost predicate Later(w: World, w': World) {
    && |w'.vars| == |w.vars| && |w'.slots| == |w.slots|
    && (forall o :: 0 <= o < |w.slots| ==> w.slots[o] <= w'.slots[o])
    && (forall v :: 0 <= v < |w.vars| ==>
          w'.vars[v].home == w.vars[v].home && (w.vars[v].lexicalBound ==> w'.vars[v] == w.vars[v]))
  }

  lemma SetLexicalKeepsSlots(t: Skeleton, w: World, members: seq<set<nat>>, r: nat, v: nat)
    requires WorldOf(t, w) && Slots(w, members) && r < |t| && v < |w.vars| && w.vars[v].home == Owner(t, r)
    ensures Slots(SetLexical(t, w, r, v), members)
  {
    var w', h := SetLexical(t, w, r, v), Owner(t, r);
    if w' != w {
      forall o | 0 <= o < |w'.slots| ensures SlotsAt(w', members, o) {
        assert SlotsAt(w, members, o);
        assert forall u | 0 <= u < |w.vars| && u != v ::
                 HeldIn(w', u, o) ==> HeldIn(w, u, o) && w'.vars[u] == w.vars[u];
        forall s | 0 <= s < w'.slots[o] && s !in members[o] ensures SlotTaken(w', o, s) {
          if o == h && s == w.slots[o] {
            assert HeldIn(w', v, o) && w'.vars[v].slot == s;
          } else {
            assert SlotTaken(w, o, s);
            var u :| 0 <= u < |w.vars| && HeldIn(w, u, o) && w.vars[u].slot == s;
            assert HeldIn(w', u, o) && w'.vars[u] == w.vars[u];
          }
        }
      }
    }
  }

  /** Slot discipline over any run of lookups. */
  lemma {:induction false} ResolveAllKeepsSlots(t: Skeleton, w: World, members: seq<set<nat>>, es: seq<Reference>)
    requires WorldOf(t, w) && InTree(t, es) && Slots(w, members)
    ensures Slots(ResolveAll(t, w, es), members) && Later(w, ResolveAll(t, w, es))
    decreases |es|
  {
    if es != [] {
      var n := |es| - 1;
      ResolveAllKeepsSlots(t, w, members, es[..n]);
      var m := ResolveAll(t, w, es[..n]);
      var r := Find(t, m, es[n].name, es[n].scope);
      if r.Found? && r.level != 0 {
        SetLexicalKeepsSlots(t, m, members, r.scope, r.variable);
      }
    }
  }

  predicate Unbound(w: World) {
    forall v :: 0 <= v < |w.vars| ==> !w.vars[v].lexicalBound
  }

  /** The `n` slots from `first` on. */
  function SlotRange(first: nat, n: nat): (slots: set<nat>)
    ensures forall s :: s in slots <==> first <= s < first + n
  {
    if n == 0 then {} else SlotRange(first, n - 1) + {first + n - 1}
  }

  /** The slots in use before any run, when no variable is captured. */
  function InitialSlots(w: World): (members: seq<set<nat>>)
    ensures |members| == |w.slots|
  {
    seq(|w.slots|, o requires 0 <= o < |w.slots| => SlotRange(0, w.slots[o]))
  }

  lemma FreshSlots(w: World)
    requires Unbound(w)
    ensures Slots(w, InitialSlots(w))
  {
  }

  /** The run-time cell that a reference addresses: an environment of the chain and a slot of it. */
  function Cell(t: Skeleton, w: World, name: string, start: nat): (c: Option<(nat, nat)>)
    requires WorldOf(t, w) && start < |t|
  {
    var r, chain := Find(t, w, name, start), EnvChain(t, w, start);
    if r.Found? && w.vars[r.variable].lexicalBound && r.lexLevel < |chain| then
      Some((chain[r.lexLevel], w.vars[r.variable].slot))
    else None
  }

  /** What a reference resolves to, once it resolves to a captured variable. */
  ghost predicate RefersToCaptured(t: Skeleton, w: World, name: string, start: nat, v: nat)
    requires WorldOf(t, w) && start < |t|
  {
    && Resolve(t, w.bindings, name, start).Resolved? && Resolve(t, w.bindings, name, start).variable == v
    && v < |w.vars| && w.vars[v].lexicalBound
  }

  lemma CellIsRight(t: Skeleton, w: World, members: seq<set<nat>>, name: string, start: nat, v: nat)
    requires WorldOf(t, w) && Slots(w, members) && start < |t| && RefersToCaptured(t, w, name, start, v)
    ensures w.vars[v].home < |w.slots| && w.vars[v].slot < w.slots[w.vars[v].home]
    ensures Cell(t, w, name, start) == Some((w.vars[v].home, w.vars[v].slot))
  {
    FindIsResolve(t, w, name, start, Walk(false, false, 0, 0));
    assert SlotsAt(w, members, w.vars[v].home) && HeldIn(w, v, w.vars[v].home);
    AddressReachesOwner(t, w, name, start);
  }

  /** After any run from a fresh world: a reference to a captured variable, made in any scope, addresses the slot of
      that variable in the environment of its owner, and the environment has that slot. */
  lemma AddressIsRight(t: Skeleton, w0: World, es: seq<Reference>, name: string, start: nat, v: nat)
    requires WorldOf(t, w0) && Unbound(w0) && InTree(t, es) && start < |t|
    requires RefersToCaptured(t, ResolveAll(t, w0, es), name, start, v)
    ensures var w := ResolveAll(t, w0, es);
      && w.vars[v].home < |w.slots| && w.vars[v].slot < w.slots[w.vars[v].home]
      && Cell(t, w, name, start) == Some((w.vars[v].home, w.vars[v].slot))
  {
    FreshSlots(w0);
    ResolveAllKeepsSlots(t, w0, InitialSlots(w0), es);
    CellIsRight(t, ResolveAll(t, w0, es), InitialSlots(w0), name, start, v);
  }

  /** Two references address the same cell exactly when they are to the same variable. */
  lemma CellsDoNotAlias(t: Skeleton, w0: World, es: seq<Reference>, name: string, start: nat, v: nat,
                        name': string, start': nat, v': nat)
    requires WorldOf(t, w0) && Unbound(w0) && InTree(t, es) && start < |t| && start' < |t|
    requires RefersToCaptured(t, ResolveAll(t, w0, es), name, start, v)
    requires RefersToCaptured(t, ResolveAll(t, w0, es), name', start', v')
    ensures Cell(t, ResolveAll(t, w0, es), name, start) == Cell(t, ResolveAll(t, w0, es), name', start') <==> v == v'
  {
    AddressIsRight(t, w0, es, name, start, v);
    AddressIsRight(t, w0, es, name', start', v');
    FreshSlots(w0);
    ResolveAllKeepsSlots(t, w0, InitialSlots(w0), es);
    var w := ResolveAll(t, w0, es);
    assert SlotsAt(w, InitialSlots(w0), w.vars[v].home) && HeldIn(w, v, w.vars[v].home)
           && HeldIn(w, v', w.vars[v'].home);
  }
}
