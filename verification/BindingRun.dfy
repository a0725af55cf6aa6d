/** The reference pass with the classes that it enters: their members take slots in between. */
module BindingRun {
  import opened ScopeTree
  import opened LexicalAddress
  import opened LexicalCapture
  import opened ClassEnvironment

  /** What the pass does to slots: it resolves a reference, or enters a class and gives its members their slots. */
  datatype Event =
    | Refer(reference: Reference)
    | EnterClass(scope: nat, elements: seq<Element>, useDefineSemantic: bool)

  predicate EventInTree(t: Skeleton, e: Event) {
    match e
    case Refer(r) => r.scope < |t|
    case EnterClass(c, _, _) => c < |t|
  }

  predicate EventsInTree(t: Skeleton, evs: seq<Event>) {
    forall k :: 0 <= k < |evs| ==> EventInTree(t, evs[k])
  }

  /** The world, and the slots that class members hold, scope by scope. */
  datatype Run = Run(w: World, members: seq<set<nat>>)

  ghost predicate RunOf(t: Skeleton, r: Run) {
    WorldOf(t, r.w) && Slots(r.w, r.members)
  }

  function Step(t: Skeleton, r: Run, e: Event): (r': Run)
    requires RunOf(t, r) && EventInTree(t, e)
    ensures RunOf(t, r') && r'.w.bindings == r.w.bindings && LaterRun(r, r')
  {
    match e
    case Refer(ref) =>
      LookupKeepsSlots(t, r.w, r.members, ref);
      Run(LookupReference(t, r.w, ref), r.members)
    case EnterClass(c, elements, d) =>
      var n := SlotCount(elements, d);
      EnterKeepsSlots(t, r, c, n);
      Entered(r, c, n)
  }

  /** The class takes the next `n` slots of its scope. */
  function Entered(r: Run, c: nat, n: nat): Run
    requires c < |r.w.slots| == |r.members|
  {
    Run(r.w.(slots := r.w.slots[c := r.w.slots[c] + n]),
        r.members[c := r.members[c] + SlotRange(r.w.slots[c], n)])
  }

  /** Captured variables and class members keep their slots, and environments only grow. */
  ghost predicate LaterRun(r: Run, r': Run) {
    && Later(r.w, r'.w) && |r'.members| == |r.members|
    && forall o :: 0 <= o < |r.members| ==> r.members[o] <= r'.members[o]
  }

  lemma LookupKeepsSlots(t: Skeleton, w: World, members: seq<set<nat>>, e: Reference)
    requires WorldOf(t, w) && Slots(w, members) && e.scope < |t|
    ensures Slots(LookupReference(t, w, e), members) && Later(w, LookupReference(t, w, e))
  {
    ResolveAllKeepsSlots(t, w, members, [e]);
    assert [e][..0] == [];
    assert ResolveAll(t, w, [e][..0]) == w;
    assert ResolveAll(t, w, [e]) == LookupReference(t, ResolveAll(t, w, [e][..0]), [e][0]);
  }

  lemma EnterKeepsSlots(t: Skeleton, r: Run, c: nat, n: nat)
    requires RunOf(t, r) && c < |t|
    ensures RunOf(t, Entered(r, c, n)) && LaterRun(r, Entered(r, c, n))
  {
    var r' := Entered(r, c, n);
    forall i | 0 <= i < |t| ensures BindingsAt(t, r'.w, i) {
      assert BindingsAt(t, r.w, i);
    }
    forall o | 0 <= o < |r'.w.slots| ensures SlotsAt(r'.w, r'.members, o) {
      assert SlotsAt(r.w, r.members, o);
      EnterKeepsSlotsAt(r, c, n, o);
    }
  }

  lemma EnterKeepsSlotsAt(r: Run, c: nat, n: nat, o: nat)
    requires |r.w.slots| == |r.members| && c < |r.w.slots| && o < |r.w.slots| && SlotsAt(r.w, r.members, o)
    ensures SlotsAt(Entered(r, c, n).w, Entered(r, c, n).members, o)
  {
    var r' := Entered(r, c, n);
    forall v | 0 <= v < |r.w.vars| && HeldIn(r'.w, v, o)
      ensures r'.w.vars[v].slot < r'.w.slots[o] && r'.w.vars[v].slot !in r'.members[o]
    {
      assert HeldIn(r.w, v, o);
    }
    forall s | 0 <= s < r'.w.slots[o] && s !in r'.members[o] ensures SlotTaken(r'.w, o, s) {
      assert SlotTaken(r.w, o, s);
      var v :| 0 <= v < |r.w.vars| && HeldIn(r.w, v, o) && r.w.vars[v].slot == s;
      assert HeldIn(r'.w, v, o);
    }
  }

  /** The whole pass, in order. */
  function RunAll(t: Skeleton, r: Run, evs: seq<Event>): (r': Run)
    requires RunOf(t, r) && EventsInTree(t, evs)
    ensures RunOf(t, r') && r'.w.bindings == r.w.bindings && LaterRun(r, r')
    decreases |evs|
  {
    if evs == [] then r
    else
      var n := |evs| - 1;
      Step(t, RunAll(t, r, evs[..n]), evs[n])
  }

  /** Some reference among the events captures the variable. */
  ghost predicate CapturedBy(t: Skeleton, bindings: seq<map<string, nat>>, evs: seq<Event>, v: nat)
    requires WellFormed(t) && |bindings| == |t| && EventsInTree(t, evs)
  {
    exists k :: 0 <= k < |evs| && CapturesAt(t, bindings, evs, k, v)
  }

  predicate CapturesAt(t: Skeleton, bindings: seq<map<string, nat>>, evs: seq<Event>, k: nat, v: nat)
    requires WellFormed(t) && |bindings| == |t| && EventsInTree(t, evs) && k < |evs|
  {
    evs[k].Refer? && Captures(t, bindings, evs[k].reference, v)
  }

  lemma CapturedBySnoc(t: Skeleton, bindings: seq<map<string, nat>>, evs: seq<Event>, v: nat)
    requires WellFormed(t) && |bindings| == |t| && EventsInTree(t, evs) && evs != []
    ensures var n := |evs| - 1;
      CapturedBy(t, bindings, evs, v) <==> CapturedBy(t, bindings, evs[..n], v) || CapturesAt(t, bindings, evs, n, v)
  {
    var n := |evs| - 1;
    assert forall k :: 0 <= k < n ==> (CapturesAt(t, bindings, evs[..n], k, v) <==> CapturesAt(t, bindings, evs, k, v));
  }

  /** Entering classes captures nothing: after the pass exactly those local variables are captured to which some
      reference made in another activation resolves, and those that were captured before. */
  lemma {:induction false} RunCapturesExactly(t: Skeleton, r: Run, evs: seq<Event>, v: nat)
    requires RunOf(t, r) && EventsInTree(t, evs) && v < |r.w.vars|
    ensures var w := RunAll(t, r, evs).w;
      && w.vars[v].local == r.w.vars[v].local
      && (w.vars[v].lexicalBound <==>
            r.w.vars[v].lexicalBound || (r.w.vars[v].local && CapturedBy(t, r.w.bindings, evs, v)))
    decreases |evs|
  {
    if evs != [] {
      var n := |evs| - 1;
      RunCapturesExactly(t, r, evs[..n], v);
      CapturedBySnoc(t, r.w.bindings, evs, v);
      StepCaptures(t, RunAll(t, r, evs[..n]), evs[n], v);
    }
  }

  lemma StepCaptures(t: Skeleton, r: Run, e: Event, v: nat)
    requires RunOf(t, r) && EventInTree(t, e) && v < |r.w.vars|
    ensures var w := Step(t, r, e).w;
      && |w.vars| == |r.w.vars| && w.vars[v].local == r.w.vars[v].local
      && (w.vars[v].lexicalBound <==>
            || r.w.vars[v].lexicalBound
            || (r.w.vars[v].local && e.Refer? && Captures(t, r.w.bindings, e.reference, v)))
  {
    if e.Refer? {
      LookupCaptures(t, r.w, e.reference, v);
    }
  }

  /** Later steps keep what the run has so far. */
  lemma {:induction false} RunIsLater(t: Skeleton, r: Run, evs: seq<Event>, k: nat)
    requires RunOf(t, r) && EventsInTree(t, evs) && k <= |evs|
    ensures LaterRun(RunAll(t, r, evs[..k]), RunAll(t, r, evs))
    decreases |evs| - k
  {
    if k < |evs| {
      RunIsLater(t, r, evs, k + 1);
      assert evs[..k + 1][..k] == evs[..k];
    } else {
      assert evs[..k] == evs;
    }
  }

  /** The first slot that event `k`, which enters a class, gives out. */
  ghost function FirstSlot(t: Skeleton, r: Run, evs: seq<Event>, k: nat): nat
    requires RunOf(t, r) && EventsInTree(t, evs) && k < |evs| && evs[k].EnterClass?
  {
    RunAll(t, r, evs[..k]).w.slots[evs[k].scope]
  }

  /** The slots of a class are there after the pass, and are held by class members. */
  lemma MembersHoldSlots(t: Skeleton, r: Run, evs: seq<Event>, k: nat)
    requires RunOf(t, r) && EventsInTree(t, evs) && k < |evs| && evs[k].EnterClass?
    ensures var (r', c) := (RunAll(t, r, evs), evs[k].scope);
      var first := FirstSlot(t, r, evs, k);
      && SlotRange(first, SlotCount(evs[k].elements, evs[k].useDefineSemantic)) <= r'.members[c]
      && first + SlotCount(evs[k].elements, evs[k].useDefineSemantic) <= r'.w.slots[c]
  {
    RunIsLater(t, r, evs, k + 1);
    assert evs[..k + 1][..k] == evs[..k];
  }
}
