/** The slots that a class takes, group by group. */
module ClassEnvironment {
  import opened PrivateMembers

  datatype Element =
    | StaticBlock
    | Property(isPrivate: bool, name: string, isStatic: bool, needsKey: bool)
    | MethodDefinition(isPrivate: bool, name: string, isStatic: bool, kind: MethodKind, computed: bool)

  /** The keys whose values are kept in slots: those of computed fields, and the initializer's. */
  datatype Key = ElementKey(index: nat) | InitializerKey

  predicate IsSkipped(e: Element, useDefineSemantic: bool) {
    e.Property? && !e.isPrivate && !e.isStatic && !useDefineSemantic
  }

  predicate KeepsKey(e: Element, useDefineSemantic: bool) {
    e.Property? && !IsSkipped(e, useDefineSemantic) && e.needsKey
  }

  function PrivatesOf(e: Element): seq<Member> {
    if e.Property? && e.isPrivate && !e.needsKey then [Field(e.name, e.isStatic)]
    else if e.MethodDefinition? && e.isPrivate then [Method(e.name, e.isStatic, e.kind)]
    else []
  }

  /** The private members in order of declaration. */
  function Privates(elements: seq<Element>): seq<Member> {
    if elements == [] then [] else Privates(elements[..|elements| - 1]) + PrivatesOf(elements[|elements| - 1])
  }

  /** An element that has a private member. */
  predicate HasPrivate(e: Element) {
    (e.Property? && e.isPrivate && !e.needsKey) || (e.MethodDefinition? && e.isPrivate)
  }

  /** The member is what the element declares. */
  predicate Mirrors(e: Element, m: Member)
    requires HasPrivate(e)
  {
    && m.name == e.name && m.isStatic == e.isStatic && (m.Field? <==> e.Property?)
    && (e.MethodDefinition? ==> m.kind == e.kind)
  }

  function CountPrivates(elements: seq<Element>): nat {
    if elements == [] then 0
    else CountPrivates(elements[..|elements| - 1]) + (if HasPrivate(elements[|elements| - 1]) then 1 else 0)
  }

  /** Each private element has its member, in order of declaration, and there are no others. */
  lemma {:induction false} PrivatesMirror(elements: seq<Element>, i: nat)
    requires i < |elements|
    ensures |Privates(elements)| == CountPrivates(elements)
    ensures HasPrivate(elements[i]) ==>
              && CountPrivates(elements[..i]) < |Privates(elements)|
              && Mirrors(elements[i], Privates(elements)[CountPrivates(elements[..i])])
    decreases |elements|
  {
    var n := |elements| - 1;
    if i < n {
      PrivatesMirror(elements[..n], i);
      assert elements[..n][..i] == elements[..i];
    } else if n > 0 {
      PrivatesMirror(elements[..n], 0);
    } else {
      assert elements[..0] == [];
    }
  }

  /** Which fields have a key to keep, and which elements need the instance initializer: without define semantics public
      instance fields are passed over. */
  lemma KeysAndInitializers(e: Element, d: bool)
    ensures KeepsKey(e, d) <==> e.Property? && e.needsKey && (e.isPrivate || e.isStatic || d)
    ensures NeedsInitializer(e, d) <==>
            || (e.Property? && !e.isStatic && (e.isPrivate || d))
            || (e.MethodDefinition? && !e.isStatic && e.isPrivate)
  {
  }

  function CountKeys(elements: seq<Element>, useDefineSemantic: bool): nat {
    if elements == [] then 0
    else CountKeys(elements[..|elements| - 1], useDefineSemantic)
         + (if KeepsKey(elements[|elements| - 1], useDefineSemantic) then 1 else 0)
  }

  /** The slots of the computed keys among the first `n` elements. */
  function KeysUpTo(elements: seq<Element>, useDefineSemantic: bool, first: nat, n: nat): map<Key, nat>
    requires n <= |elements|
  {
    if n == 0 then map[]
    else
      var keys := KeysUpTo(elements, useDefineSemantic, first, n - 1);
      if KeepsKey(elements[n - 1], useDefineSemantic) then
        keys[ElementKey(n - 1) := first + CountKeys(elements[..n - 1], useDefineSemantic)]
      else keys
  }

  lemma {:induction false} KeySlot(elements: seq<Element>, d: bool, first: nat, n: nat, k: Key)
    requires n <= |elements|
    ensures k in KeysUpTo(elements, d, first, n) <==> k.ElementKey? && k.index < n && KeepsKey(elements[k.index], d)
    ensures k in KeysUpTo(elements, d, first, n) ==>
              KeysUpTo(elements, d, first, n)[k] == first + CountKeys(elements[..k.index], d)
    decreases n
  {
    if n > 0 {
      KeySlot(elements, d, first, n - 1, k);
    }
  }

  predicate NeedsInstanceInitializer(elements: seq<Element>, useDefineSemantic: bool) {
    exists i :: 0 <= i < |elements| && NeedsInitializer(elements[i], useDefineSemantic)
  }

  predicate NeedsInitializer(e: Element, useDefineSemantic: bool) {
    || (e.Property? && !IsSkipped(e, useDefineSemantic) && !e.isStatic)
    || (e.MethodDefinition? && e.isPrivate && !e.isStatic)
  }

  lemma {:induction false} CountKeysMonotone(elements: seq<Element>, d: bool, i: nat, j: nat)
    requires i <= j <= |elements|
    ensures CountKeys(elements[..i], d) <= CountKeys(elements[..j], d)
    ensures i < j && KeepsKey(elements[i], d) ==> CountKeys(elements[..i], d) < CountKeys(elements[..j], d)
    decreases j - i
  {
    if i < j {
      assert elements[..i + 1][..i] == elements[..i];
      CountKeysMonotone(elements, d, i + 1, j);
    }
  }

  /** Computed keys get different slots, below those of the private members. */
  lemma KeySlotsAreDistinct(elements: seq<Element>, d: bool, first: nat, i: nat, j: nat)
    requires i < j < |elements| && KeepsKey(elements[i], d) && KeepsKey(elements[j], d)
    ensures var keys := KeysUpTo(elements, d, first, |elements|);
      && ElementKey(i) in keys && ElementKey(j) in keys
      && first <= keys[ElementKey(i)] < keys[ElementKey(j)] < first + CountKeys(elements, d)
  {
    KeySlot(elements, d, first, |elements|, ElementKey(i));
    KeySlot(elements, d, first, |elements|, ElementKey(j));
    CountKeysMonotone(elements, d, i, j);
    CountKeysMonotone(elements, d, j, |elements|);
    assert elements[..|elements|] == elements;
  }

  /** How many slots a class takes. */
  function SlotCount(elements: seq<Element>, useDefineSemantic: bool): nat {
    CountKeys(elements, useDefineSemantic) + Free(Privates(elements), 0)
    + (if NeedsInstanceInitializer(elements, useDefineSemantic) then 1 else 0)
  }

  lemma FreeShifts(members: seq<Member>, first: nat)
    ensures Free(members, first) == first + Free(members, 0)
  {
  }

  /** The slot of private member `i`, when the class takes its slots from `first` on. */
  function PrivateSlotOf(elements: seq<Element>, d: bool, first: nat, i: nat): nat
    requires i < |Privates(elements)|
  {
    SlotOf(Privates(elements), first + CountKeys(elements, d), i)
  }

  lemma PrivateSlotInRange(elements: seq<Element>, d: bool, first: nat, i: nat)
    requires i < |Privates(elements)|
    ensures first <= PrivateSlotOf(elements, d, first, i) < first + SlotCount(elements, d)
  {
    FreeShifts(Privates(elements), first + CountKeys(elements, d));
    SlotInGroup(Privates(elements), first + CountKeys(elements, d), i);
  }

  /** All slots of a class lie among those that it takes. */
  lemma SlotsInRange(elements: seq<Element>, d: bool, first: nat)
    ensures var (members, n) := (Privates(elements), SlotCount(elements, d));
      var from := first + CountKeys(elements, d);
      && (forall i :: 0 <= i < |members| ==> first <= PrivateSlotOf(elements, d, first, i) < first + n)
      && (forall k :: k in KeysUpTo(elements, d, first, |elements|) ==>
            first <= KeysUpTo(elements, d, first, |elements|)[k] < first + n)
      && (Count(members, InstanceMethods) + Count(members, StaticMethods) > 0 ==>
            first <= End(members, from) < first + n)
      && (NeedsInstanceInitializer(elements, d) ==> first <= Free(members, from) < first + n)
  {
    var members, keys := Privates(elements), KeysUpTo(elements, d, first, |elements|);
    var from := first + CountKeys(elements, d);
    FreeShifts(members, from);
    forall i | 0 <= i < |members|
      ensures first <= PrivateSlotOf(elements, d, first, i) < first + SlotCount(elements, d)
    {
      PrivateSlotInRange(elements, d, first, i);
    }
    forall k | k in keys ensures first <= keys[k] < first + SlotCount(elements, d) {
      KeySlot(elements, d, first, |elements|, k);
      CountKeysMonotone(elements, d, k.index, |elements|);
      assert elements[..|elements|] == elements;
    }
  }

  /** What a class holds lies in this order: computed keys, private members, validation slots and initializer. */
  lemma SlotsInOrder(elements: seq<Element>, d: bool, first: nat, j: nat, i: nat)
    requires j < |elements| && i < |Privates(elements)|
    ensures var p, keys := PrivateSlotOf(elements, d, first, i), KeysUpTo(elements, d, first, |elements|);
      && (KeepsKey(elements[j], d) ==> ElementKey(j) in keys && keys[ElementKey(j)] < p)
      && p < End(Privates(elements), first + CountKeys(elements, d))
  {
    SlotInGroup(Privates(elements), first + CountKeys(elements, d), i);
    KeySlot(elements, d, first, |elements|, ElementKey(j));
    CountKeysMonotone(elements, d, j, |elements|);
    assert elements[..|elements|] == elements;
  }

  /** What a lookup answers for a private member, accessor of the other kind included, is the slot that the class took
      for a member of that name. */
  lemma LookupGivesPrivateSlot(l: Layout, elements: seq<Element>, d: bool, first: nat, i: nat, isSetter: bool)
    returns (k: nat)
    requires LaidOut(l, Privates(elements), first + CountKeys(elements, d)) && Validate(Privates(elements)).Some?
    requires i < |Privates(elements)| && Privates(elements)[i].name != METHOD_NAME
    ensures k < |Privates(elements)| && Privates(elements)[k].name == Privates(elements)[i].name
    ensures HasPrivateName(l, Privates(elements)[i].name)
    ensures GetPrivateProperty(l, Privates(elements)[i].name, isSetter).slot == PrivateSlotOf(elements, d, first, k)
    ensures !IsAccessor(Privates(elements)[i]) ==> k == i
    ensures IsAccessor(Privates(elements)[i]) ==>
              Privates(elements)[i].kind == (if isSetter then SET else GET) ==> k == i
  {
    k := LookupIsTruthful(l, Privates(elements), first + CountKeys(elements, d), i, isSetter);
  }

  ghost predicate Counted(members: seq<Member>, fieldCnt: nat, instanceCnt: nat, staticCnt: nat) {
    && fieldCnt == Count(members, Fields) && instanceCnt == Count(members, InstanceMethods)
    && staticCnt == Count(members, StaticMethods)
  }

  /** What has been collected from a class body. */
  datatype Tally = Tally(members: seq<Member>, fieldCnt: nat, instanceCnt: nat, staticCnt: nat,
                         needInstanceInitializer: bool)

  class ClassScope {
    var slotIndex: nat
    var computedNames: map<Key, nat>
    var privateNames: map<string, nat>
    var privateGetters: map<string, nat>
    var privateSetters: map<string, nat>
    var privateFieldCnt: nat
    var instancePrivateMethodStartSlot: nat
    var staticPrivateMethodStartSlot: nat
    var privateMethodEndSlot: nat
    var instanceMethodValidation: nat
    var staticMethodValidation: nat

    /** A scope whose first slots are taken by variables that inner functions use. */
    constructor (taken: nat)
      ensures slotIndex == taken && computedNames == map[] && NoPrivates()
    {
      slotIndex, computedNames := taken, map[];
      privateNames, privateGetters, privateSetters := map[], map[], map[];
      privateFieldCnt, instancePrivateMethodStartSlot, staticPrivateMethodStartSlot := 0, 0, 0;
      privateMethodEndSlot, instanceMethodValidation, staticMethodValidation := 0, 0, 0;
    }

    predicate NoPrivates()
      reads this`privateNames, this`privateGetters, this`privateSetters
    {
      privateNames == map[] && privateGetters == map[] && privateSetters == map[]
    }

    function GetLayout(): Layout
      reads this`privateNames, this`privateGetters, this`privateSetters
      reads this`instancePrivateMethodStartSlot, this`staticPrivateMethodStartSlot, this`privateMethodEndSlot
      reads this`instanceMethodValidation, this`staticMethodValidation
    {
      Layout(privateNames, privateGetters, privateSetters, instancePrivateMethodStartSlot, staticPrivateMethodStartSlot,
             privateMethodEndSlot, instanceMethodValidation, staticMethodValidation)
    }

    method AddClassVariable(key: Key)
      requires key !in computedNames
      modifies this`slotIndex, this`computedNames
      ensures computedNames == old(computedNames)[key := old(slotIndex)] && slotIndex == old(slotIndex) + 1
    {
      computedNames := computedNames[key := slotIndex];
      slotIndex := slotIndex + 1;
    }

    /** The three tables hold the first `n` members. */
    ghost predicate Tables(members: seq<Member>, first: nat, n: nat)
      requires n <= |members|
      reads this`privateNames, this`privateGetters, this`privateSetters
    {
      && privateNames == TableUpTo(members, first, Names, n)
      && privateGetters == TableUpTo(members, first, Getters, n)
      && privateSetters == TableUpTo(members, first, Setters, n)
    }

    method InsertPrivate(members: seq<Member>, ghost first: nat, k: nat, slot: nat)
      requires k < |members| && slot == SlotOf(members, first, k) && Tables(members, first, k)
      modifies this`privateNames, this`privateGetters, this`privateSetters
      ensures Tables(members, first, k + 1)
    {
      var m := members[k];
      if m.Field? || m.kind == METHOD {
        privateNames := privateNames[m.name := slot];
      } else if m.kind == GET {
        privateGetters := privateGetters[m.name := slot];
      } else {
        privateSetters := privateSetters[m.name := slot];
      }
    }

    /** Fields take the next slots; instance and static methods count up from where the counts say they start. */
    method AddPrivateName(members: seq<Member>, fieldCnt: nat, instanceCnt: nat, staticCnt: nat)
      requires NoPrivates()
      requires Counted(members, fieldCnt, instanceCnt, staticCnt)
      modifies this
      ensures LaidOut(GetLayout(), members, old(slotIndex)) && slotIndex == Free(members, old(slotIndex))
      ensures computedNames == old(computedNames)
    {
      privateFieldCnt := fieldCnt;
      instancePrivateMethodStartSlot := slotIndex + privateFieldCnt;
      staticPrivateMethodStartSlot := instancePrivateMethodStartSlot + instanceCnt;
      PlaceMembers(members);
      AddValidation(instanceCnt != 0, staticCnt != 0);
    }

    method AddValidation(instanceMethods: bool, staticMethods: bool)
      modifies this`slotIndex, this`privateMethodEndSlot, this`instanceMethodValidation, this`staticMethodValidation
      ensures privateMethodEndSlot == old(slotIndex)
      ensures instanceMethods ==> instanceMethodValidation == privateMethodEndSlot
      ensures staticMethods ==> staticMethodValidation == privateMethodEndSlot + (if instanceMethods then 1 else 0)
      ensures slotIndex == old(slotIndex) + (if instanceMethods then 1 else 0) + (if staticMethods then 1 else 0)
    {
      privateMethodEndSlot := slotIndex;
      if instanceMethods {
        instanceMethodValidation := slotIndex;
        slotIndex := slotIndex + 1;
      }
      if staticMethods {
        staticMethodValidation := slotIndex;
        slotIndex := slotIndex + 1;
      }
    }

    method PlaceMembers(members: seq<Member>)
      requires NoPrivates()
      requires instancePrivateMethodStartSlot == Start(members, slotIndex, InstanceMethods)
      requires staticPrivateMethodStartSlot == Start(members, slotIndex, StaticMethods)
      modifies this`slotIndex, this`privateNames, this`privateGetters, this`privateSetters
      ensures Tables(members, old(slotIndex), |members|) && slotIndex == End(members, old(slotIndex))
    {
      ghost var first := slotIndex;
      var instanceSlot := instancePrivateMethodStartSlot;
      var staticSlot := staticPrivateMethodStartSlot;
      for k := 0 to |members|
        invariant Tables(members, first, k)
        invariant slotIndex == first + Count(members[..k], Fields)
        invariant instanceSlot == Start(members, first, InstanceMethods) + Count(members[..k], InstanceMethods)
        invariant staticSlot == Start(members, first, StaticMethods) + Count(members[..k], StaticMethods)
      {
        CountNext(members, k);
        var slot, m := slotIndex, members[k];
        if m.Field? {
          slotIndex := slotIndex + 1;
        } else if m.isStatic {
          slot := staticSlot;
          staticSlot := staticSlot + 1;
        } else {
          slot := instanceSlot;
          instanceSlot := instanceSlot + 1;
        }
        InsertPrivate(members, first, k, slot);
      }
      assert members[..|members|] == members;
      slotIndex := staticSlot;
    }

    method GetPrivateProperty(name: string, isSetter: bool) returns (r: PrivateProperty)
      requires name == METHOD_NAME || HasPrivateName(GetLayout(), name)
      ensures r == PrivateMembers.GetPrivateProperty(GetLayout(), name, isSetter)
    {
      if name == METHOD_NAME {
        return PrivateProperty(instanceMethodValidation, false, false, false, false, 0);
      }
      var slot, setter, getter := 0, false, false;
      if name in privateNames {
        slot := privateNames[name];
      } else {
        var accessor := if isSetter then privateSetters else privateGetters;
        var unexpectedAccessor := if isSetter then privateGetters else privateSetters;
        if name in accessor {
          setter := isSetter;
          getter := !setter;
          slot := accessor[name];
        } else {
          getter := isSetter;
          setter := !getter;
          slot := unexpectedAccessor[name];
        }
      }
      var validateMethodSlot := 0;
      if IsMethodSlot(GetLayout(), slot) {
        validateMethodSlot :=
          if IsStaticMethodSlot(GetLayout(), slot) then staticMethodValidation else instanceMethodValidation;
      }
      return PrivateProperty(slot, IsMethodSlot(GetLayout(), slot), IsStaticMethodSlot(GetLayout(), slot), getter,
                             setter,
                             validateMethodSlot);
    }

    /** One element: a private member is counted and listed, a computed key gets its slot. */
    method CollectElement(e: Element, index: nat, useDefineSemantic: bool, now: Tally) returns (t: Tally)
      requires ElementKey(index) !in computedNames && TallyOk(now)
      modifies this`slotIndex, this`computedNames
      ensures t.members == now.members + PrivatesOf(e) && TallyOk(t)
      ensures t.needInstanceInitializer || t.instanceCnt > 0 <==>
              now.needInstanceInitializer || now.instanceCnt > 0 || NeedsInitializer(e, useDefineSemantic)
      ensures if KeepsKey(e, useDefineSemantic)
              then computedNames == old(computedNames)[ElementKey(index) := old(slotIndex)]
                  && slotIndex == old(slotIndex) + 1
              else computedNames == old(computedNames) && slotIndex == old(slotIndex)
    {
      t := now;
      assert now.members + [] == now.members;
      if e.MethodDefinition? {
        if e.isPrivate {
          CountSnoc(t.members, Method(e.name, e.isStatic, e.kind));
          t := t.(members := t.members + [Method(e.name, e.isStatic, e.kind)]);
          if e.isStatic {
            t := t.(staticCnt := t.staticCnt + 1);
          } else {
            t := t.(instanceCnt := t.instanceCnt + 1);
          }
        }
        return;
      }
      if e.StaticBlock? || IsSkipped(e, useDefineSemantic) {
        return;
      }
      t := t.(needInstanceInitializer := t.needInstanceInitializer || !e.isStatic);
      if e.needsKey {
        AddClassVariable(ElementKey(index));
      } else if e.isPrivate {
        CountSnoc(t.members, Field(e.name, e.isStatic));
        t := t.(fieldCnt := t.fieldCnt + 1, members := t.members + [Field(e.name, e.isStatic)]);
      }
    }

    static ghost predicate TallyOk(t: Tally) {
      Counted(t.members, t.fieldCnt, t.instanceCnt, t.staticCnt)
    }

    /** The private members with their counts; computed keys get their slots on the way. */
    method CollectPrivates(elements: seq<Element>, useDefineSemantic: bool) returns (t: Tally)
      requires computedNames == map[]
      modifies this`slotIndex, this`computedNames
      ensures t.members == Privates(elements) && TallyOk(t)
      ensures slotIndex == old(slotIndex) + CountKeys(elements, useDefineSemantic)
      ensures computedNames == KeysUpTo(elements, useDefineSemantic, old(slotIndex), |elements|)
      ensures t.needInstanceInitializer || t.instanceCnt > 0 <==> NeedsInstanceInitializer(elements, useDefineSemantic)
    {
      ghost var first := slotIndex;
      t := Tally([], 0, 0, 0, false);
      for k := 0 to |elements|
        invariant Collected(elements, useDefineSemantic, first, k, t, slotIndex, computedNames)
      {
        KeySlot(elements, useDefineSemantic, first, k, ElementKey(k));
        ghost var before, slot, keys := t, slotIndex, computedNames;
        t := CollectElement(elements[k], k, useDefineSemantic, t);
        CollectedNext(elements, useDefineSemantic, first, k, before, slot, keys, t, slotIndex, computedNames);
      }
      assert elements[..|elements|] == elements;
    }

    /** What has been collected from the first `k` elements. */
    static ghost predicate Collected(elements: seq<Element>, d: bool, first: nat, k: nat,
                                     t: Tally, slot: nat, keys: map<Key, nat>)
      requires k <= |elements|
    {
      && t.members == Privates(elements[..k]) && TallyOk(t)
      && slot == first + CountKeys(elements[..k], d) && keys == KeysUpTo(elements, d, first, k)
      && (t.needInstanceInitializer || t.instanceCnt > 0 <==> NeedsInstanceInitializer(elements[..k], d))
    }

    static lemma CollectedNext(elements: seq<Element>, d: bool, first: nat, k: nat, t: Tally, slot: nat,
                               keys: map<Key, nat>, t': Tally, slot': nat, keys': map<Key, nat>)
      requires k < |elements| && Collected(elements, d, first, k, t, slot, keys)
      requires t'.members == t.members + PrivatesOf(elements[k]) && TallyOk(t')
      requires t'.needInstanceInitializer || t'.instanceCnt > 0 <==>
               t.needInstanceInitializer || t.instanceCnt > 0 || NeedsInitializer(elements[k], d)
      requires if KeepsKey(elements[k], d) then keys' == keys[ElementKey(k) := slot] && slot' == slot + 1
               else keys' == keys && slot' == slot
      ensures Collected(elements, d, first, k + 1, t', slot', keys')
    {
      CollectedSnoc(elements, d, first, k);
      InitializerSnoc(elements, d, k);
    }

    static lemma CollectedSnoc(elements: seq<Element>, d: bool, first: nat, k: nat)
      requires k < |elements|
      ensures Privates(elements[..k + 1]) == Privates(elements[..k]) + PrivatesOf(elements[k])
      ensures CountKeys(elements[..k + 1], d)
              == CountKeys(elements[..k], d) + (if KeepsKey(elements[k], d) then 1 else 0)
      ensures KeysUpTo(elements, d, first, k + 1) ==
              if KeepsKey(elements[k], d)
              then KeysUpTo(elements, d, first, k)[ElementKey(k) := first + CountKeys(elements[..k], d)]
              else KeysUpTo(elements, d, first, k)
    {
      var short, long := elements[..k], elements[..k + 1];
      assert long[..|long| - 1] == short && long[|long| - 1] == elements[k];
    }

    /** All of a class's slots, one group after another from the first free one on: computed keys, private members,
        validation slots, the instance initializer. */
    method BuildClassEnvironment(elements: seq<Element>, useDefineSemantic: bool) returns (members: seq<Member>)
      requires NoPrivates() && computedNames == map[]
      modifies this
      ensures members == Privates(elements)
      ensures var first := old(slotIndex) + CountKeys(elements, useDefineSemantic);
        var keys := KeysUpTo(elements, useDefineSemantic, old(slotIndex), |elements|);
        && slotIndex == old(slotIndex) + SlotCount(elements, useDefineSemantic)
        && (if members == [] then NoPrivates() else LaidOut(GetLayout(), members, first))
        && (if NeedsInstanceInitializer(elements, useDefineSemantic)
            then computedNames == keys[InitializerKey := Free(members, first)] && slotIndex == Free(members, first) + 1
            else computedNames == keys && slotIndex == Free(members, first))
    {
      var t := CollectPrivates(elements, useDefineSemantic);
      members := t.members;
      ghost var first: nat := old(slotIndex) + CountKeys(elements, useDefineSemantic);
      assert slotIndex == first;
      FreeShifts(members, first);
      if members != [] {
        AddPrivateName(members, t.fieldCnt, t.instanceCnt, t.staticCnt);
        assert LaidOut(GetLayout(), members, first);
      }
      KeySlot(elements, useDefineSemantic, old(slotIndex), |elements|, InitializerKey);
      if t.needInstanceInitializer || t.instanceCnt > 0 {
        AddClassVariable(InitializerKey);
      }
    }

    static lemma InitializerSnoc(elements: seq<Element>, d: bool, k: nat)
      requires k < |elements|
      ensures NeedsInstanceInitializer(elements[..k + 1], d) <==>
              NeedsInstanceInitializer(elements[..k], d) || NeedsInitializer(elements[k], d)
    {
      var short, long := elements[..k], elements[..k + 1];
      if NeedsInstanceInitializer(short, d) {
        var i :| 0 <= i < k && NeedsInitializer(short[i], d);
        assert long[i] == short[i];
      }
      if NeedsInitializer(elements[k], d) {
        assert long[k] == elements[k];
      }
      if NeedsInstanceInitializer(long, d) && !NeedsInitializer(elements[k], d) {
        var i :| 0 <= i < k + 1 && NeedsInitializer(long[i], d);
        assert short[i] == long[i];
      }
    }
  }
}
