/** Private members: which are accepted, and their slots. */
module PrivateMembers {
  import opened Options

  datatype MethodKind = METHOD | GET | SET

  datatype Member =
    | Field(name: string, isStatic: bool)
    | Method(name: string, isStatic: bool, kind: MethodKind)

  predicate IsAccessor(m: Member) {
    m.Method? && m.kind != METHOD
  }

  // ----- what the parser accepts

  /** Two members share a name only as the getter and the setter of one property, both static or both not. */
  predicate Pair(a: Member, b: Member) {
    IsAccessor(a) && IsAccessor(b) && a.kind != b.kind && a.isStatic == b.isStatic
  }

  ghost predicate UniqueNames(members: seq<Member>) {
    forall i, j :: 0 <= i < j < |members| && members[i].name == members[j].name ==> Pair(members[i], members[j])
  }

  /** The accessor that may still come under a name. */
  datatype Accessor = Accessor(kind: MethodKind, isStatic: bool)

  datatype Checked = Checked(used: set<string>, unusedPairs: map<string, Accessor>)

  function Opposite(kind: MethodKind): MethodKind {
    if kind == GET then SET else GET
  }

  function ValidatePrivateProperty(c: Checked, m: Member): Option<Checked> {
    if !IsAccessor(m) then
      if m.name in c.used then None else Some(c.(used := c.used + {m.name}))
    else if m.name !in c.used then
      var pairs: map<string, Accessor> := c.unusedPairs[m.name := Accessor(Opposite(m.kind), m.isStatic)];
      Some(Checked(c.used + {m.name}, pairs))
    else if m.name !in c.unusedPairs || c.unusedPairs[m.name] != Accessor(m.kind, m.isStatic) then None
    else Some(c.(unusedPairs := c.unusedPairs - {m.name}))
  }

  function Validate(members: seq<Member>): Option<Checked> {
    if members == [] then Some(Checked({}, map[]))
    else
      var c := Validate(members[..|members| - 1]);
      if c == None then None else ValidatePrivateProperty(c.value, members[|members| - 1])
  }

  predicate Used(members: seq<Member>, name: string) {
    members != [] && (members[|members| - 1].name == name || Used(members[..|members| - 1], name))
  }

  /** The accessor that may still come under `name`. */
  function Pending(members: seq<Member>, name: string): Option<Accessor> {
    if members == [] then None
    else
      var before, m := members[..|members| - 1], members[|members| - 1];
      if m.name != name then Pending(before, name)
      else if IsAccessor(m) && !Used(before, name) then Some(Accessor(Opposite(m.kind), m.isStatic))
      else None
  }

  /** What the two collections hold after a list of members. */
  ghost predicate Describes(c: Checked, members: seq<Member>) {
    && (forall n :: n in c.used <==> Used(members, n))
    && (forall n :: n in c.unusedPairs <==> Pending(members, n).Some?)
    && (forall n :: n in c.unusedPairs ==> c.unusedPairs[n] == Pending(members, n).value)
  }

  ghost predicate PairsWithAll(members: seq<Member>, m: Member) {
    forall i :: 0 <= i < |members| && members[i].name == m.name ==> Pair(members[i], m)
  }

  lemma UniqueSnoc(members: seq<Member>, m: Member)
    ensures UniqueNames(members + [m]) <==> UniqueNames(members) && PairsWithAll(members, m)
  {
    var all := members + [m];
    assert all[|members|] == m && forall i :: 0 <= i < |members| ==> all[i] == members[i];
    if UniqueNames(all) {
      forall i | 0 <= i < |members| && members[i].name == m.name ensures Pair(members[i], m) {
        assert Pair(all[i], all[|members|]);
      }
      forall i, j | 0 <= i < j < |members| && members[i].name == members[j].name ensures Pair(members[i], members[j]) {
        assert Pair(all[i], all[j]);
      }
    }
  }

  lemma {:induction false} UsedHasIndex(members: seq<Member>, name: string)
    ensures Used(members, name) <==> exists i :: 0 <= i < |members| && members[i].name == name
    decreases |members|
  {
    if members != [] {
      var last := |members| - 1;
      UsedHasIndex(members[..last], name);
      if i :| 0 <= i < last && members[i].name == name {
        assert members[..last][i].name == name;
      }
    }
  }

  lemma {:induction false} PendingIsUsed(members: seq<Member>, name: string)
    ensures Pending(members, name).Some? ==> Used(members, name)
    decreases |members|
  {
    if members != [] {
      PendingIsUsed(members[..|members| - 1], name);
    }
  }

  /** A further member pairs with all of its name just when it is the accessor that is awaited, or the name is new. */
  lemma {:induction false} AwaitedPairs(members: seq<Member>, m: Member)
    requires UniqueNames(members)
    ensures PairsWithAll(members, m) <==>
            !Used(members, m.name)
            || (IsAccessor(m) && Pending(members, m.name) == Some(Accessor(m.kind, m.isStatic)))
    decreases |members|
  {
    if members != [] {
      var n := |members| - 1;
      var before, last := members[..n], members[n];
      assert members == before + [last];
      UniqueSnoc(before, last);
      AwaitedPairs(before, m);
      assert PairsWithAll(members, m) <==> PairsWithAll(before, m) && (last.name == m.name ==> Pair(last, m)) by {
        if PairsWithAll(members, m) {
          forall i | 0 <= i < n && before[i].name == m.name ensures Pair(before[i], m) {
            assert members[i].name == m.name;
          }
        }
      }
      if last.name == m.name {
        UsedHasIndex(before, m.name);
        if i :| 0 <= i < n && before[i].name == m.name {
          assert Pair(before[i], last);
          assert Pair(before[i], m) ==> !Pair(last, m);
        }
      }
    }
  }

  /** The parser accepts exactly the lists in which names repeat only as accessor pairs. */
  lemma {:induction false} AcceptedIsUnique(members: seq<Member>)
    ensures Validate(members).Some? <==> UniqueNames(members)
    ensures Validate(members).Some? ==> Describes(Validate(members).value, members)
    decreases |members|
  {
    if members != [] {
      var before, m := members[..|members| - 1], members[|members| - 1];
      assert members == before + [m];
      AcceptedIsUnique(before);
      UniqueSnoc(before, m);
      if UniqueNames(before) {
        AwaitedPairs(before, m);
        PendingIsUsed(before, m.name);
      }
    }
  }

  // ----- slots

  /** Fields come first, then instance methods, then static methods. */
  datatype Group = Fields | InstanceMethods | StaticMethods

  function GroupOf(m: Member): Group {
    if m.Field? then Fields else if m.isStatic then StaticMethods else InstanceMethods
  }

  function Count(members: seq<Member>, g: Group): (n: nat)
    ensures n <= |members|
  {
    if members == [] then 0
    else Count(members[..|members| - 1], g) + (if GroupOf(members[|members| - 1]) == g then 1 else 0)
  }

  lemma CountNext(members: seq<Member>, k: nat)
    requires k < |members|
    ensures Count(members[..k + 1], Fields) == Count(members[..k], Fields) + (if members[k].Field? then 1 else 0)
    ensures Count(members[..k + 1], InstanceMethods)
            == Count(members[..k], InstanceMethods) + (if members[k].Method? && !members[k].isStatic then 1 else 0)
    ensures Count(members[..k + 1], StaticMethods)
            == Count(members[..k], StaticMethods) + (if members[k].Method? && members[k].isStatic then 1 else 0)
  {
    assert members[..k + 1][..k] == members[..k];
  }

  lemma CountSnoc(members: seq<Member>, m: Member)
    ensures Count(members + [m], Fields) == Count(members, Fields) + (if m.Field? then 1 else 0)
    ensures Count(members + [m], InstanceMethods)
            == Count(members, InstanceMethods) + (if m.Method? && !m.isStatic then 1 else 0)
    ensures Count(members + [m], StaticMethods)
            == Count(members, StaticMethods) + (if m.Method? && m.isStatic then 1 else 0)
  {
    assert (members + [m])[..|members|] == members;
  }

  /** Where the slots of a group begin, when the first free slot is `first`. */
  function Start(members: seq<Member>, first: nat, g: Group): nat {
    match g
    case Fields => first
    case InstanceMethods => first + Count(members, Fields)
    case StaticMethods => first + Count(members, Fields) + Count(members, InstanceMethods)
  }

  /** Within a group, in order of declaration. */
  function SlotOf(members: seq<Member>, first: nat, i: nat): nat
    requires i < |members|
  {
    Start(members, first, GroupOf(members[i])) + Count(members[..i], GroupOf(members[i]))
  }

  function End(members: seq<Member>, first: nat): nat {
    first + Count(members, Fields) + Count(members, InstanceMethods) + Count(members, StaticMethods)
  }

  lemma {:induction false} CountMonotone(members: seq<Member>, g: Group, i: nat, j: nat)
    requires i <= j <= |members|
    ensures Count(members[..i], g) <= Count(members[..j], g)
    ensures i < j && GroupOf(members[i]) == g ==> Count(members[..i], g) < Count(members[..j], g)
    decreases j - i
  {
    if i < j {
      assert members[..i + 1][..i] == members[..i];
      CountMonotone(members, g, i + 1, j);
    }
  }

  lemma SlotInGroup(members: seq<Member>, first: nat, i: nat)
    requires i < |members|
    ensures var g := GroupOf(members[i]);
      Start(members, first, g) <= SlotOf(members, first, i) < Start(members, first, g) + Count(members, g)
  {
    CountMonotone(members, GroupOf(members[i]), i, |members|);
    assert members[..|members|] == members;
  }

  /** No two members share a slot. */
  lemma SlotsAreDistinct(members: seq<Member>, first: nat, i: nat, j: nat)
    requires i < j < |members|
    ensures SlotOf(members, first, i) != SlotOf(members, first, j)
  {
    SlotInGroup(members, first, i);
    SlotInGroup(members, first, j);
    CountMonotone(members, GroupOf(members[i]), i, j);
  }

  lemma {:induction false} NthOfGroup(members: seq<Member>, g: Group, n: nat) returns (i: nat)
    requires n < Count(members, g)
    ensures i < |members| && GroupOf(members[i]) == g && Count(members[..i], g) == n
    decreases |members|
  {
    var last := |members| - 1;
    if n < Count(members[..last], g) {
      i := NthOfGroup(members[..last], g, n);
      assert members[..last][..i] == members[..i];
    } else {
      i := last;
    }
  }

  /** Private slots leave no gap: each slot from the first to the end belongs to a member. */
  lemma SlotsAreContiguous(members: seq<Member>, first: nat, slot: nat) returns (i: nat)
    requires first <= slot < End(members, first)
    ensures i < |members| && SlotOf(members, first, i) == slot
  {
    var fields, methods := Count(members, Fields), Count(members, InstanceMethods);
    if slot < first + fields {
      i := NthOfGroup(members, Fields, slot - first);
    } else if slot < first + fields + methods {
      i := NthOfGroup(members, InstanceMethods, slot - first - fields);
    } else {
      i := NthOfGroup(members, StaticMethods, slot - first - fields - methods);
    }
  }

  /** Fields stand before instance methods and these before static methods, accessors among the methods. */
  predicate ComesFirst(a: Member, b: Member) {
    || (a.Field? && b.Method?)
    || (a.Method? && b.Method? && !a.isStatic && b.isStatic)
  }

  /** Slots follow the groups, and inside a group the order of declaration. */
  lemma SlotsAreInOrder(members: seq<Member>, first: nat, i: nat, j: nat)
    requires i < |members| && j < |members|
    requires ComesFirst(members[i], members[j]) || (!ComesFirst(members[j], members[i]) && i < j)
    ensures SlotOf(members, first, i) < SlotOf(members, first, j)
  {
    SlotInGroup(members, first, i);
    SlotInGroup(members, first, j);
    if GroupOf(members[i]) == GroupOf(members[j]) {
      CountMonotone(members, GroupOf(members[i]), i, j);
    }
  }

  // ----- the class scope's tables

  /** The three tables a name can be in. */
  datatype Table = Names | Getters | Setters

  function TableOf(m: Member): Table {
    if !IsAccessor(m) then Names else if m.kind == GET then Getters else Setters
  }

  datatype Layout = Layout(names: map<string, nat>, getters: map<string, nat>, setters: map<string, nat>,
                           instanceMethodStart: nat, staticMethodStart: nat, methodEnd: nat,
                           instanceMethodValidation: nat, staticMethodValidation: nat)

  function Lookup(l: Layout, t: Table): map<string, nat> {
    match t
    case Names => l.names
    case Getters => l.getters
    case Setters => l.setters
  }

  /** The table of one kind after the first `n` members: each name with the slot of the last member of that name. */
  function TableUpTo(members: seq<Member>, first: nat, t: Table, n: nat): map<string, nat>
    requires n <= |members|
  {
    if n == 0 then map[]
    else if TableOf(members[n - 1]) == t then
      TableUpTo(members, first, t, n - 1)[members[n - 1].name := SlotOf(members, first, n - 1)]
    else TableUpTo(members, first, t, n - 1)
  }

  lemma {:induction false} TableHasMember(members: seq<Member>, first: nat, t: Table, n: nat, name: string)
    returns (i: nat)
    requires n <= |members| && name in TableUpTo(members, first, t, n)
    ensures i < n && members[i].name == name && TableOf(members[i]) == t
    ensures TableUpTo(members, first, t, n)[name] == SlotOf(members, first, i)
    decreases n
  {
    if TableOf(members[n - 1]) == t && members[n - 1].name == name {
      i := n - 1;
    } else {
      i := TableHasMember(members, first, t, n - 1, name);
    }
  }

  lemma {:induction false} MemberIsInTable(members: seq<Member>, first: nat, n: nat, i: nat)
    requires i < n <= |members|
    ensures members[i].name in TableUpTo(members, first, TableOf(members[i]), n)
    decreases n
  {
    if i < n - 1 {
      MemberIsInTable(members, first, n - 1, i);
    }
  }

  /** The first slot behind the private members and the slots that validate them. */
  function Free(members: seq<Member>, first: nat): nat {
    End(members, first) + (if Count(members, InstanceMethods) != 0 then 1 else 0)
    + (if Count(members, StaticMethods) != 0 then 1 else 0)
  }

  /** What the class scope holds once its private members are laid out: one fact, written as an equation so that it is
      proved in one piece. */
  ghost predicate LaidOut(l: Layout, members: seq<Member>, first: nat) {
    true == (TablesHold(l, members, first) && BoundsHold(l, members, first))
  }

  ghost predicate TablesHold(l: Layout, members: seq<Member>, first: nat) {
    && l.names == TableUpTo(members, first, Names, |members|)
    && l.getters == TableUpTo(members, first, Getters, |members|)
    && l.setters == TableUpTo(members, first, Setters, |members|)
  }

  ghost predicate BoundsHold(l: Layout, members: seq<Member>, first: nat) {
    && l.instanceMethodStart == Start(members, first, InstanceMethods)
    && l.staticMethodStart == Start(members, first, StaticMethods)
    && l.methodEnd == End(members, first)
    && (Count(members, InstanceMethods) != 0 ==> l.instanceMethodValidation == l.methodEnd)
    && (Count(members, StaticMethods) != 0 ==>
          l.staticMethodValidation == l.methodEnd + (if Count(members, InstanceMethods) != 0 then 1 else 0))
  }

  datatype PrivateProperty = PrivateProperty(slot: nat, isMethod: bool, isStatic: bool, isGetter: bool, isSetter: bool,
                                             validateMethodSlot: nat)

  predicate IsMethodSlot(l: Layout, slot: nat) {
    l.instanceMethodStart <= slot < l.methodEnd
  }

  predicate IsStaticMethodSlot(l: Layout, slot: nat) {
    l.staticMethodStart <= slot
  }

  predicate HasPrivateName(l: Layout, name: string) {
    name in l.names || name in l.getters || name in l.setters
  }

  const METHOD_NAME := "#method"

  function GetPrivateProperty(l: Layout, name: string, isSetter: bool): PrivateProperty
    requires name != METHOD_NAME ==> HasPrivateName(l, name)
  {
    if name == METHOD_NAME then PrivateProperty(l.instanceMethodValidation, false, false, false, false, 0)
    else if name in l.names then Describe(l, l.names[name], false, false)
    else
      var accessor := if isSetter then l.setters else l.getters;
      var other := if isSetter then l.getters else l.setters;
      if name in accessor then Describe(l, accessor[name], !isSetter, isSetter)
      else Describe(l, other[name], isSetter, !isSetter)
  }

  function Describe(l: Layout, slot: nat, getter: bool, setter: bool): PrivateProperty {
    PrivateProperty(slot, IsMethodSlot(l, slot), IsStaticMethodSlot(l, slot), getter, setter,
                    if !IsMethodSlot(l, slot) then 0
                    else if IsStaticMethodSlot(l, slot) then l.staticMethodValidation else l.instanceMethodValidation)
  }

  /** The answer tells the truth about member `i`, and its validation slot is no member's. */
  ghost predicate Truthful(r: PrivateProperty, l: Layout, members: seq<Member>, first: nat, i: nat)
    requires i < |members|
  {
    var m := members[i];
    && r.slot == SlotOf(members, first, i)
    && (r.isMethod <==> m.Method?)
    && (r.isStatic <==> m.Method? && m.isStatic)
    && (r.isGetter <==> IsAccessor(m) && m.kind == GET)
    && (r.isSetter <==> IsAccessor(m) && m.kind == SET)
    && (m.Field? ==> r.validateMethodSlot == 0)
    && (m.Method? ==>
          && r.validateMethodSlot == (if m.isStatic then l.staticMethodValidation else l.instanceMethodValidation)
          && End(members, first) <= r.validateMethodSlot < Free(members, first))
  }

  lemma DescribeIsTruthful(l: Layout, members: seq<Member>, first: nat, i: nat)
    requires LaidOut(l, members, first) && i < |members|
    ensures var m := members[i];
      Truthful(Describe(l, SlotOf(members, first, i), IsAccessor(m) && m.kind == GET, IsAccessor(m) && m.kind == SET),
               l, members, first, i)
  {
    SlotInGroup(members, first, i);
  }

  /** Among unique names each table has the member's own slot. */
  lemma TableHasSlot(members: seq<Member>, first: nat, i: nat)
    requires UniqueNames(members) && i < |members|
    ensures var table := TableUpTo(members, first, TableOf(members[i]), |members|);
      members[i].name in table && table[members[i].name] == SlotOf(members, first, i)
  {
    MemberIsInTable(members, first, |members|, i);
    var k := TableHasMember(members, first, TableOf(members[i]), |members|, members[i].name);
    SameNamePairs(members, i, k);
  }

  /** In a class that the parser accepts, looking up a declared name gives the member it stands for: the only one of the
      name, or of an accessor pair the one asked for; of a lone accessor the other kind is answered, with its own
      flags. */
  lemma LookupIsTruthful(l: Layout, members: seq<Member>, first: nat, i: nat, isSetter: bool) returns (k: nat)
    requires LaidOut(l, members, first) && Validate(members).Some? && i < |members| && members[i].name != METHOD_NAME
    ensures HasPrivateName(l, members[i].name)
    ensures k < |members| && members[k].name == members[i].name
    ensures Truthful(GetPrivateProperty(l, members[i].name, isSetter), l, members, first, k)
    ensures !IsAccessor(members[i]) ==> k == i
    ensures IsAccessor(members[i]) ==>
              IsAccessor(members[k]) && members[k].isStatic == members[i].isStatic
    ensures IsAccessor(members[i]) && members[i].kind == (if isSetter then SET else GET) ==> k == i
    ensures (forall j :: 0 <= j < |members| && members[j].name == members[i].name ==> j == i) ==> k == i
  {
    var name := members[i].name;
    AcceptedIsUnique(members);
    TableHasSlot(members, first, i);
    k := i;
    if IsAccessor(members[i]) {
      var wanted := if isSetter then Setters else Getters;
      if name in l.names {
        var j := TableHasMember(members, first, Names, |members|, name);
        SameNamePairs(members, i, j);
        assert false;
      }
      if name in Lookup(l, wanted) {
        k := TableHasMember(members, first, wanted, |members|, name);
        SameNamePairs(members, i, k);
      }
    }
    DescribeIsTruthful(l, members, first, k);
  }

  lemma SameNamePairs(members: seq<Member>, i: nat, j: nat)
    requires UniqueNames(members) && i < |members| && j < |members| && members[i].name == members[j].name
    ensures i == j || Pair(members[i], members[j])
  {
    assert i < j ==> Pair(members[i], members[j]);
    assert j < i ==> Pair(members[j], members[i]);
  }

  /** Asking for `#method` gives the slot right behind the members, where there are instance methods to validate. */
  lemma ValidationIs(l: Layout, members: seq<Member>, first: nat, isSetter: bool)
    requires LaidOut(l, members, first) && exists i :: 0 <= i < |members| && members[i].Method? && !members[i].isStatic
    ensures GetPrivateProperty(l, "#method", isSetter) ==
            PrivateProperty(End(members, first), false, false, false, false, 0)
    ensures (exists j :: 0 <= j < |members| && members[j].Method? && members[j].isStatic) ==>
              l.staticMethodValidation == End(members, first) + 1
  {
    var i :| 0 <= i < |members| && members[i].Method? && !members[i].isStatic;
    SlotInGroup(members, first, i);
    if j :| 0 <= j < |members| && members[j].Method? && members[j].isStatic {
      SlotInGroup(members, first, j);
    }
  }
}
