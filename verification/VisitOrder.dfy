/** The order in which the reference pass enters the functions of a program in the list: a function after its
    parameters and before its body, a class by its parts. */
module VisitOrder {
  import opened ScopeTree

  /** What the reference pass meets of functions and classes. A function holds the nodes of its default values and those
      of its body, each in source order; it is not listed when it is only declared, or an initializer without a use. */
  datatype Node =
    | FunctionNode(scope: nat, listed: bool, params: seq<Node>, body: seq<Node>)
    | ClassNode(scope: nat, heritage: seq<Node>, staticInit: Node, constructorNode: Node, instanceInit: Node,
                elements: seq<Element>)

  datatype Element =
    | Field(isStatic: bool, key: seq<Node>, value: seq<Node>)
    | StaticBlock(body: seq<Node>)
    | Method(nodes: seq<Node>)

  /** Static blocks and static fields are visited before the constructor, everything else after it. */
  predicate IsEarly(e: Element) {
    e.StaticBlock? || (e.Field? && e.isStatic)
  }

  function NodesOf(e: Element): seq<Node> {
    match e
    case Field(_, key, value) => key + value
    case StaticBlock(body) => body
    case Method(nodes) => nodes
  }

  function ElementVisits(es: seq<Element>, early: bool): (ns: seq<Node>)
    ensures forall c :: c in ns ==> exists e :: e in es && IsEarly(e) == early && c in NodesOf(e)
  {
    if es == [] then []
    else
      var rest := ElementVisits(es[1..], early);
      if IsEarly(es[0]) == early then NodesOf(es[0]) + rest else rest
  }

  ghost predicate PartsOf(ns: seq<Node>, n: Node) {
    forall i :: 0 <= i < |ns| ==> ns[i] < n
  }

  lemma ElementsAreParts(n: Node, early: bool)
    requires n.ClassNode?
    ensures PartsOf(ElementVisits(n.elements, early), n)
  {
    var ns := ElementVisits(n.elements, early);
    forall i | 0 <= i < |ns| ensures ns[i] < n {
      assert ns[i] in ns;
      var e :| e in n.elements && ns[i] in NodesOf(e);
      NodeIsPart(e, ns[i]);
    }
  }

  lemma NodeIsPart(e: Element, c: Node)
    requires c in NodesOf(e)
    ensures c < e
  {
    match e
    case Field(_, key, value) =>
      var k :| 0 <= k < |NodesOf(e)| && NodesOf(e)[k] == c;
      assert c == if k < |key| then key[k] else value[k - |key|];
    case StaticBlock(_) =>
    case Method(_) =>
  }

  /** The order of a class: its heritage, the static initializer, what is static, the constructor, the instance
      initializer, and the other elements. */
  function Visits(n: Node): (ns: seq<Node>)
    requires n.ClassNode?
    ensures PartsOf(ns, n)
  {
    ElementsAreParts(n, true);
    ElementsAreParts(n, false);
    n.heritage + [n.staticInit] + ElementVisits(n.elements, true)
    + [n.constructorNode, n.instanceInit] + ElementVisits(n.elements, false)
  }

  /** The functions of a node in the order of the list: a function comes after its parameters and before its body. */
  function Entries(n: Node): seq<nat>
    decreases n
  {
    match n
    case FunctionNode(f, listed, params, body) =>
      EntriesAll(n, params) + (if listed then [f] + EntriesAll(n, body) else [])
    case ClassNode(_, _, _, _, _, _) => EntriesAll(n, Visits(n))
  }

  /** The nodes `ns` of `n`, one after another. */
  function EntriesAll(n: Node, ns: seq<Node>): seq<nat>
    requires PartsOf(ns, n)
    decreases n, |ns|
  {
    if ns == [] then []
    else
      Entries(ns[0]) + EntriesAll(n, ns[1..])
  }

  // ----- scopes around scopes

  /** The scopes that functions and classes bring with them, and the top scope. */
  predicate IsMark(t: Skeleton, i: nat)
    requires i < |t|
  {
    i == 0 || t[i].kind == FUNCTION || t[i].kind == FUNCTION_PARAM || t[i].kind == CLASS
  }

  function Around(t: Skeleton, i: nat): (m: nat)
    requires WellFormed(t) && i < |t|
    ensures m < |t| && IsMark(t, m) && Encloses(t, m, i)
    decreases i
  {
    if IsMark(t, i) then i else Around(t, Parent(t, i))
  }

  lemma {:induction false} AroundIsNearest(t: Skeleton, a: nat, i: nat)
    requires WellFormed(t) && i < |t| && Encloses(t, a, i) && IsMark(t, a)
    ensures Encloses(t, a, Around(t, i))
    decreases i
  {
    if !IsMark(t, i) {
      AroundIsNearest(t, a, Parent(t, i));
    }
  }

  /** Of a function that is not listed only the default values are visited. */
  lemma UnlistedEntries(n: Node)
    requires n.FunctionNode? && !n.listed
    ensures Entries(n) == EntriesAll(n, n.params)
  {
    assert EntriesAll(n, n.params) + [] == EntriesAll(n, n.params);
  }

  // ----- nodes and scopes

  predicate IsInner(t: Skeleton, c: Node) {
    c.scope < |t| && t[c.scope].kind == if c.FunctionNode? then FUNCTION else CLASS
  }

  /** The outermost scope that a node brings with it. */
  function Top(t: Skeleton, c: Node): (a: nat)
    requires WellFormed(t) && IsInner(t, c)
    ensures 0 < a <= c.scope && IsMark(t, a) && Encloses(t, a, c.scope)
    ensures t[a].kind == if c.FunctionNode? then FUNCTION_PARAM else CLASS
  {
    assert WellFormedAt(t, 0);
    if c.FunctionNode? then
      assert Encloses(t, ParamScopeOf(t, c.scope), Parent(t, c.scope));
      ParamScopeOf(t, c.scope)
    else c.scope
  }

  /** The scope of a function or class in which a node stands. */
  function Holder(t: Skeleton, c: Node): (h: nat)
    requires WellFormed(t) && IsInner(t, c)
    ensures h < Top(t, c) && IsMark(t, h) && Encloses(t, h, Top(t, c))
  {
    EnclosesTwice(t, Around(t, Parent(t, Top(t, c))), Parent(t, Top(t, c)), Top(t, c));
    Around(t, Parent(t, Top(t, c)))
  }

  lemma HolderIsNearest(t: Skeleton, a: nat, c: Node)
    requires WellFormed(t) && IsInner(t, c) && a < |t| && IsMark(t, a) && a != Top(t, c) && Encloses(t, a, Top(t, c))
    ensures Encloses(t, a, Holder(t, c))
  {
    AroundIsNearest(t, a, Parent(t, Top(t, c)));
  }

  lemma OwnTops(t: Skeleton, c: Node, d: Node)
    requires WellFormed(t) && IsInner(t, c) && IsInner(t, d)
    ensures Top(t, c) == Top(t, d) ==> c.scope == d.scope
  {
  }

  ghost predicate HangIn(t: Skeleton, ns: seq<Node>, h: nat)
    requires WellFormed(t)
  {
    forall i :: 0 <= i < |ns| ==> IsInner(t, ns[i]) && Holder(t, ns[i]) == h
  }

  predicate OwnScopes(ns: seq<Node>) {
    forall i, j :: 0 <= i < j < |ns| ==> ns[i].scope != ns[j].scope
  }

  predicate IsInitializer(n: Node) {
    n.FunctionNode? && n.params == [] && n.body == []
  }

  /** Where the parts of an element stand: the value of a field, and a static block, in the initializer. */
  ghost predicate ElementHangs(t: Skeleton, n: Node, e: Element)
    requires WellFormed(t) && n.ClassNode?
  {
    match e
    case Field(isStatic, key, value) =>
      HangIn(t, key, n.scope) && HangIn(t, value, if isStatic then n.staticInit.scope else n.instanceInit.scope)
    case StaticBlock(body) => HangIn(t, body, n.staticInit.scope)
    case Method(nodes) => HangIn(t, nodes, n.scope)
  }

  /** The nodes have the scopes that the tree of scopes says. */
  ghost predicate Fits(t: Skeleton, n: Node)
    requires WellFormed(t)
    decreases n
  {
    && n.scope < |t|
    && match n
       case FunctionNode(f, _, params, body) =>
         && (t[f].kind == FUNCTION || (f == 0 && params == []))
         && (f > 0 ==> t[f].kind == FUNCTION && HangIn(t, params, ParamScopeOf(t, f)))
         && HangIn(t, body, f) && OwnScopes(params) && OwnScopes(body)
         && (forall i :: 0 <= i < |params| ==> Fits(t, params[i]))
         && (forall i :: 0 <= i < |body| ==> Fits(t, body[i]))
       case ClassNode(s, heritage, staticInit, constructorNode, instanceInit, elements) =>
         && t[s].kind == CLASS && OwnScopes(Visits(n))
         && IsInitializer(staticInit) && constructorNode.FunctionNode? && IsInitializer(instanceInit)
         && HangIn(t, heritage, s) && HangIn(t, [staticInit, constructorNode, instanceInit], s)
         && (forall e :: e in elements ==> ElementHangs(t, n, e))
         && (forall i :: 0 <= i < |Visits(n)| ==> Visits(n)[i] < n && Fits(t, Visits(n)[i]))
  }

  // ----- before and after

  /** Function `f` stands in the body of `g`, at whatever depth. */
  predicate InBody(t: Skeleton, g: nat, f: nat)
    requires WellFormed(t) && f < |t|
  {
    f != g && Encloses(t, g, f)
  }

  /** Function `f` stands in a default value of `g`, at whatever depth. */
  predicate InDefault(t: Skeleton, g: nat, f: nat)
    requires WellFormed(t) && g < |t| && f < |t|
  {
    t[g].kind == FUNCTION && !Encloses(t, g, f) && Encloses(t, ParamScopeOf(t, g), f)
  }

  /** Nothing forbids `x` to stand before `y` in the list. */
  predicate Precedes(t: Skeleton, x: nat, y: nat)
    requires WellFormed(t) && x < |t| && y < |t|
  {
    !InDefault(t, x, y) && !InBody(t, y, x)
  }

  predicate LiesIn(t: Skeleton, a: nat, x: nat)
    requires WellFormed(t)
  {
    x < |t| && t[x].kind == FUNCTION && Encloses(t, a, ParamScopeOf(t, x))
  }

  lemma LiesBelow(t: Skeleton, a: nat, b: nat, x: nat)
    requires WellFormed(t) && b < |t| && Encloses(t, a, b) && LiesIn(t, b, x)
    ensures LiesIn(t, a, x)
  {
    EnclosesTwice(t, a, b, ParamScopeOf(t, x));
  }

  lemma ApartPrecede(t: Skeleton, a: nat, b: nat, x: nat, y: nat)
    requires WellFormed(t) && a < |t| && b < |t| && !Encloses(t, a, b) && !Encloses(t, b, a)
    requires LiesIn(t, a, x) && LiesIn(t, b, y)
    ensures Precedes(t, x, y)
  {
    var p, q := ParamScopeOf(t, x), ParamScopeOf(t, y);
    EnclosesTwice(t, a, p, x);
    EnclosesTwice(t, b, q, y);
    if InDefault(t, x, y) {
      EnclosesTwice(t, a, p, y);
      EnclosingAreNested(t, a, b, y);
    }
    if InBody(t, y, x) {
      EnclosesTwice(t, b, y, x);
      EnclosingAreNested(t, a, b, x);
    }
  }

  lemma NodesApart(t: Skeleton, c: Node, d: Node)
    requires WellFormed(t) && IsInner(t, c) && IsInner(t, d) && c.scope != d.scope
    requires !Encloses(t, Top(t, c), Holder(t, d)) && !Encloses(t, Top(t, d), Holder(t, c))
    ensures !Encloses(t, Top(t, c), Top(t, d)) && !Encloses(t, Top(t, d), Top(t, c))
  {
    OwnTops(t, c, d);
    if Encloses(t, Top(t, c), Top(t, d)) {
      HolderIsNearest(t, Top(t, c), d);
    }
    if Encloses(t, Top(t, d), Top(t, c)) {
      HolderIsNearest(t, Top(t, d), c);
    }
  }

  ghost predicate AllLieIn(t: Skeleton, a: nat, s: seq<nat>)
    requires WellFormed(t)
  {
    forall x :: x in s ==> LiesIn(t, a, x)
  }

  ghost predicate AllPrecede(t: Skeleton, s: seq<nat>, s': seq<nat>)
    requires WellFormed(t)
  {
    forall x, y :: x in s && y in s' ==> x < |t| && y < |t| && Precedes(t, x, y)
  }

  lemma AllApartPrecede(t: Skeleton, a: nat, b: nat, s: seq<nat>, s': seq<nat>)
    requires WellFormed(t) && a < |t| && b < |t| && !Encloses(t, a, b) && !Encloses(t, b, a)
    requires AllLieIn(t, a, s) && AllLieIn(t, b, s')
    ensures AllPrecede(t, s, s')
  {
    forall x, y | x in s && y in s' ensures x < |t| && y < |t| && Precedes(t, x, y) {
      ApartPrecede(t, a, b, x, y);
    }
  }

  /** The list `s` is in order: functions of default values before their function, functions of a body after it. */
  ghost predicate InOrder(t: Skeleton, s: seq<nat>)
    requires WellFormed(t)
  {
    && (forall i :: 0 <= i < |s| ==> s[i] < |t|)
    && (forall i, j :: 0 <= i < j < |s| ==> Precedes(t, s[i], s[j]))
  }

  lemma JoinedInOrder(t: Skeleton, s: seq<nat>, s': seq<nat>)
    requires WellFormed(t) && InOrder(t, s) && InOrder(t, s') && AllPrecede(t, s, s')
    ensures InOrder(t, s + s')
  {
    var u := s + s';
    forall i, j | 0 <= i < j < |u| ensures Precedes(t, u[i], u[j]) {
      if i < |s| <= j {
        assert s[i] in s && s'[j - |s|] in s';
      }
    }
  }

  lemma {:induction false} EntriesFrom(n: Node, ns: seq<Node>, x: nat) returns (i: nat)
    requires PartsOf(ns, n) && x in EntriesAll(n, ns)
    ensures i < |ns| && x in Entries(ns[i])
    decreases |ns|
  {
    if x in Entries(ns[0]) {
      i := 0;
    } else {
      i := EntriesFrom(n, ns[1..], x);
      i := i + 1;
    }
  }

  lemma {:induction false} EntriesOfPart(n: Node, ns: seq<Node>, i: nat)
    requires PartsOf(ns, n) && i < |ns|
    ensures forall x :: x in Entries(ns[i]) ==> x in EntriesAll(n, ns)
    decreases i
  {
    if i > 0 {
      EntriesOfPart(n, ns[1..], i - 1);
    }
  }

  /** The parts of the visits of a class. */
  lemma VisitParts(n: Node, j: nat)
    requires n.ClassNode? && j < |Visits(n)|
    ensures var v, h, early := Visits(n), |n.heritage|, ElementVisits(n.elements, true);
      && |v| >= h + 3 + |early| && v[h] == n.staticInit && v[h + 2 + |early|] == n.instanceInit
      && (j < h ==> v[j] == n.heritage[j])
      && (h < j < h + 1 + |early| ==> v[j] in early)
      && (j == h + 1 + |early| ==> v[j] == n.constructorNode)
      && (j > h + 2 + |early| ==> v[j] in ElementVisits(n.elements, false))
  {
    var v, h, early := Visits(n), |n.heritage|, ElementVisits(n.elements, true);
    var late := ElementVisits(n.elements, false);
    if h < j < h + 1 + |early| {
      assert v[j] == early[j - h - 1];
    } else if j > h + 2 + |early| {
      assert v[j] == late[j - h - 3 - |early|];
    }
  }

  /** Where the visits of a class stand: in the class, or in an initializer that has been visited before. */
  lemma VisitPlaces(t: Skeleton, n: Node, j: nat)
    requires WellFormed(t) && n.ClassNode? && Fits(t, n) && j < |Visits(n)|
    ensures var c, h, m := Visits(n)[j], |n.heritage|, |n.heritage| + 1 + |ElementVisits(n.elements, true)|;
      && IsInner(t, c) && c < n && Fits(t, c)
      && m + 1 < |Visits(n)| && Visits(n)[h] == n.staticInit && Visits(n)[m + 1] == n.instanceInit
      && (|| Holder(t, c) == n.scope
          || (j > h && Holder(t, c) == n.staticInit.scope)
          || (j > m + 1 && Holder(t, c) == n.instanceInit.scope))
  {
    var c, h, early := Visits(n)[j], |n.heritage|, ElementVisits(n.elements, true);
    VisitParts(n, j);
    if j < h {
      HangsIn(t, n.heritage, n.scope, c);
    } else if h < j < h + 1 + |early| {
      ElementPlace(t, n, true, c);
    } else if j > h + 2 + |early| {
      ElementPlace(t, n, false, c);
    } else {
      HangsIn(t, [n.staticInit, n.constructorNode, n.instanceInit], n.scope, c);
    }
  }

  lemma ElementPlace(t: Skeleton, n: Node, early: bool, c: Node)
    requires WellFormed(t) && n.ClassNode? && (forall e :: e in n.elements ==> ElementHangs(t, n, e))
    requires c in ElementVisits(n.elements, early)
    ensures IsInner(t, c)
    ensures Holder(t, c) == n.scope || Holder(t, c) == (if early then n.staticInit else n.instanceInit).scope
  {
    var e :| e in n.elements && IsEarly(e) == early && c in NodesOf(e);
    match e
    case Field(_, key, value) =>
      if c in key {
        HangsIn(t, key, n.scope, c);
      } else {
        HangsIn(t, value, (if early then n.staticInit else n.instanceInit).scope, c);
      }
    case StaticBlock(body) => HangsIn(t, body, n.staticInit.scope, c);
    case Method(nodes) => HangsIn(t, nodes, n.scope, c);
  }

  lemma HangsIn(t: Skeleton, ns: seq<Node>, h: nat, c: Node)
    requires WellFormed(t) && HangIn(t, ns, h) && c in ns
    ensures IsInner(t, c) && Holder(t, c) == h
  {
    var k :| 0 <= k < |ns| && ns[k] == c;
  }

  /** A node held by a scope is not around it. */
  lemma NotAroundHolder(t: Skeleton, c: Node, s: nat)
    requires WellFormed(t) && IsInner(t, c) && s < |t| && Encloses(t, s, Holder(t, c))
    ensures !Encloses(t, Top(t, c), s)
  {
  }

  lemma NotAroundSibling(t: Skeleton, c: Node, d: Node, s: nat)
    requires WellFormed(t) && IsInner(t, c) && IsInner(t, d) && d.FunctionNode? && c.scope != d.scope
    requires s < |t| && Encloses(t, s, Holder(t, c)) && Holder(t, d) == s
    ensures !Encloses(t, Top(t, c), d.scope)
  {
    if Encloses(t, Top(t, c), d.scope) {
      OwnTops(t, c, d);
      assert Encloses(t, Top(t, c), Top(t, d));
      HolderIsNearest(t, Top(t, c), d);
      NotAroundHolder(t, c, s);
    }
  }

  // ----- a node lists only functions inside it

  /** What stands in an initializer of a class stands in the class. */
  lemma VisitInClass(t: Skeleton, n: Node, j: nat)
    requires WellFormed(t) && n.ClassNode? && Fits(t, n) && j < |Visits(n)|
    ensures var c := Visits(n)[j];
      && IsInner(t, c) && c < n && Fits(t, c)
      && Encloses(t, n.scope, Holder(t, c)) && Encloses(t, n.scope, Top(t, c))
  {
    VisitPlaces(t, n, j);
    var c, three := Visits(n)[j], [n.staticInit, n.constructorNode, n.instanceInit];
    if Holder(t, c) == n.staticInit.scope {
      InnerIn(t, three[0], n.scope);
    } else if Holder(t, c) == n.instanceInit.scope {
      InnerIn(t, three[2], n.scope);
    }
    EnclosesTwice(t, n.scope, Holder(t, c), Top(t, c));
  }

  lemma InnerIn(t: Skeleton, c: Node, h: nat)
    requires WellFormed(t) && IsInner(t, c) && Holder(t, c) == h
    ensures Encloses(t, h, Top(t, c)) && Encloses(t, h, c.scope)
  {
    EnclosesTwice(t, h, Top(t, c), c.scope);
  }

  lemma {:induction false} EntriesLieIn(t: Skeleton, c: Node)
    requires WellFormed(t) && IsInner(t, c) && Fits(t, c)
    ensures AllLieIn(t, Top(t, c), Entries(c))
    decreases c
  {
    var a := Top(t, c);
    match c
    case FunctionNode(f, _, params, body) =>
      forall i | 0 <= i < |body| ensures IsInner(t, body[i]) && Encloses(t, a, Top(t, body[i])) {
        EnclosesTwice(t, a, f, Top(t, body[i]));
      }
      NodesLieIn(t, a, c, params);
      NodesLieIn(t, a, c, body);
    case ClassNode(_, _, _, _, _, _) =>
      var v := Visits(c);
      forall i | 0 <= i < |v| ensures IsInner(t, v[i]) && Encloses(t, a, Top(t, v[i])) && Fits(t, v[i]) {
        VisitInClass(t, c, i);
      }
      NodesLieIn(t, a, c, v);
  }

  lemma {:induction false} NodesLieIn(t: Skeleton, a: nat, n: Node, ns: seq<Node>)
    requires WellFormed(t) && a < |t| && PartsOf(ns, n)
    requires forall i :: 0 <= i < |ns| ==> IsInner(t, ns[i]) && Encloses(t, a, Top(t, ns[i])) && Fits(t, ns[i])
    ensures AllLieIn(t, a, EntriesAll(n, ns))
    decreases n, |ns|
  {
    if ns != [] {
      EntriesLieIn(t, ns[0]);
      forall x | x in Entries(ns[0]) ensures LiesIn(t, a, x) {
        LiesBelow(t, a, Top(t, ns[0]), x);
      }
      NodesLieIn(t, a, n, ns[1..]);
    }
  }

  // ----- the order

  lemma ApartNodesPrecede(t: Skeleton, c: Node, d: Node)
    requires WellFormed(t) && IsInner(t, c) && IsInner(t, d) && Fits(t, c) && Fits(t, d) && c.scope != d.scope
    requires !Encloses(t, Top(t, c), Holder(t, d)) && !Encloses(t, Top(t, d), Holder(t, c))
    ensures AllPrecede(t, Entries(c), Entries(d))
  {
    NodesApart(t, c, d);
    EntriesLieIn(t, c);
    EntriesLieIn(t, d);
    AllApartPrecede(t, Top(t, c), Top(t, d), Entries(c), Entries(d));
  }

  /** A function may precede what its body holds. */
  lemma FunctionPrecedes(t: Skeleton, f: nat, d: Node)
    requires WellFormed(t) && f < |t| && IsInner(t, d) && Fits(t, d) && Holder(t, d) == f
    ensures AllPrecede(t, [f], Entries(d))
  {
    EntriesLieIn(t, d);
    forall y | y in Entries(d) ensures y < |t| && Precedes(t, f, y) {
      EnclosesTwice(t, f, Top(t, d), ParamScopeOf(t, y));
      EnclosesTwice(t, f, ParamScopeOf(t, y), y);
    }
  }

  /** What a default value holds may precede its function. */
  lemma DefaultPrecedes(t: Skeleton, c: Node, f: nat)
    requires WellFormed(t) && f < |t| && t[f].kind == FUNCTION
    requires IsInner(t, c) && Fits(t, c) && Holder(t, c) == ParamScopeOf(t, f)
    ensures AllPrecede(t, Entries(c), [f])
  {
    EntriesLieIn(t, c);
    forall x | x in Entries(c) ensures x < |t| && Precedes(t, x, f) {
      DefaultFunctionPrecedes(t, c, f, x);
    }
  }

  lemma DefaultFunctionPrecedes(t: Skeleton, c: Node, f: nat, x: nat)
    requires WellFormed(t) && f < |t| && t[f].kind == FUNCTION
    requires IsInner(t, c) && Holder(t, c) == ParamScopeOf(t, f) && LiesIn(t, Top(t, c), x)
    ensures Precedes(t, x, f)
  {
    var a := Top(t, c);
    EnclosesTwice(t, a, ParamScopeOf(t, x), x);
    if InBody(t, f, x) {
      EnclosingAreNested(t, a, f, x);
      if !Encloses(t, a, f) {
        HolderIsNearest(t, f, c);
      }
    }
  }

  lemma {:induction false} NodesInOrder(t: Skeleton, n: Node, ns: seq<Node>)
    requires WellFormed(t) && PartsOf(ns, n)
    requires forall i :: 0 <= i < |ns| ==> IsInner(t, ns[i]) && Fits(t, ns[i])
    requires forall i, j :: 0 <= i < j < |ns| ==> AllPrecede(t, Entries(ns[i]), Entries(ns[j]))
    ensures InOrder(t, EntriesAll(n, ns))
    decreases n, |ns|
  {
    if ns != [] {
      EntriesInOrder(t, ns[0]);
      NodesInOrder(t, n, ns[1..]);
      PrecedesParts(t, Entries(ns[0]), n, ns[1..]);
      JoinedInOrder(t, Entries(ns[0]), EntriesAll(n, ns[1..]));
    }
  }

  lemma JoinedPrecede(t: Skeleton, s: seq<nat>, s': seq<nat>, u: seq<nat>)
    requires WellFormed(t)
    ensures AllPrecede(t, s, u) && AllPrecede(t, s', u) ==> AllPrecede(t, s + s', u)
    ensures AllPrecede(t, u, s) && AllPrecede(t, u, s') ==> AllPrecede(t, u, s + s')
  {
  }

  lemma {:induction false} PartsPrecede(t: Skeleton, n: Node, ns: seq<Node>, s: seq<nat>)
    requires WellFormed(t) && PartsOf(ns, n)
    requires forall i :: 0 <= i < |ns| ==> AllPrecede(t, Entries(ns[i]), s)
    ensures AllPrecede(t, EntriesAll(n, ns), s)
    decreases |ns|
  {
    if ns != [] {
      PartsPrecede(t, n, ns[1..], s);
      JoinedPrecede(t, Entries(ns[0]), EntriesAll(n, ns[1..]), s);
    }
  }

  lemma {:induction false} PrecedesParts(t: Skeleton, s: seq<nat>, n: Node, ns: seq<Node>)
    requires WellFormed(t) && PartsOf(ns, n)
    requires forall i :: 0 <= i < |ns| ==> AllPrecede(t, s, Entries(ns[i]))
    ensures AllPrecede(t, s, EntriesAll(n, ns))
    decreases |ns|
  {
    if ns != [] {
      PrecedesParts(t, s, n, ns[1..]);
      JoinedPrecede(t, Entries(ns[0]), EntriesAll(n, ns[1..]), s);
    }
  }

  /** Siblings in one scope. */
  lemma SiblingsPrecede(t: Skeleton, ns: seq<Node>, h: nat)
    requires WellFormed(t) && h < |t| && HangIn(t, ns, h) && OwnScopes(ns)
    requires forall i :: 0 <= i < |ns| ==> Fits(t, ns[i])
    ensures forall i, j :: 0 <= i < j < |ns| ==> AllPrecede(t, Entries(ns[i]), Entries(ns[j]))
  {
    forall i, j | 0 <= i < j < |ns| ensures AllPrecede(t, Entries(ns[i]), Entries(ns[j])) {
      ApartNodesPrecede(t, ns[i], ns[j]);
    }
  }

  lemma ParamsHang(t: Skeleton, n: Node)
    requires WellFormed(t) && n.FunctionNode? && Fits(t, n) && n.scope > 0
    ensures n.scope < |t| && t[n.scope].kind == FUNCTION
    ensures forall i :: 0 <= i < |n.params| ==>
              IsInner(t, n.params[i]) && Fits(t, n.params[i]) && Holder(t, n.params[i]) == ParamScopeOf(t, n.scope)
  {
  }

  lemma BodyHangs(t: Skeleton, n: Node)
    requires WellFormed(t) && n.FunctionNode? && Fits(t, n)
    ensures n.scope < |t|
    ensures forall i :: 0 <= i < |n.body| ==>
              IsInner(t, n.body[i]) && Fits(t, n.body[i]) && Holder(t, n.body[i]) == n.scope
  {
  }

  lemma ParamsPrecedeBody(t: Skeleton, n: Node)
    requires WellFormed(t) && n.FunctionNode? && Fits(t, n) && n.scope > 0
    ensures AllPrecede(t, EntriesAll(n, n.params), EntriesAll(n, n.body))
  {
    ParamsHang(t, n);
    BodyHangs(t, n);
    forall i | 0 <= i < |n.params| ensures AllPrecede(t, Entries(n.params[i]), EntriesAll(n, n.body)) {
      forall j | 0 <= j < |n.body| ensures AllPrecede(t, Entries(n.params[i]), Entries(n.body[j])) {
        ParamPrecedesBody(t, n, n.params[i], n.body[j]);
      }
      PrecedesParts(t, Entries(n.params[i]), n, n.body);
    }
    PartsPrecede(t, n, n.params, EntriesAll(n, n.body));
  }

  lemma ParamPrecedesBody(t: Skeleton, n: Node, c: Node, d: Node)
    requires WellFormed(t) && n.FunctionNode? && n.scope < |t| && t[n.scope].kind == FUNCTION
    requires IsInner(t, c) && Fits(t, c) && Holder(t, c) == ParamScopeOf(t, n.scope)
    requires IsInner(t, d) && Fits(t, d) && Holder(t, d) == n.scope
    ensures AllPrecede(t, Entries(c), Entries(d))
  {
    ApartNodesPrecede(t, c, d);
  }

  lemma VisitPrecedes(t: Skeleton, n: Node, i: nat, j: nat)
    requires WellFormed(t) && n.ClassNode? && Fits(t, n) && i < j < |Visits(n)|
    ensures AllPrecede(t, Entries(Visits(n)[i]), Entries(Visits(n)[j]))
  {
    var c, d := Visits(n)[i], Visits(n)[j];
    VisitPlaces(t, n, i);
    VisitPlaces(t, n, j);
    VisitInClass(t, n, i);
    VisitInClass(t, n, j);
    var three := [n.staticInit, n.constructorNode, n.instanceInit];
    assert IsInner(t, three[0]) && IsInner(t, three[2]);
    if (c == n.staticInit || c == n.instanceInit) && Holder(t, d) == c.scope {
      FunctionPrecedes(t, c.scope, d);
      assert Entries(c) == if c.listed then [c.scope] else [];
    } else {
      NotAround(t, n, c, d, i, j);
      NotAround(t, n, d, c, j, i);
      ApartNodesPrecede(t, c, d);
    }
  }

  lemma NotAround(t: Skeleton, n: Node, c: Node, d: Node, i: nat, j: nat)
    requires WellFormed(t) && n.ClassNode? && Fits(t, n) && i < |Visits(n)| && j < |Visits(n)| && i != j
    requires c == Visits(n)[i] && d == Visits(n)[j]
    requires IsInner(t, c) && IsInner(t, d) && Holder(t, d) != c.scope
    ensures !Encloses(t, Top(t, c), Holder(t, d))
  {
    VisitPlaces(t, n, j);
    VisitInClass(t, n, i);
    var three := [n.staticInit, n.constructorNode, n.instanceInit];
    NotAroundHolder(t, c, n.scope);
    if Holder(t, d) == n.staticInit.scope {
      assert IsInner(t, three[0]);
      NotAroundSibling(t, c, three[0], n.scope);
    } else if Holder(t, d) == n.instanceInit.scope {
      assert IsInner(t, three[2]);
      NotAroundSibling(t, c, three[2], n.scope);
    }
  }

  /** The list of any program is in order. */
  lemma {:induction false} EntriesInOrder(t: Skeleton, n: Node)
    requires WellFormed(t) && Fits(t, n)
    ensures InOrder(t, Entries(n))
    decreases n
  {
    match n
    case FunctionNode(f, listed, params, body) =>
      if f > 0 {
        SiblingsPrecede(t, params, ParamScopeOf(t, f));
        NodesInOrder(t, n, params);
        FunctionBetween(t, n);
        ParamsPrecedeBody(t, n);
      } else {
        assert WellFormedAt(t, 0);
        assert params == [];
      }
      SiblingsPrecede(t, body, f);
      NodesInOrder(t, n, body);
      BodyInOrder(t, n);
    case ClassNode(_, _, _, _, _, _) =>
      var v := Visits(n);
      forall i | 0 <= i < |v| ensures IsInner(t, v[i]) && Fits(t, v[i]) {
        VisitPlaces(t, n, i);
      }
      forall i, j | 0 <= i < j < |v| ensures AllPrecede(t, Entries(v[i]), Entries(v[j])) {
        VisitPrecedes(t, n, i, j);
      }
      NodesInOrder(t, n, v);
  }

  lemma FunctionBetween(t: Skeleton, n: Node)
    requires WellFormed(t) && n.FunctionNode? && Fits(t, n) && n.scope > 0
    ensures AllPrecede(t, EntriesAll(n, n.params), [n.scope])
  {
    ParamsHang(t, n);
    forall i | 0 <= i < |n.params| ensures AllPrecede(t, Entries(n.params[i]), [n.scope]) {
      DefaultPrecedes(t, n.params[i], n.scope);
    }
    PartsPrecede(t, n, n.params, [n.scope]);
  }

  lemma BodyInOrder(t: Skeleton, n: Node)
    requires WellFormed(t) && n.FunctionNode? && Fits(t, n)
    requires InOrder(t, EntriesAll(n, n.body)) && InOrder(t, EntriesAll(n, n.params))
    requires AllPrecede(t, EntriesAll(n, n.params), [n.scope])
    requires AllPrecede(t, EntriesAll(n, n.params), EntriesAll(n, n.body))
    ensures InOrder(t, Entries(n))
  {
    var front, back := EntriesAll(n, n.params), EntriesAll(n, n.body);
    BodyHangs(t, n);
    forall i | 0 <= i < |n.body| ensures AllPrecede(t, [n.scope], Entries(n.body[i])) {
      FunctionPrecedes(t, n.scope, n.body[i]);
    }
    PrecedesParts(t, [n.scope], n, n.body);
    if n.listed {
      JoinedInOrder(t, [n.scope], back);
      JoinedInOrder(t, front, [n.scope] + back);
    } else {
      assert Entries(n) == front + [] == front;
    }
  }

  /** In the list of any program, the functions in the body of a function come after it, and those in its default values
      before it, at every depth. */
  lemma DefaultsComeFirst(t: Skeleton, n: Node, i: nat, j: nat)
    requires WellFormed(t) && Fits(t, n) && i < |Entries(n)| && j < |Entries(n)|
    ensures var g, f := Entries(n)[i], Entries(n)[j];
      && g < |t| && f < |t|
      && (InBody(t, g, f) ==> i < j) && (InDefault(t, g, f) ==> j < i)
  {
    EntriesInOrder(t, n);
  }

  // ----- which functions are in the list

  /** Every function is listed, but for initializers in which nothing stands. */
  ghost predicate Complete(t: Skeleton, n: Node)
    requires WellFormed(t)
    decreases n
  {
    match n
    case FunctionNode(_, listed, params, body) =>
      && (listed || (params == [] && body == []))
      && (forall i :: 0 <= i < |params| ==> Complete(t, params[i]))
      && (forall i :: 0 <= i < |body| ==> Complete(t, body[i]))
    case ClassNode(_, _, staticInit, _, instanceInit, _) =>
      forall i :: 0 <= i < |Visits(n)| ==>
        var c := Visits(n)[i];
        && c < n && Complete(t, c)
        && (HangIn(t, [c], staticInit.scope) ==> Entries(staticInit) == [staticInit.scope])
        && (HangIn(t, [c], instanceInit.scope) ==> Entries(instanceInit) == [instanceInit.scope])
  }

  /** Function `g` is around `f`, and inside the node. */
  ghost predicate Between(t: Skeleton, n: Node, g: nat, f: nat)
    requires WellFormed(t) && Fits(t, n)
  {
    && g < |t| && t[g].kind == FUNCTION && f < |t| && Encloses(t, ParamScopeOf(t, g), f)
    && (n.scope > 0 ==> Encloses(t, Top(t, n), ParamScopeOf(t, g)))
  }

  /** What lies around a node of `n`, and in `n`, lies around the holder of that node. */
  lemma AroundNode(t: Skeleton, c: Node, g: nat, f: nat)
    requires WellFormed(t) && IsInner(t, c) && Fits(t, c) && f in Entries(c)
    requires g < |t| && t[g].kind == FUNCTION && f < |t| && Encloses(t, ParamScopeOf(t, g), f)
    ensures Encloses(t, Top(t, c), ParamScopeOf(t, g)) || Encloses(t, ParamScopeOf(t, g), Holder(t, c))
  {
    EntriesLieIn(t, c);
    var a, q := Top(t, c), ParamScopeOf(t, g);
    EnclosesTwice(t, a, ParamScopeOf(t, f), f);
    EnclosingAreNested(t, a, q, f);
    if !Encloses(t, a, q) {
      HolderIsNearest(t, q, c);
    }
  }

  lemma {:induction false} AroundParts(t: Skeleton, n: Node, ns: seq<Node>, g: nat, f: nat) returns (i: nat)
    requires WellFormed(t) && PartsOf(ns, n) && f in EntriesAll(n, ns)
    requires forall j :: 0 <= j < |ns| ==> IsInner(t, ns[j]) && Fits(t, ns[j]) && Complete(t, ns[j])
    requires g < |t| && t[g].kind == FUNCTION && f < |t| && Encloses(t, ParamScopeOf(t, g), f)
    ensures i < |ns|
    ensures g in EntriesAll(n, ns) || Encloses(t, ParamScopeOf(t, g), Holder(t, ns[i]))
    decreases n, |ns|
  {
    i := EntriesFrom(n, ns, f);
    AroundNode(t, ns[i], g, f);
    if Encloses(t, Top(t, ns[i]), ParamScopeOf(t, g)) {
      AroundIsListed(t, ns[i], g, f);
      EntriesOfPart(n, ns, i);
    }
  }

  /** The list has every function around a listed one. */
  lemma {:induction false} AroundIsListed(t: Skeleton, n: Node, g: nat, f: nat)
    requires WellFormed(t) && Fits(t, n) && Complete(t, n) && f in Entries(n) && Between(t, n, g, f)
    ensures g in Entries(n)
    decreases n
  {
    assert WellFormedAt(t, 0);
    match n
    case FunctionNode(h, listed, params, body) =>
      if f in EntriesAll(n, params) {
        ParamsHang(t, n);
        var i := AroundParts(t, n, params, g, f);
      } else if f != h {
        BodyHangs(t, n);
        var i := AroundParts(t, n, body, g, f);
      }
    case ClassNode(_, _, _, _, _, _) =>
      VisitsInClass(t, n);
      var i := AroundParts(t, n, Visits(n), g, f);
      if g !in EntriesAll(n, Visits(n)) {
        InitializerIsListed(t, n, i, g);
      }
  }

  lemma VisitsInClass(t: Skeleton, n: Node)
    requires WellFormed(t) && n.ClassNode? && Fits(t, n)
    ensures PartsOf(Visits(n), n) && n.scope > 0 && Top(t, n) == n.scope
    ensures forall i :: 0 <= i < |Visits(n)| ==> IsInner(t, Visits(n)[i]) && Fits(t, Visits(n)[i])
  {
    assert WellFormedAt(t, 0);
    forall i | 0 <= i < |Visits(n)| ensures IsInner(t, Visits(n)[i]) && Fits(t, Visits(n)[i]) {
      VisitInClass(t, n, i);
    }
  }

  lemma InitializerIsListed(t: Skeleton, n: Node, j: nat, g: nat)
    requires WellFormed(t) && n.ClassNode? && Fits(t, n) && Complete(t, n) && j < |Visits(n)|
    requires g < |t| && t[g].kind == FUNCTION && Encloses(t, n.scope, ParamScopeOf(t, g))
    requires IsInner(t, Visits(n)[j]) && Encloses(t, ParamScopeOf(t, g), Holder(t, Visits(n)[j]))
    ensures g in Entries(n)
  {
    VisitPlaces(t, n, j);
    var c, three := Visits(n)[j], [n.staticInit, n.constructorNode, n.instanceInit];
    HeldInitializerIsListed(t, n, j);
    if Holder(t, c) == n.staticInit.scope {
      HangsIn(t, three, n.scope, three[0]);
      AroundInitializer(t, n.staticInit, n.scope, g);
      EntriesOfPart(n, Visits(n), |n.heritage|);
    } else if Holder(t, c) == n.instanceInit.scope {
      HangsIn(t, three, n.scope, three[2]);
      AroundInitializer(t, n.instanceInit, n.scope, g);
      EntriesOfPart(n, Visits(n), |n.heritage| + 2 + |ElementVisits(n.elements, true)|);
    }
  }

  lemma HeldInitializerIsListed(t: Skeleton, n: Node, j: nat)
    requires WellFormed(t) && n.ClassNode? && Complete(t, n) && j < |Visits(n)| && IsInner(t, Visits(n)[j])
    ensures var h := Holder(t, Visits(n)[j]);
      && (h == n.staticInit.scope ==> h in Entries(n.staticInit))
      && (h == n.instanceInit.scope ==> h in Entries(n.instanceInit))
  {
    assert forall h :: Holder(t, Visits(n)[j]) == h ==> HangIn(t, [Visits(n)[j]], h);
  }

  lemma AroundInitializer(t: Skeleton, c: Node, s: nat, g: nat)
    requires WellFormed(t) && IsInner(t, c) && c.FunctionNode? && Holder(t, c) == s
    requires g < |t| && t[g].kind == FUNCTION && Encloses(t, ParamScopeOf(t, g), c.scope)
    requires t[s].kind == CLASS && Encloses(t, s, ParamScopeOf(t, g))
    ensures g == c.scope
  {
    var q := ParamScopeOf(t, g);
    if q != Top(t, c) {
      HolderIsNearest(t, q, c);
    }
  }
}
