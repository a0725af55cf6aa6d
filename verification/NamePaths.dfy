/** What a name is made of: one segment for each class and function around a scope, outermost first, by the tree. */
module NamePaths {
  import opened Options
  import opened ScopeTree
  import opened Strings
  import opened ScopeNames
  import opened ScopeNameTheory
  import opened NameInjectivity

  // ----- which scope a name is derived from

  /** Class or function `g` is around scope `i`; a function from its parameter scope on, default values included. */
  predicate Around(t: Skeleton, g: nat, i: nat)
    requires WellFormed(t) && i < |t|
  {
    g < |t| && (t[g].kind == CLASS || t[g].kind == FUNCTION) && Encloses(t, Rank(t, g), i)
  }

  /** Of the classes and functions around `i`, `h` is the innermost; the top scope when there is none. */
  ghost predicate InnermostAround(t: Skeleton, i: nat, h: nat)
    requires WellFormed(t) && i < |t|
  {
    if exists g :: Around(t, g, i) then
      Around(t, h, i) && forall g :: Around(t, g, i) ==> Encloses(t, Rank(t, g), Rank(t, h))
    else h == 0
  }

  lemma SameRank(t: Skeleton, g: nat, h: nat)
    requires WellFormed(t) && g < |t| && h < |t| && Rank(t, g) == Rank(t, h)
    requires (t[g].kind == CLASS || t[g].kind == FUNCTION) && (t[h].kind == CLASS || t[h].kind == FUNCTION)
    ensures g == h
  {
    if t[g].kind == FUNCTION {
      assert FunctionOf(t, Rank(t, g)) == g;
    }
    if t[h].kind == FUNCTION {
      assert FunctionOf(t, Rank(t, h)) == h;
    }
  }

  lemma InnermostAroundIsOne(t: Skeleton, i: nat, h: nat, h': nat)
    requires WellFormed(t) && i < |t| && InnermostAround(t, i, h) && InnermostAround(t, i, h')
    ensures h == h'
  {
    if exists g :: Around(t, g, i) {
      assert Encloses(t, Rank(t, h), Rank(t, h')) && Encloses(t, Rank(t, h'), Rank(t, h));
      SameRank(t, h, h');
    }
  }

  lemma {:induction false} HostIsInnermost(t: Skeleton, i: nat)
    requires WellFormed(t) && i < |t|
    ensures InnermostAround(t, i, Host(t, i))
    decreases i
  {
    assert WellFormedAt(t, i) && WellFormedAt(t, 0);
    if i == 0 {
      forall g: nat ensures !Around(t, g, 0) {
        NoneAroundTop(t, g);
      }
    } else if IsNamed(t, i) || t[i].kind == FUNCTION_PARAM {
      HostAtMark(t, i);
    } else {
      HostIsInnermost(t, Parent(t, i));
      forall g: nat ensures Around(t, g, i) <==> Around(t, g, Parent(t, i)) {
        AroundParent(t, g, i);
      }
    }
  }

  lemma NoneAroundTop(t: Skeleton, g: nat)
    requires WellFormed(t)
    ensures !Around(t, g, 0)
  {
    assert WellFormedAt(t, 0);
  }

  lemma AroundParent(t: Skeleton, g: nat, i: nat)
    requires WellFormed(t) && 0 < i < |t| && !IsNamed(t, i) && t[i].kind != FUNCTION_PARAM
    ensures Around(t, g, i) <==> Around(t, g, Parent(t, i))
  {
    if g < |t| && t[g].kind == FUNCTION {
      assert t[Rank(t, g)].kind == FUNCTION_PARAM;
    }
  }

  lemma HostAtMark(t: Skeleton, i: nat)
    requires WellFormed(t) && 0 < i < |t| && (IsNamed(t, i) || t[i].kind == FUNCTION_PARAM)
    ensures InnermostAround(t, i, Host(t, i))
  {
    assert WellFormedAt(t, i) && WellFormedAt(t, 0);
    var h := Host(t, i);
    if t[i].kind == FUNCTION {
      assert Rank(t, i) == Parent(t, i) && Encloses(t, Rank(t, i), i);
    }
    assert Around(t, h, i);
    forall g: nat | Around(t, g, i) ensures Encloses(t, Rank(t, g), Rank(t, h)) {
      if t[i].kind == FUNCTION {
        assert Rank(t, g) != i;
      }
    }
  }

  /** The named parent of a class or function is the innermost class or function around the scopes that it brings. */
  lemma NamedParentIsInnermost(t: Skeleton, s: nat, h: nat)
    requires WellFormed(t) && 0 < s < |t| && IsNamed(t, s)
    ensures Rank(t, s) > 0
    ensures h == NamedParent(t, s) <==> InnermostAround(t, Parent(t, Rank(t, s)), h)
  {
    assert WellFormedAt(t, s) && WellFormedAt(t, 0) && WellFormedAt(t, Rank(t, s));
    HostIsInnermost(t, Parent(t, Rank(t, s)));
    if InnermostAround(t, Parent(t, Rank(t, s)), h) {
      InnermostAroundIsOne(t, Parent(t, Rank(t, s)), h, NamedParent(t, s));
    }
  }

  // ----- the way from the outside in

  /** Scope `s` and the named parents of it, outermost first. */
  function Path(t: Skeleton, s: nat): (path: seq<nat>)
    requires WellFormed(t) && s < |t| && (s == 0 || IsNamed(t, s))
    ensures forall k :: 0 <= k < |path| ==> path[k] < |t| && IsNamed(t, path[k])
    decreases Rank(t, s)
  {
    if s == 0 then [] else
      assert WellFormedAt(t, 0);
      Path(t, NamedParent(t, s)) + [s]
  }

  /** On the way to `s` are exactly the classes and functions around the scopes that it brings, itself included. */
  lemma {:induction false} PathIsAround(t: Skeleton, s: nat, x: nat)
    requires WellFormed(t) && 0 < s < |t| && IsNamed(t, s)
    ensures x in Path(t, s) <==> Around(t, x, Rank(t, s))
    decreases Rank(t, s)
  {
    assert WellFormedAt(t, 0) && WellFormedAt(t, s);
    var h := NamedParent(t, s);
    NamedParentIsInnermost(t, s, h);
    AroundFromParent(t, s, x);
    if h != 0 {
      PathIsAround(t, h, x);
      if Around(t, x, Rank(t, h)) {
        EnclosesTwice(t, Rank(t, x), Rank(t, h), Parent(t, Rank(t, s)));
      }
    }
  }

  lemma AroundFromParent(t: Skeleton, s: nat, x: nat)
    requires WellFormed(t) && 0 < s < |t| && IsNamed(t, s) && Rank(t, s) > 0
    ensures Around(t, x, Rank(t, s)) <==> x == s || Around(t, x, Parent(t, Rank(t, s)))
  {
    if Around(t, x, Rank(t, s)) && Rank(t, x) == Rank(t, s) {
      SameRank(t, x, s);
    }
  }

  /** Each step of the way goes further in. */
  lemma {:induction false} PathGoesInwards(t: Skeleton, s: nat, i: nat, j: nat)
    requires WellFormed(t) && s < |t| && (s == 0 || IsNamed(t, s)) && i < j < |Path(t, s)|
    ensures Path(t, s)[i] != Path(t, s)[j] && Encloses(t, Rank(t, Path(t, s)[i]), Rank(t, Path(t, s)[j]))
    decreases Rank(t, s)
  {
    assert WellFormedAt(t, 0);
    var h := NamedParent(t, s);
    if j < |Path(t, h)| {
      PathGoesInwards(t, h, i, j);
    } else {
      var x := Path(t, s)[i];
      assert x == Path(t, h)[i] && x in Path(t, h) && h != 0;
      PathIsAround(t, h, x);
      NamedParentIsInnermost(t, s, h);
      EnclosesTwice(t, Rank(t, x), Rank(t, h), Parent(t, Rank(t, s)));
    }
  }

  // ----- names

  /** How an own name is written, given the table of long names. */
  function Written(table: map<string, nat>, name: string): string {
    if name in table then "@" + Hex(table[name]) else name
  }

  /** One class or function in a full name: its tag, its written own name, and its index among namesakes. */
  function Segment(p: Program, n: Names, x: nat): string
    requires Shaped(p, n) && x < |p.t|
  {
    [p.tags[x]] + Written(n.table, OwnName(p.nodeNames[x])) + IndexOf(n.dup[x])
  }

  /** The name of the node, unless it holds a dot or a backslash. */
  function OwnName(nodeName: string): string {
    if (exists k :: 0 <= k < |nodeName| && (nodeName[k] == '.' || nodeName[k] == '\\')) then "" else nodeName
  }

  function IndexOf(dup: nat): string {
    if dup == 0 then "" else "^" + Hex(dup)
  }

  function Segments(p: Program, n: Names, path: seq<nat>): string
    requires Shaped(p, n) && forall k :: 0 <= k < |path| ==> path[k] < |p.t|
  {
    if path == [] then "" else Segments(p, n, path[..|path| - 1]) + Segment(p, n, path[|path| - 1])
  }

  /** A full name is one segment for each class and function around the scope, from the outside in. */
  lemma {:induction false} FullNameIsPath(p: Program, n: Names, s: nat)
    requires Ok(p, n) && s < |p.t| && (s == 0 || IsNamed(p.t, s)) && Known(p, n, s)
    ensures FullOf(p, n, s) == Segments(p, n, Path(p.t, s))
    decreases Rank(p.t, s)
  {
    if s != 0 {
      assert FullAt(p, n, s);
      FullNameIsPath(p, n, NamedParent(p.t, s));
      FullStep(p, n, s);
      PathStep(p, n, s);
    }
  }

  lemma FullStep(p: Program, n: Names, s: nat)
    requires Ok(p, n) && 0 < s < |p.t| && IsNamed(p.t, s) && Known(p, n, s)
    ensures FullOf(p, n, s) == FullOf(p, n, NamedParent(p.t, s)) + Segment(p, n, s)
  {
    assert FullAt(p, n, s) && SelfAt(p, n, s);
    SegmentIs(p, n, s);
    LastPart(FullOf(p, n, NamedParent(p.t, s)), [p.tags[s]], Code(n.table, n.self[s].value), Suffix(n.dup[s]));
  }

  lemma PathStep(p: Program, n: Names, s: nat)
    requires Shaped(p, n) && 0 < s < |p.t| && IsNamed(p.t, s)
    ensures Segments(p, n, Path(p.t, s)) == Segments(p, n, Path(p.t, NamedParent(p.t, s))) + Segment(p, n, s)
  {
    assert WellFormedAt(p.t, 0);
    assert Path(p.t, s)[..|Path(p.t, s)| - 1] == Path(p.t, NamedParent(p.t, s));
  }

  lemma LastPart(a: string, b: string, c: string, d: string)
    ensures a + b + c + d == a + (b + c + d)
  {
  }

  lemma SixParts(a: string, b: string, c: string, d: string, e: string, f: string, g: string)
    ensures a + (b + (c + d + (e + (f + g)))) == a + b + c + d + e + f + g
  {
    assert c + d + (e + (f + g)) == c + d + e + f + g;
    assert b + (c + d + e + f + g) == b + c + d + e + f + g;
  }

  lemma SegmentIs(p: Program, n: Names, s: nat)
    requires Shaped(p, n) && s < |p.t| && SelfAt(p, n, s) && n.self[s].Some?
    ensures Segment(p, n, s) == [p.tags[s]] + Code(n.table, n.self[s].value) + Suffix(n.dup[s])
  {
  }

  /** A function's internal name: the record, `#`, the full name of the parent, the tag, `#`, the own name in full and
      its index among namesakes; the top level's is a fixed name behind the record. */
  lemma InternalNameIs(p: Program, n: Names, f: nat)
    requires Ok(p, n) && f < |p.t| && n.internal[f].Some?
    ensures f == 0 ==> n.internal[f].value == p.record + "func_main_0"
    ensures f != 0 ==>
      && IsNamed(p.t, f)
      && n.internal[f].value ==
         p.record + "#" + Segments(p, n, Path(p.t, NamedParent(p.t, f))) + [p.tags[f]] + "#"
         + OwnName(p.nodeNames[f]) + IndexOf(n.dup[f])
  {
    assert InternalAt(p, n, f) && SelfAt(p, n, f);
    if f != 0 {
      var h := NamedParent(p.t, f);
      FullNameIsPath(p, n, h);
      SixParts(p.record, "#", FullOf(p, n, h), [p.tags[f]], "#", n.self[f].value, Suffix(n.dup[f]));
    }
  }

  /** After any run every name that was given is of this form. */
  lemma RunNamesArePaths(p: Program, es: seq<Event>, f: nat)
    requires ProgramOk(p) && (forall k :: 0 <= k < |es| ==> EventOk(p, es[k])) && 0 < f < |p.t|
    requires Run(p, es).internal[f].Some?
    ensures var n := Run(p, es);
      && IsNamed(p.t, f)
      && n.internal[f].value ==
         p.record + "#" + Segments(p, n, Path(p.t, NamedParent(p.t, f))) + [p.tags[f]] + "#"
         + OwnName(p.nodeNames[f]) + IndexOf(n.dup[f])
  {
    RunKeepsOk(p, es);
    InternalNameIs(p, Run(p, es), f);
  }

  // ----- indices among namesakes

  /** `x` and `s` have one named parent, one tag and one own name, and both own names are fixed. */
  predicate Namesakes(p: Program, n: Names, s: nat, x: nat)
    requires Shaped(p, n) && s < |p.t| && x < |p.t|
  {
    && IsNamed(p.t, s) && IsNamed(p.t, x) && n.self[s].Some? && n.self[x].Some?
    && NamedParent(p.t, s) == NamedParent(p.t, x)
    && p.tags[s] == p.tags[x] && OwnName(p.nodeNames[s]) == OwnName(p.nodeNames[x])
  }

  /** Children are counted by tag and own name together. */
  lemma KeyIs(p: Program, s: nat, x: nat)
    requires ProgramOk(p) && s < |p.t| && x < |p.t|
    ensures Key(p, s) == Key(p, x) <==> p.tags[s] == p.tags[x] && OwnName(p.nodeNames[s]) == OwnName(p.nodeNames[x])
  {
    assert Key(p, s)[0] == p.tags[s] && Key(p, x)[0] == p.tags[x];
    assert Key(p, s)[1..] == OwnName(p.nodeNames[s]) && Key(p, x)[1..] == OwnName(p.nodeNames[x]);
  }

  /** A namesake has each smaller index. */
  ghost predicate DenseAt(p: Program, n: Names, s: nat)
    requires Shaped(p, n) && s < |p.t|
  {
    n.self[s].Some? ==> forall d :: 0 <= d < n.dup[s] ==> HasIndex(p, n, s, d)
  }

  ghost predicate HasIndex(p: Program, n: Names, s: nat, d: nat)
    requires Shaped(p, n) && s < |p.t|
  {
    exists x :: 0 <= x < |p.t| && Namesakes(p, n, s, x) && n.dup[x] == d
  }

  /** The counter of a key is the index of its last namesake. */
  ghost predicate CounterAt(p: Program, n: Names, h: nat, key: string)
    requires Shaped(p, n) && h < |p.t|
  {
    key in n.counters[h] ==> exists s :: 0 <= s < |p.t| && IsLast(p, n, h, key, s)
  }

  predicate IsLast(p: Program, n: Names, h: nat, key: string, s: nat)
    requires Shaped(p, n) && h < |p.t| && key in n.counters[h] && s < |p.t|
  {
    && IsNamed(p.t, s) && n.self[s].Some? && NamedParent(p.t, s) == h && Key(p, s) == key
    && n.dup[s] == n.counters[h][key]
  }

  ghost predicate Dense(p: Program, n: Names) {
    && Shaped(p, n)
    && (forall s :: 0 <= s < |p.t| ==> DenseAt(p, n, s))
    && (forall h, key :: 0 <= h < |p.t| ==> CounterAt(p, n, h, key))
  }

  lemma SetSelfKeepsDense(p: Program, n: Names, s: nat)
    requires Dense(p, n) && s < |p.t| && IsNamed(p.t, s)
    ensures Dense(p, SetSelfScopeName(p, n, s))
  {
    var n' := SetSelfScopeName(p, n, s);
    if n.self[s] == None {
      forall x | 0 <= x < |p.t| ensures DenseAt(p, n', x) {
        assert DenseAt(p, n, x);
        if x == s {
          NewIsDense(p, n, s);
        } else if n.self[x].Some? {
          forall d | 0 <= d < n'.dup[x] ensures HasIndex(p, n', x, d) {
            IndexStays(p, n, s, x, d);
          }
        }
      }
      forall h, key | 0 <= h < |p.t| ensures CounterAt(p, n', h, key) {
        CounterStays(p, n, s, h, key);
      }
    }
  }

  lemma IndexStays(p: Program, n: Names, s: nat, x: nat, d: nat)
    requires Shaped(p, n) && s < |p.t| && IsNamed(p.t, s) && n.self[s] == None
    requires x < |p.t| && x != s && HasIndex(p, n, x, d)
    ensures HasIndex(p, SetSelfScopeName(p, n, s), x, d)
  {
    var y :| 0 <= y < |p.t| && Namesakes(p, n, x, y) && n.dup[y] == d;
    assert Namesakes(p, SetSelfScopeName(p, n, s), x, y);
  }

  lemma NewIsDense(p: Program, n: Names, s: nat)
    requires Dense(p, n) && s < |p.t| && IsNamed(p.t, s) && n.self[s] == None
    ensures DenseAt(p, SetSelfScopeName(p, n, s), s)
  {
    var n', h, key := SetSelfScopeName(p, n, s), NamedParent(p.t, s), Key(p, s);
    assert CounterAt(p, n, h, key);
    if key in n.counters[h] {
      var l :| 0 <= l < |p.t| && IsLast(p, n, h, key, l);
      KeyIs(p, s, l);
      assert DenseAt(p, n, l) && Namesakes(p, n', s, l);
      forall d | 0 <= d < n'.dup[s] ensures HasIndex(p, n', s, d) {
        if d < n.dup[l] {
          assert HasIndex(p, n, l, d);
          var y :| 0 <= y < |p.t| && Namesakes(p, n, l, y) && n.dup[y] == d;
          assert Namesakes(p, n', s, y) && n'.dup[y] == d;
        } else {
          assert n'.dup[l] == d;
        }
      }
    }
  }

  lemma CounterStays(p: Program, n: Names, s: nat, h: nat, key: string)
    requires Dense(p, n) && s < |p.t| && IsNamed(p.t, s) && n.self[s] == None && h < |p.t|
    ensures CounterAt(p, SetSelfScopeName(p, n, s), h, key)
  {
    var n' := SetSelfScopeName(p, n, s);
    assert CounterAt(p, n, h, key);
    if key in n'.counters[h] {
      if h == NamedParent(p.t, s) && key == Key(p, s) {
        assert IsLast(p, n', h, key, s);
      } else {
        var l :| 0 <= l < |p.t| && IsLast(p, n, h, key, l);
        assert IsLast(p, n', h, key, l);
      }
    }
  }

  lemma SameOwnIsDense(p: Program, n: Names, n': Names)
    requires Dense(p, n) && Shaped(p, n') && n'.self == n.self && n'.dup == n.dup && n'.counters == n.counters
    ensures Dense(p, n')
  {
    forall s | 0 <= s < |p.t| ensures DenseAt(p, n', s) {
      assert DenseAt(p, n, s);
      forall d | n'.self[s].Some? && 0 <= d < n'.dup[s] ensures HasIndex(p, n', s, d) {
        assert HasIndex(p, n, s, d);
        var x :| 0 <= x < |p.t| && Namesakes(p, n, s, x) && n.dup[x] == d;
        assert Namesakes(p, n', s, x);
      }
    }
    forall h, key | 0 <= h < |p.t| ensures CounterAt(p, n', h, key) {
      assert CounterAt(p, n, h, key);
      if key in n'.counters[h] {
        var l :| 0 <= l < |p.t| && IsLast(p, n, h, key, l);
        assert IsLast(p, n', h, key, l);
      }
    }
  }

  lemma {:induction false} SetFullKeepsDense(p: Program, n: Names, s: nat)
    requires Dense(p, n) && s < |p.t| && (s == 0 || IsNamed(p.t, s))
    ensures Dense(p, SetFullScopeNames(p, n, s))
    decreases Rank(p.t, s)
  {
    if s != 0 && n.full[s] == None {
      var n1 := SetSelfScopeName(p, n, s);
      SetSelfKeepsDense(p, n, s);
      var n2 := n1.(table := AddToTable(n1.table, n1.self[s].value));
      SameOwnIsDense(p, n1, n2);
      SetFullKeepsDense(p, n2, NamedParent(p.t, s));
      SameOwnIsDense(p, SetFullScopeNames(p, n2, NamedParent(p.t, s)), SetFullScopeNames(p, n, s));
    }
  }

  lemma BindKeepsDense(p: Program, n: Names, f: nat)
    requires Dense(p, n) && f < |p.t| && (f == 0 || IsFunctionScope(p, f))
    ensures Dense(p, BindFunction(p, n, f))
  {
    if n.internal[f] == None {
      var n2 := n;
      if f != 0 {
        SetSelfKeepsDense(p, n, f);
        SetFullKeepsDense(p, SetSelfScopeName(p, n, f), NamedParent(p.t, f));
        n2 := SetFullScopeNames(p, SetSelfScopeName(p, n, f), NamedParent(p.t, f));
      }
      SameOwnIsDense(p, n2, BindFunction(p, n, f));
    }
  }

  /** Over any run the indices of namesakes are zero, one, two and so on, without gaps and without repeats. */
  lemma {:induction false} IndicesAreDense(p: Program, es: seq<Event>)
    requires ProgramOk(p) && forall k :: 0 <= k < |es| ==> EventOk(p, es[k])
    ensures Dense(p, Run(p, es))
    decreases |es|
  {
    if es != [] {
      var before, e := es[..|es| - 1], es[|es| - 1];
      IndicesAreDense(p, before);
      assert EventOk(p, e);
      if e.Bind? {
        BindKeepsDense(p, Run(p, before), e.scope);
      } else {
        SetFullKeepsDense(p, Run(p, before), e.scope);
      }
    }
  }

  // ----- an example

  /** `class C { m() {} }` in record `r`. */
  function MethodOfClass(): Program {
    Program([ScopeNode(GLOBAL, None, None), ScopeNode(CLASS, Some(0), None),
             ScopeNode(FUNCTION_PARAM, Some(1), Some(3)), ScopeNode(FUNCTION, Some(2), None)],
            ['*', '~', '>', '>'], ["", "C", "", "m"], "r")
  }

  lemma MethodOfClassOk()
    ensures var p := MethodOfClass(); ProgramOk(p) && NamedParent(p.t, 3) == 1 && NamedParent(p.t, 1) == 0
  {
    var p := MethodOfClass();
    forall i | 0 <= i < |p.t| ensures WellFormedAt(p.t, i) {
    }
    assert WellFormed(p.t);
    assert Host(p.t, 0) == 0 && Host(p.t, 1) == 1;
  }

  lemma MethodOfClassBound()
    ensures var p := MethodOfClass();
      && ProgramOk(p) && Ok(p, Initial(p))
      && var n := BindFunction(p, Initial(p), 3);
      && n.table == map[] && n.dup[1] == 0 && n.dup[3] == 0
  {
    var p := MethodOfClass();
    MethodOfClassOk();
    InitialOk(p);
    var n1 := SetSelfScopeName(p, Initial(p), 3);
    assert n1.dup[3] == 0 && n1.counters[0] == map[];
    assert |IndexName(0)| == 2 && AddToTable(map[], "C") == map[];
    var n2 := SetSelfScopeName(p, n1, 1);
    assert n2.dup[1] == 0 && n2.dup[3] == 0;
    assert SetFullScopeNames(p, n2.(table := map[]), 0) == n2.(table := map[]);
  }

  lemma MethodOfClassPath(n: Names)
    requires Shaped(MethodOfClass(), n) && n.table == map[] && n.dup[1] == 0
    ensures WellFormed(MethodOfClass().t) && NamedParent(MethodOfClass().t, 3) == 1
    ensures Segments(MethodOfClass(), n, Path(MethodOfClass().t, 1)) == "~C"
  {
    var p := MethodOfClass();
    MethodOfClassOk();
    assert Path(p.t, 0) == [];
    assert Path(p.t, 1) == [1] && [1][..0] == [];
    assert Segment(p, n, 1) == "~C";
  }

  lemma MethodIsNamedByClass()
    ensures ProgramOk(MethodOfClass())
    ensures BindFunction(MethodOfClass(), Initial(MethodOfClass()), 3).internal[3] == Some("r#~C>#m")
  {
    var p := MethodOfClass();
    MethodOfClassBound();
    BindKeepsOk(p, Initial(p), 3);
    var n := BindFunction(p, Initial(p), 3);
    InternalNameIs(p, n, 3);
    MethodOfClassPath(n);
    MethodText();
  }

  lemma MethodText()
    ensures var p := MethodOfClass();
      p.record + "#" + "~C" + [p.tags[3]] + "#" + OwnName(p.nodeNames[3]) + IndexOf(0) == "r#~C>#m"
  {
    assert OwnName("m") == "m";
  }

  // ----- the table of long names

  lemma {:induction false} TableStays(p: Program, n: Names, s: nat, name: string)
    requires Shaped(p, n) && s < |p.t| && (s == 0 || IsNamed(p.t, s)) && name in n.table
    ensures var n' := SetFullScopeNames(p, n, s); name in n'.table && n'.table[name] == n.table[name]
    decreases Rank(p.t, s)
  {
    if s != 0 && n.full[s] == None {
      var n1 := SetSelfScopeName(p, n, s);
      TableStays(p, n1.(table := AddToTable(n1.table, n1.self[s].value)), NamedParent(p.t, s), name);
    }
  }

  /** A new own name that is longer than its index takes the next number before those of the scopes around it. */
  lemma OwnNameComesFirst(p: Program, n: Names, s: nat)
    requires Ok(p, n) && 0 < s < |p.t| && IsNamed(p.t, s) && n.full[s] == None
    requires OwnName(p.nodeNames[s]) !in n.table
    requires |OwnName(p.nodeNames[s])| > 1 + |Hex(|n.table|)|
    ensures var table := SetFullScopeNames(p, n, s).table;
      OwnName(p.nodeNames[s]) in table && table[OwnName(p.nodeNames[s])] == |n.table|
  {
    assert SelfAt(p, n, s);
    var n1 := SetSelfScopeName(p, n, s);
    var n2 := n1.(table := AddToTable(n1.table, n1.self[s].value));
    TableStays(p, n2, NamedParent(p.t, s), OwnName(p.nodeNames[s]));
  }
}
