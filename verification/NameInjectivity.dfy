/** Unique decodability of scope names, and the names of whole programs. */
module NameInjectivity {
  import opened Options
  import opened ScopeTree
  import opened Strings
  import opened ScopeNames
  import opened ScopeNameTheory

  lemma SuffixInjective(a: nat, b: nat)
    requires Suffix(a) == Suffix(b)
    ensures a == b
  {
    if a > 0 && b > 0 {
      assert Suffix(a)[1..] == Hex(a) && Suffix(b)[1..] == Hex(b);
      HexInjective(a, b);
    }
  }

  lemma HexHasNoMarks(k: nat)
    ensures forall c :: c in Hex(k) ==> c !in MARKS
  {
    forall c | c in Hex(k) ensures c !in MARKS {
      assert c in HEX_DIGITS;
      DigitIsNoMark(c);
    }
  }

  lemma DigitIsNoMark(c: char)
    requires c in HEX_DIGITS
    ensures c !in MARKS
  {
  }

  /** What follows the tag of a scope holds no tag, no `#`, and `^` only in front of the index. */
  lemma CodeHasNoMarks(table: map<string, nat>, self: string, dup: nat)
    requires Clean(self)
    ensures DUPLICATED_SEPARATOR !in Code(table, self)
    ensures forall c :: c in Code(table, self) + Suffix(dup) ==> c !in TAGS && c != FUNC_NAME_SEPARATOR
  {
    if self in table {
      HexHasNoMarks(table[self]);
    }
    HexHasNoMarks(dup);
  }

  /** The own part of a name decodes to the own name and the duplicate index. */
  lemma OwnPartDecodes(table: map<string, nat>, x: string, a: nat, y: string, b: nat)
    requires TableOk(table) && Clean(x) && Clean(y)
    requires Code(table, x) + Suffix(a) == Code(table, y) + Suffix(b)
    ensures x == y && a == b
  {
    CodeHasNoMarks(table, x, a);
    CodeHasNoMarks(table, y, b);
    SplitAtFirst(Code(table, x), Suffix(a), Code(table, y), Suffix(b), DUPLICATED_SEPARATOR);
    CodeIsInjective(table, x, y);
    SuffixInjective(a, b);
  }

  lemma {:induction false} FullHasNoSeparator(p: Program, n: Names, h: nat)
    requires Ok(p, n) && CleanProgram(p) && h < |p.t| && Known(p, n, h)
    ensures FUNC_NAME_SEPARATOR !in FullOf(p, n, h)
    decreases if h != 0 && IsNamed(p.t, h) then Rank(p.t, h) + 1 else 0
  {
    if h != 0 {
      assert FullAt(p, n, h) && SelfAt(p, n, h);
      FullHasNoSeparator(p, n, NamedParent(p.t, h));
      CodeHasNoMarks(n.table, n.self[h].value, n.dup[h]);
    }
  }

  /** A full name decodes: the last tag cuts off the own part, the rest is the parent's full name. */
  lemma FullNameDecodes(p: Program, n: Names, s: nat, s': nat)
    requires Ok(p, n) && CleanProgram(p) && 0 < s < |p.t| && 0 < s' < |p.t| && Known(p, n, s) && Known(p, n, s')
    requires FullOf(p, n, s) == FullOf(p, n, s')
    ensures IsNamed(p.t, s) && IsNamed(p.t, s') && n.self[s].Some? && n.self[s'].Some?
    ensures Known(p, n, NamedParent(p.t, s)) && Known(p, n, NamedParent(p.t, s'))
    ensures FullOf(p, n, NamedParent(p.t, s)) == FullOf(p, n, NamedParent(p.t, s'))
    ensures Key(p, s) == Key(p, s') && n.dup[s] == n.dup[s']
  {
    assert FullAt(p, n, s) && FullAt(p, n, s') && SelfAt(p, n, s) && SelfAt(p, n, s');
    FullStringDecodes(n.table, FullOf(p, n, NamedParent(p.t, s)), p.tags[s], n.self[s].value, n.dup[s],
                      FullOf(p, n, NamedParent(p.t, s')), p.tags[s'], n.self[s'].value, n.dup[s']);
  }

  lemma FullStringDecodes(table: map<string, nat>, f: string, tag: char, x: string, a: nat,
                          f': string, tag': char, x': string, a': nat)
    requires TableOk(table) && Clean(x) && Clean(x') && tag in TAGS && tag' in TAGS
    requires f + [tag] + Code(table, x) + Suffix(a) == f' + [tag'] + Code(table, x') + Suffix(a')
    ensures f == f' && tag == tag' && x == x' && a == a'
  {
    CodeHasNoMarks(table, x, a);
    CodeHasNoMarks(table, x', a');
    var own, own' := Code(table, x) + Suffix(a), Code(table, x') + Suffix(a');
    Associate(f + [tag], Code(table, x), Suffix(a));
    Associate(f' + [tag'], Code(table, x'), Suffix(a'));
    SplitAtLast(f, tag, own, f', tag', own', TAGS);
    OwnPartDecodes(table, x, a, x', a');
  }

  lemma Associate(a: string, b: string, c: string)
    ensures a + b + c == a + (b + c)
  {
  }

  /** Full names tell scopes apart. */
  lemma {:induction false} FullNamesDiffer(p: Program, n: Names, s: nat, s': nat)
    requires Ok(p, n) && CleanProgram(p) && s < |p.t| && s' < |p.t| && Known(p, n, s) && Known(p, n, s')
    requires FullOf(p, n, s) == FullOf(p, n, s')
    ensures s == s'
    decreases if s != 0 && IsNamed(p.t, s) then Rank(p.t, s) + 1 else 0
  {
    if s != 0 && s' != 0 {
      FullNameDecodes(p, n, s, s');
      FullNamesDiffer(p, n, NamedParent(p.t, s), NamedParent(p.t, s'));
      assert SiblingsDiffer(p, n, s, s');
    } else {
      assert FullAt(p, n, s) && FullAt(p, n, s');
    }
  }

  /** One internal name decodes to the parent, the tag, the own name and the duplicate index. */
  lemma InternalNameDecodes(p: Program, f: string, tag: char, x: string, a: nat, f': string, tag': char, x': string,
                            a': nat)
    requires FUNC_NAME_SEPARATOR !in f && FUNC_NAME_SEPARATOR !in f' && tag in TAGS && tag' in TAGS && Clean(x)
             && Clean(x')
    requires InternalName(p, f, tag, x, a) == InternalName(p, f', tag', x', a')
    ensures f == f' && tag == tag' && x == x' && a == a'
  {
    var sep := [FUNC_NAME_SEPARATOR];
    var rest, rest' := f + [tag] + (sep + (x + Suffix(a))), f' + [tag'] + (sep + (x' + Suffix(a')));
    assert InternalName(p, f, tag, x, a)[|p.record|..] == sep + rest;
    assert InternalName(p, f', tag', x', a')[|p.record|..] == sep + rest';
    assert rest == (sep + rest)[1..] == (sep + rest')[1..] == rest';
    SplitAtFirst(f + [tag], sep + (x + Suffix(a)), f' + [tag'], sep + (x' + Suffix(a')), FUNC_NAME_SEPARATOR);
    assert f == (f + [tag])[..|f|] && f' == (f' + [tag'])[..|f'|];
    assert tag == (f + [tag])[|f|] && tag' == (f' + [tag'])[|f'|];
    assert x + Suffix(a) == (sep + (x + Suffix(a)))[1..];
    assert x' + Suffix(a') == (sep + (x' + Suffix(a')))[1..];
    OwnPartDecodes(map[], x, a, x', a');
  }

  /** Two functions with the same internal name are the same function. */
  lemma InternalNamesDiffer(p: Program, n: Names, f: nat, g: nat)
    requires Ok(p, n) && CleanProgram(p) && f < |p.t| && g < |p.t|
    requires n.internal[f].Some? && n.internal[f] == n.internal[g]
    ensures f == g
  {
    assert InternalAt(p, n, f) && InternalAt(p, n, g) && SelfAt(p, n, f) && SelfAt(p, n, g);
    if f != 0 && g != 0 {
      var h, h' := NamedParent(p.t, f), NamedParent(p.t, g);
      FullHasNoSeparator(p, n, h);
      FullHasNoSeparator(p, n, h');
      InternalNameDecodes(p, FullOf(p, n, h), p.tags[f], n.self[f].value, n.dup[f],
                          FullOf(p, n, h'), p.tags[g], n.self[g].value, n.dup[g]);
      FullNamesDiffer(p, n, h, h');
      assert SiblingsDiffer(p, n, f, g);
    } else if f != 0 {
      MainDiffers(p, FullOf(p, n, NamedParent(p.t, f)), p.tags[f], n.self[f].value, n.dup[f]);
    } else if g != 0 {
      MainDiffers(p, FullOf(p, n, NamedParent(p.t, g)), p.tags[g], n.self[g].value, n.dup[g]);
    }
  }

  /** The top-level function's name has no separator after the record name. */
  lemma MainDiffers(p: Program, f: string, tag: char, x: string, a: nat)
    ensures InternalName(p, f, tag, x, a) != p.record + MAIN_FUNC_NAME
  {
    assert (p.record + MAIN_FUNC_NAME)[|p.record|] == 'f';
    assert InternalName(p, f, tag, x, a)[|p.record|] == FUNC_NAME_SEPARATOR;
  }

  // ----- whole runs

  /** A run gives functions their internal names, in any order, and may ask for full names in between. */
  datatype Event = Bind(scope: nat) | Ask(scope: nat)

  ghost predicate EventOk(p: Program, e: Event) {
    match e
    case Bind(f) => f < |p.t| && (f == 0 || IsFunctionScope(p, f))
    case Ask(s) => s < |p.t| && (s == 0 || IsNamed(p.t, s))
  }

  ghost function Run(p: Program, es: seq<Event>): (n: Names)
    requires ProgramOk(p) && forall k :: 0 <= k < |es| ==> EventOk(p, es[k])
    ensures Shaped(p, n)
  {
    if es == [] then Initial(p)
    else
      var before, e := Run(p, es[..|es| - 1]), es[|es| - 1];
      assert EventOk(p, e);
      if e.Bind? then BindFunction(p, before, e.scope) else SetFullScopeNames(p, before, e.scope)
  }

  lemma InitialOk(p: Program)
    requires ProgramOk(p)
    ensures Ok(p, Initial(p))
  {
    var n := Initial(p);
    forall x | 0 <= x < |p.t| ensures SelfAt(p, n, x) && FullAt(p, n, x) && InternalAt(p, n, x) {
    }
    forall x, y | 0 <= x < |p.t| && 0 <= y < |p.t| ensures SiblingsDiffer(p, n, x, y) {
    }
  }

  lemma {:induction false} RunKeepsOk(p: Program, es: seq<Event>)
    requires ProgramOk(p) && forall k :: 0 <= k < |es| ==> EventOk(p, es[k])
    ensures Ok(p, Run(p, es))
    decreases |es|
  {
    if es == [] {
      InitialOk(p);
    } else {
      var before, e := es[..|es| - 1], es[|es| - 1];
      RunKeepsOk(p, before);
      assert EventOk(p, e);
      if e.Bind? {
        BindKeepsOk(p, Run(p, before), e.scope);
      } else {
        SetFullKeepsOk(p, Run(p, before), e.scope);
      }
    }
  }

  /** Global injectivity: for any program with clean names and any binding order, two functions that got internal
      names got different ones. */
  lemma {:induction false} FunctionNamesAreUnique(p: Program, es: seq<Event>, f: nat, g: nat)
    requires ProgramOk(p) && CleanProgram(p) && forall k :: 0 <= k < |es| ==> EventOk(p, es[k])
    requires f < |p.t| && g < |p.t| && Run(p, es).internal[f].Some? && Run(p, es).internal[g].Some?
    ensures Run(p, es).internal[f] == Run(p, es).internal[g] <==> f == g
  {
    RunKeepsOk(p, es);
    if Run(p, es).internal[f] == Run(p, es).internal[g] {
      InternalNamesDiffer(p, Run(p, es), f, g);
    }
  }

  /** Names do not change in the course of a run, and compression of every settled name is stable. */
  lemma {:induction false} NamesAreStable(p: Program, es: seq<Event>, m: nat)
    requires ProgramOk(p) && (forall k :: 0 <= k < |es| ==> EventOk(p, es[k])) && m <= |es|
    ensures Later(p, Run(p, es[..m]), Run(p, es))
    decreases |es|
  {
    if m == |es| {
      assert es[..m] == es;
    } else {
      var before, e := es[..|es| - 1], es[|es| - 1];
      NamesAreStable(p, before, m);
      assert before[..m] == es[..m];
      RunKeepsOk(p, before);
      assert EventOk(p, e);
      if e.Bind? {
        BindKeepsOk(p, Run(p, before), e.scope);
      } else {
        SetFullKeepsOk(p, Run(p, before), e.scope);
      }
      LaterTwice(p, Run(p, es[..m]), Run(p, before), Run(p, es));
    }
  }

  // ----- names with marks in them

  /** Three functions of the top level: two named `a`, and one whose name is the string literal key `a^1`. */
  function ThreeFunctions(): Program {
    Program([ScopeNode(GLOBAL, None, None),
             ScopeNode(FUNCTION_PARAM, Some(0), Some(2)), ScopeNode(FUNCTION, Some(1), None),
             ScopeNode(FUNCTION_PARAM, Some(0), Some(4)), ScopeNode(FUNCTION, Some(3), None),
             ScopeNode(FUNCTION_PARAM, Some(0), Some(6)), ScopeNode(FUNCTION, Some(5), None)],
            ['*', '*', '*', '*', '*', '*', '*'], ["", "", "a", "", "a", "", "a^1"], "r")
  }

  lemma ThreeFunctionsOk()
    ensures ProgramOk(ThreeFunctions())
    ensures var t := ThreeFunctions().t; NamedParent(t, 2) == NamedParent(t, 4) == NamedParent(t, 6) == 0
  {
    var p := ThreeFunctions();
    forall i | 0 <= i < |p.t| ensures WellFormedAt(p.t, i) {
    }
    assert WellFormed(p.t);
    assert Host(p.t, 0) == 0;
  }

  /** A mark in a name breaks uniqueness: the second `a` and the function `a^1` share one internal name. */
  lemma MarkedNamesCollide()
    ensures ProgramOk(ThreeFunctions())
    ensures var n := BindFunction(ThreeFunctions(), BindFunction(ThreeFunctions(),
                       BindFunction(ThreeFunctions(), Initial(ThreeFunctions()), 2), 4), 6);
      n.internal[4].Some? && n.internal[4] == n.internal[6]
  {
    var p := ThreeFunctions();
    ThreeFunctionsOk();
    var n1 := BindFunction(p, Initial(p), 2);
    assert n1.counters[0] == map["*a" := 0] by { assert Key(p, 2) == "*a"; }
    var n2 := BindFunction(p, n1, 4);
    assert Key(p, 4) == "*a" && n2.dup[4] == 1;
    var n3 := BindFunction(p, n2, 6);
    assert Key(p, 6) == "*a^1" && n3.dup[6] == 0;
    assert Hex(1) == "1";
    assert n3.internal[4] == n2.internal[4];
    assert "a" + Suffix(1) == "a^1" + Suffix(0);
  }
}
