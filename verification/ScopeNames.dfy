/** Function names derived from scopes: tags, compressed parent names, duplicate counters. */
module ScopeNames {
  import opened Options
  import opened ScopeTree
  import opened Strings

  const CLASS_SCOPE_TAG := '~'
  const FUNCTION_TAG := '*'
  const METHOD_TAG := '>'
  const CTOR_TAG := '='
  const STATIC_METHOD_TAG := '<'
  const DUPLICATED_SEPARATOR := '^'
  const FUNC_NAME_SEPARATOR := '#'
  const INDEX_NAME_SPECIFIER := '@'

  const TAGS := {CLASS_SCOPE_TAG, FUNCTION_TAG, METHOD_TAG, CTOR_TAG, STATIC_METHOD_TAG}
  const MARKS := TAGS + {DUPLICATED_SEPARATOR, FUNC_NAME_SEPARATOR, INDEX_NAME_SPECIFIER}

  const MAIN_FUNC_NAME := "func_main_0"

  /** What the syntax tree gives: the scopes, and for each named one its tag and the name of its node. */
  datatype Program = Program(t: Skeleton, tags: seq<char>, nodeNames: seq<string>, record: string)

  predicate IsNamed(t: Skeleton, s: nat)
    requires s < |t|
  {
    t[s].kind == FUNCTION || t[s].kind == CLASS
  }

  ghost predicate ProgramOk(p: Program) {
    && WellFormed(p.t) && |p.tags| == |p.nodeNames| == |p.t|
    && forall s :: 0 <= s < |p.t| && IsNamed(p.t, s) ==> p.tags[s] in TAGS
  }

  /** Names with a dot or a backslash are not used. */
  function SelfScopeName(nodeName: string): string {
    if '.' in nodeName || '\\' in nodeName then "" else nodeName
  }

  /** The scope that answers for the full name and the duplicate counters of scope `i`: itself when it is named,
      the function for a parameter scope, otherwise its parent's. */
  function Host(t: Skeleton, i: nat): (h: nat)
    requires WellFormed(t) && i < |t|
    ensures h < |t| && (h == 0 || IsNamed(t, h)) && Rank(t, h) <= i
    decreases i
  {
    if i == 0 || IsNamed(t, i) then
      assert WellFormedAt(t, i);
      i
    else if t[i].kind == FUNCTION_PARAM then FunctionOf(t, i)
    else Host(t, Parent(t, i))
  }

  /** The host of the parent with a scope name; a function skips its own parameter scope. */
  function NamedParent(t: Skeleton, s: nat): (h: nat)
    requires WellFormed(t) && s < |t| && IsNamed(t, s)
    ensures h < |t| && (h == 0 || IsNamed(t, h)) && Rank(t, h) < Rank(t, s)
  {
    assert WellFormedAt(t, s);
    if t[s].kind == FUNCTION then
      assert WellFormedAt(t, ParamScopeOf(t, s));
      Host(t, Parent(t, ParamScopeOf(t, s)))
    else Host(t, Parent(t, s))
  }

  /** The name fields of all scopes, the counters of the named ones and the top scope's table of long names. */
  datatype Names = Names(self: seq<Option<string>>, dup: seq<nat>, full: seq<Option<string>>,
                         counters: seq<map<string, nat>>, table: map<string, nat>, internal: seq<Option<string>>)

  ghost predicate Shaped(p: Program, n: Names) {
    ProgramOk(p) && |n.self| == |n.dup| == |n.full| == |n.counters| == |n.internal| == |p.t|
  }

  function Initial(p: Program): Names {
    var none := seq(|p.t|, i => None);
    Names(none, seq(|p.t|, i => 0), none, seq(|p.t|, i => map[]), map[], none)
  }

  function Key(p: Program, s: nat): string
    requires s < |p.tags| == |p.nodeNames|
  {
    [p.tags[s]] + SelfScopeName(p.nodeNames[s])
  }

  /** The counter of a child's key: zero for the first child, one more for each further one. */
  function NextIndex(counters: map<string, nat>, key: string): nat {
    if key in counters then counters[key] + 1 else 0
  }

  /** Fixing the own name, once; the duplicate index is taken from the parent at that moment. */
  function SetSelfScopeName(p: Program, n: Names, s: nat): (n': Names)
    requires Shaped(p, n) && s < |p.t| && IsNamed(p.t, s)
    ensures Shaped(p, n') && n'.self[s].Some?
  {
    if n.self[s].Some? then n
    else
      var h := NamedParent(p.t, s);
      var index: nat := NextIndex(n.counters[h], Key(p, s));
      var bumped: map<string, nat> := n.counters[h][Key(p, s) := index];
      n.(self := n.self[s := Some(SelfScopeName(p.nodeNames[s]))],
         dup := n.dup[s := index],
         counters := n.counters[h := bumped])
  }

  function IndexName(k: nat): string {
    [INDEX_NAME_SPECIFIER] + Hex(k)
  }

  function Suffix(dup: nat): string {
    if dup > 0 then [DUPLICATED_SEPARATOR] + Hex(dup) else ""
  }

  /** The table after a name was compressed: a new long name gets the next index. */
  function AddToTable(table: map<string, nat>, name: string): map<string, nat> {
    if name !in table && |name| > |IndexName(|table|)| then table[name := |table|] else table
  }

  /** How a name is written, given the table. */
  function Code(table: map<string, nat>, name: string): string {
    if name in table then IndexName(table[name]) else name
  }

  function FullOf(p: Program, n: Names, h: nat): string
    requires Shaped(p, n) && h < |p.t|
  {
    if h == 0 || n.full[h] == None then "" else n.full[h].value
  }

  /** The full name, computed once: own name first, then the table, then the parent. */
  function SetFullScopeNames(p: Program, n: Names, s: nat): (n': Names)
    requires Shaped(p, n) && s < |p.t| && (s == 0 || IsNamed(p.t, s))
    ensures Shaped(p, n') && (s != 0 ==> n'.full[s].Some?)
    decreases Rank(p.t, s)
  {
    if s == 0 || n.full[s].Some? then n
    else
      var n1 := SetSelfScopeName(p, n, s);
      var self := n1.self[s].value;
      var n2 := n1.(table := AddToTable(n1.table, self));
      var code := Code(n2.table, self);
      var n3 := SetFullScopeNames(p, n2, NamedParent(p.t, s));
      n3.(full := n3.full[s := Some(FullOf(p, n3, NamedParent(p.t, s)) + [p.tags[s]] + code + Suffix(n3.dup[s]))])
  }

  function InternalName(p: Program, parent: string, tag: char, self: string, dup: nat): string {
    p.record + ([FUNC_NAME_SEPARATOR] + (parent + [tag] + ([FUNC_NAME_SEPARATOR] + (self + Suffix(dup)))))
  }

  /** Computing full names leaves own names alone that are fixed already. */
  lemma {:induction false} FullKeepsSelf(p: Program, n: Names, s: nat, x: nat)
    requires Shaped(p, n) && s < |p.t| && (s == 0 || IsNamed(p.t, s)) && x < |p.t| && n.self[x].Some?
    ensures SetFullScopeNames(p, n, s).self[x] == n.self[x]
    decreases Rank(p.t, s)
  {
    if s != 0 && n.full[s] == None {
      var n1 := SetSelfScopeName(p, n, s);
      FullKeepsSelf(p, n1.(table := AddToTable(n1.table, n1.self[s].value)), NamedParent(p.t, s), x);
    }
  }

  /** Giving a function its internal name, once. */
  function BindFunction(p: Program, n: Names, f: nat): (n': Names)
    requires Shaped(p, n) && f < |p.t| && (f == 0 || IsFunctionScope(p, f))
    ensures Shaped(p, n')
  {
    if n.internal[f].Some? then n
    else if f == 0 then n.(internal := n.internal[0 := Some(p.record + MAIN_FUNC_NAME)])
    else
      var n1 := SetSelfScopeName(p, n, f);
      var n2 := SetFullScopeNames(p, n1, NamedParent(p.t, f));
      var h := NamedParent(p.t, f);
      n2.(internal := n2.internal[f := Some(
        InternalName(p, FullOf(p, n2, h), p.tags[f], n1.self[f].value, n2.dup[f]))])
  }

  predicate IsFunctionScope(p: Program, f: nat)
    requires f < |p.t|
  {
    p.t[f].kind == FUNCTION
  }
}
