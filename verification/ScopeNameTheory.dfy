/** No two functions of a program get the same internal name. */
module ScopeNameTheory {
  import opened Options
  import opened ScopeTree
  import opened Strings
  import opened ScopeNames

  predicate Clean(name: string) {
    forall c :: c in name ==> c !in MARKS
  }

  ghost predicate CleanProgram(p: Program) {
    forall s :: 0 <= s < |p.nodeNames| ==> Clean(SelfScopeName(p.nodeNames[s]))
  }

  // ----- the table of long names

  /** The table numbers its names from zero on, and each was longer than its index when it came in. */
  ghost predicate TableOk(table: map<string, nat>) {
    && (forall x :: x in table ==> table[x] < |table| && |IndexName(table[x])| < |x|)
    && (forall x, y :: x in table && y in table && table[x] == table[y] ==> x == y)
  }

  /** The name is in the table or can never come in any more: its code is final. */
  ghost predicate Settled(table: map<string, nat>, name: string) {
    name in table || |name| <= |IndexName(|table|)|
  }

  ghost predicate Extends(table: map<string, nat>, table': map<string, nat>) {
    && |table| <= |table'|
    && forall x :: x in table ==> x in table' && table'[x] == table[x]
  }

  lemma AddKeepsTable(table: map<string, nat>, name: string)
    requires TableOk(table)
    ensures TableOk(AddToTable(table, name)) && Extends(table, AddToTable(table, name))
    ensures Settled(AddToTable(table, name), name)
  {
    if name !in table && |name| > |IndexName(|table|)| {
      assert |table[name := |table|]| == |table| + 1;
    }
  }

  /** Compression is stable: once a name has been compressed its code never changes, whatever comes into the table. */
  lemma CodeIsStable(table: map<string, nat>, name: string, other: string)
    requires TableOk(table) && Settled(table, name)
    ensures Settled(AddToTable(table, other), name)
    ensures Code(AddToTable(table, other), name) == Code(table, name)
  {
    AddKeepsTable(table, other);
    HexLengthMonotone(|table|, |AddToTable(table, other)|);
  }

  /** Compression never lengthens a name. */
  lemma CodeIsNoLonger(table: map<string, nat>, name: string)
    requires TableOk(table)
    ensures |Code(table, name)| <= |name|
    ensures name in table ==> |Code(table, name)| < |name|
  {
  }

  /** Distinct names get distinct codes. */
  lemma CodeIsInjective(table: map<string, nat>, x: string, y: string)
    requires TableOk(table) && Clean(x) && Clean(y) && Code(table, x) == Code(table, y)
    ensures x == y
  {
    if x in table && y in table {
      assert IndexName(table[x])[1..] == IndexName(table[y])[1..];
      HexInjective(table[x], table[y]);
    } else {
      assert x in table ==> INDEX_NAME_SPECIFIER in Code(table, x);
      assert y in table ==> INDEX_NAME_SPECIFIER in Code(table, y);
    }
  }

  /** The indices in the table are exactly the numbers below its size. */
  lemma {:induction false} TableIsBijection(table: map<string, nat>, k: nat)
    requires TableOk(table) && k < |table|
    ensures exists x :: x in table && table[x] == k
  {
    if forall x :: x in table ==> table[x] != k {
      var indices := set x | x in table :: table[x];
      InjectiveImage(table, table.Keys);
      assert indices <= Below(|table|) - {k};
      BelowSize(|table|);
      SubsetSize(indices, Below(|table|) - {k});
    }
  }

  function Below(n: nat): (s: set<nat>)
    ensures forall k: nat :: k in s <==> k < n
  {
    if n == 0 then {} else Below(n - 1) + {n - 1}
  }

  lemma {:induction false} BelowSize(n: nat)
    ensures |Below(n)| == n
    decreases n
  {
    if n > 0 {
      BelowSize(n - 1);
    }
  }

  lemma {:induction false} SubsetSize(a: set<nat>, b: set<nat>)
    requires a <= b
    ensures |a| <= |b|
    decreases a
  {
    if a != {} {
      var x :| x in a;
      SubsetSize(a - {x}, b - {x});
    }
  }

  lemma {:induction false} InjectiveImage(table: map<string, nat>, names: set<string>)
    requires names <= table.Keys
    requires forall x, y :: x in table && y in table && table[x] == table[y] ==> x == y
    ensures |set x | x in names :: table[x]| == |names|
    decreases names
  {
    if names != {} {
      var n :| n in names;
      InjectiveImage(table, names - {n});
      assert (set x | x in names :: table[x]) == (set x | x in names - {n} :: table[x]) + {table[n]};
    } else {
      assert (set x | x in names :: table[x]) == {};
    }
  }

  // ----- what every step of naming keeps

  /** A fixed own name is the node's, and its duplicate index has been counted. */
  ghost predicate SelfAt(p: Program, n: Names, s: nat)
    requires Shaped(p, n) && s < |p.t|
  {
    n.self[s].Some? ==>
      && IsNamed(p.t, s) && n.self[s].value == SelfScopeName(p.nodeNames[s])
      && Key(p, s) in n.counters[NamedParent(p.t, s)]
      && n.dup[s] <= n.counters[NamedParent(p.t, s)][Key(p, s)]
  }

  /** Siblings with the same tag and name have different duplicate indices. */
  ghost predicate SiblingsDiffer(p: Program, n: Names, s: nat, s': nat)
    requires Shaped(p, n) && s < |p.t| && s' < |p.t|
  {
    (s != s' && n.self[s].Some? && n.self[s'].Some? && IsNamed(p.t, s) && IsNamed(p.t, s') &&
     NamedParent(p.t, s) == NamedParent(p.t, s') && Key(p, s) == Key(p, s')) ==> n.dup[s] != n.dup[s']
  }

  ghost predicate Known(p: Program, n: Names, h: nat)
    requires Shaped(p, n) && h < |p.t|
  {
    h == 0 || n.full[h].Some?
  }

  /** A full name is the parent's full name, the tag, the code of the own name and the duplicate index. */
  ghost predicate FullAt(p: Program, n: Names, s: nat)
    requires Shaped(p, n) && s < |p.t|
  {
    n.full[s].Some? ==>
      && IsNamed(p.t, s) && n.self[s].Some? && Known(p, n, NamedParent(p.t, s)) && Settled(n.table, n.self[s].value)
      && n.full[s].value
         == FullOf(p, n, NamedParent(p.t, s)) + [p.tags[s]] + Code(n.table, n.self[s].value) + Suffix(n.dup[s])
  }

  ghost predicate InternalAt(p: Program, n: Names, f: nat)
    requires Shaped(p, n) && f < |p.t|
  {
    n.internal[f].Some? ==>
      if f == 0 then n.internal[f].value == p.record + MAIN_FUNC_NAME
      else
        && IsNamed(p.t, f) && n.self[f].Some? && Known(p, n, NamedParent(p.t, f))
        && n.internal[f].value == InternalName(p, FullOf(p, n, NamedParent(p.t, f)), p.tags[f], n.self[f].value,
                                               n.dup[f])
  }

  ghost predicate Ok(p: Program, n: Names) {
    && Shaped(p, n) && TableOk(n.table)
    && (forall s :: 0 <= s < |p.t| ==> SelfAt(p, n, s))
    && (forall s, s' :: 0 <= s < |p.t| && 0 <= s' < |p.t| ==> SiblingsDiffer(p, n, s, s'))
    && (forall s :: 0 <= s < |p.t| ==> FullAt(p, n, s))
    && (forall s :: 0 <= s < |p.t| ==> InternalAt(p, n, s))
  }

  /** The table only grows, and settled names keep their codes. */
  ghost predicate Grows(table: map<string, nat>, table': map<string, nat>) {
    forall x :: Settled(table, x) ==> Settled(table', x) && Code(table', x) == Code(table, x)
  }

  /** Whatever has a name keeps it. */
  ghost predicate Later(p: Program, n: Names, n': Names) {
    && Shaped(p, n) && Shaped(p, n') && Grows(n.table, n'.table)
    && forall s :: 0 <= s < |p.t| ==>
         && (n.self[s].Some? ==> n'.self[s] == n.self[s] && n'.dup[s] == n.dup[s])
         && (n.full[s].Some? ==> n'.full[s] == n.full[s])
         && (n.internal[s].Some? ==> n'.internal[s] == n.internal[s])
  }

  lemma SetSelfKeepsOk(p: Program, n: Names, s: nat)
    requires Ok(p, n) && s < |p.t| && IsNamed(p.t, s)
    ensures Ok(p, SetSelfScopeName(p, n, s)) && Later(p, n, SetSelfScopeName(p, n, s))
  {
    var n' := SetSelfScopeName(p, n, s);
    if n' != n {
      forall x | 0 <= x < |p.t| ensures SelfAt(p, n', x) && FullAt(p, n', x) && InternalAt(p, n', x) {
        assert SelfAt(p, n, x) && FullAt(p, n, x) && InternalAt(p, n, x);
      }
      forall x, y | 0 <= x < |p.t| && 0 <= y < |p.t| ensures SiblingsDiffer(p, n', x, y) {
        assert SiblingsDiffer(p, n, x, y) && SelfAt(p, n, x) && SelfAt(p, n, y);
      }
    }
  }

  lemma AddToTableKeepsOk(p: Program, n: Names, name: string)
    requires Ok(p, n)
    ensures var n' := n.(table := AddToTable(n.table, name));
      Ok(p, n') && Later(p, n, n') && Settled(n'.table, name)
  {
    var n' := n.(table := AddToTable(n.table, name));
    AddKeepsTable(n.table, name);
    forall x | Settled(n.table, x) ensures Settled(n'.table, x) && Code(n'.table, x) == Code(n.table, x) {
      CodeIsStable(n.table, x, name);
    }
    forall x | 0 <= x < |p.t| ensures SelfAt(p, n', x) && FullAt(p, n', x) && InternalAt(p, n', x) {
      assert SelfAt(p, n, x) && FullAt(p, n, x) && InternalAt(p, n, x);
    }
    forall x, y | 0 <= x < |p.t| && 0 <= y < |p.t| ensures SiblingsDiffer(p, n', x, y) {
      assert SiblingsDiffer(p, n, x, y);
    }
  }

  lemma LaterTwice(p: Program, a: Names, b: Names, c: Names)
    requires Later(p, a, b) && Later(p, b, c)
    ensures Later(p, a, c)
  {
    forall x | Settled(a.table, x) ensures Settled(c.table, x) && Code(c.table, x) == Code(a.table, x) {
      assert Settled(b.table, x);
    }
  }

  /** Writing one full name. */
  lemma WriteFullKeepsOk(p: Program, n: Names, s: nat, full: string)
    requires Ok(p, n) && s < |p.t| && IsNamed(p.t, s) && n.full[s] == None && n.self[s].Some?
    requires Known(p, n, NamedParent(p.t, s)) && Settled(n.table, n.self[s].value)
    requires full == FullOf(p, n, NamedParent(p.t, s)) + [p.tags[s]] + Code(n.table, n.self[s].value) + Suffix(n.dup[s])
    ensures var n' := n.(full := n.full[s := Some(full)]);
      Ok(p, n') && Later(p, n, n')
  {
    var n' := n.(full := n.full[s := Some(full)]);
    forall x | 0 <= x < |p.t| ensures SelfAt(p, n', x) && FullAt(p, n', x) && InternalAt(p, n', x) {
      assert SelfAt(p, n, x) && FullAt(p, n, x) && InternalAt(p, n, x);
    }
    forall x, y | 0 <= x < |p.t| && 0 <= y < |p.t| ensures SiblingsDiffer(p, n', x, y) {
      assert SiblingsDiffer(p, n, x, y);
    }
  }

  /** Only scopes closer to the root than `s` get a full name while that of `s` is computed. */
  lemma {:induction false} SetFullLeavesInner(p: Program, n: Names, s: nat, x: nat)
    requires Shaped(p, n) && s < |p.t| && (s == 0 || IsNamed(p.t, s)) && x < |p.t| && Rank(p.t, s) < Rank(p.t, x)
    ensures SetFullScopeNames(p, n, s).full[x] == n.full[x]
    decreases Rank(p.t, s)
  {
    if s != 0 && n.full[s] == None {
      var n1 := SetSelfScopeName(p, n, s);
      var n2 := n1.(table := AddToTable(n1.table, n1.self[s].value));
      SetFullLeavesInner(p, n2, NamedParent(p.t, s), x);
    }
  }

  lemma {:induction false} SetFullKeepsOk(p: Program, n: Names, s: nat)
    requires Ok(p, n) && s < |p.t| && (s == 0 || IsNamed(p.t, s))
    ensures Ok(p, SetFullScopeNames(p, n, s)) && Later(p, n, SetFullScopeNames(p, n, s))
    ensures Known(p, SetFullScopeNames(p, n, s), s)
    decreases Rank(p.t, s)
  {
    if s != 0 && n.full[s] == None {
      var n1 := SetSelfScopeName(p, n, s);
      SetSelfKeepsOk(p, n, s);
      var self := n1.self[s].value;
      var n2 := n1.(table := AddToTable(n1.table, self));
      AddToTableKeepsOk(p, n1, self);
      var h := NamedParent(p.t, s);
      var n3 := SetFullScopeNames(p, n2, h);
      SetFullKeepsOk(p, n2, h);
      SetFullLeavesInner(p, n2, h, s);
      WriteFullKeepsOk(p, n3, s, FullOf(p, n3, h) + [p.tags[s]] + Code(n2.table, self) + Suffix(n3.dup[s]));
      LaterTwice(p, n, n1, n2);
      LaterTwice(p, n, n2, n3);
      LaterTwice(p, n, n3, SetFullScopeNames(p, n, s));
    }
  }

  lemma BindKeepsOk(p: Program, n: Names, f: nat)
    requires Ok(p, n) && f < |p.t| && (f == 0 || IsFunctionScope(p, f))
    ensures Ok(p, BindFunction(p, n, f)) && Later(p, n, BindFunction(p, n, f))
            && BindFunction(p, n, f).internal[f].Some?
  {
    if n.internal[f] == None {
      var n2 := n;
      if f != 0 {
        var n1, h := SetSelfScopeName(p, n, f), NamedParent(p.t, f);
        SetSelfKeepsOk(p, n, f);
        n2 := SetFullScopeNames(p, n1, h);
        SetFullKeepsOk(p, n1, h);
        LaterTwice(p, n, n1, n2);
      }
      WriteInternalKeepsOk(p, n2, f, BindFunction(p, n, f).internal[f].value);
      if n2.internal[f] == None {
        LaterTwice(p, n, n2, BindFunction(p, n, f));
      }
    }
  }

  lemma WriteInternalKeepsOk(p: Program, n: Names, f: nat, internal: string)
    requires Ok(p, n) && f < |p.t|
    requires f == 0 ==> internal == p.record + MAIN_FUNC_NAME
    requires f != 0 ==>
      && IsNamed(p.t, f) && n.self[f].Some? && Known(p, n, NamedParent(p.t, f))
      && internal == InternalName(p, FullOf(p, n, NamedParent(p.t, f)), p.tags[f], n.self[f].value, n.dup[f])
    ensures Ok(p, n.(internal := n.internal[f := Some(internal)]))
    ensures n.internal[f] == None ==> Later(p, n, n.(internal := n.internal[f := Some(internal)]))
  {
    var n' := n.(internal := n.internal[f := Some(internal)]);
    forall x | 0 <= x < |p.t| ensures SelfAt(p, n', x) && FullAt(p, n', x) && InternalAt(p, n', x) {
      assert SelfAt(p, n, x) && FullAt(p, n, x) && InternalAt(p, n, x);
    }
    forall x, y | 0 <= x < |p.t| && 0 <= y < |p.t| ensures SiblingsDiffer(p, n', x, y) {
      assert SiblingsDiffer(p, n, x, y);
    }
  }
}
