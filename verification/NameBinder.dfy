/** The naming side of the scope objects: fields that are set once, counters, and the table in the top scope, tied to
    the naming steps on values. */
module NameBinder {
  import opened Options
  import opened ScopeTree
  import S = ScopeNames

  class NamedScope {
    ghost const id: nat
    const kind: ScopeType
    const parent: NamedScope?
    const functionScope: NamedScope?
    const scopeTag: char
    const nodeName: string
    var hasSelfScopeNameSet: bool
    var selfScopeName: string
    var scopeDuplicateIndex: nat
    var hasFullScopeNameSet: bool
    var fullScopeName: string
    var scopesIndex: map<string, nat>
    var scopeNames: map<string, nat>
    var inFunctionScopes: bool
    var internalName: string

    constructor (ghost id: nat, kind: ScopeType, parent: NamedScope?, functionScope: NamedScope?, tag: char,
                 nodeName: string)
    {
      this.id, this.kind, this.parent, this.functionScope := id, kind, parent, functionScope;
      scopeTag, this.nodeName := tag, nodeName;
      hasSelfScopeNameSet, selfScopeName, scopeDuplicateIndex := false, "", 0;
      hasFullScopeNameSet, fullScopeName, scopesIndex, scopeNames := false, "", map[], map[];
      inFunctionScopes, internalName := false, "";
    }

    /** The counter of one key of the children. */
    method CountDuplicate(childScopeName: string) returns (index: nat)
      modifies this`scopesIndex
      ensures index == S.NextIndex(old(scopesIndex), childScopeName)
      ensures scopesIndex == old(scopesIndex)[childScopeName := index]
    {
      if childScopeName !in scopesIndex {
        index := 0;
      } else {
        index := scopesIndex[childScopeName] + 1;
      }
      scopesIndex := scopesIndex[childScopeName := index];
    }
  }

  /** What fixing the own name of `s` under the named parent `h` changes, entry by entry. */
  ghost predicate SelfStep(p: S.Program, n: S.Names, after: S.Names, s: nat, h: nat, own: string, key: string) {
    && S.Shaped(p, n) && S.Shaped(p, after) && s < |p.t| && h < |p.t|
    && after.table == n.table && after.internal == n.internal && after.full == n.full
    && after.self[s] == Some(own)
    && after.dup[s] == S.NextIndex(n.counters[h], key)
    && after.counters[h] == n.counters[h][key := after.dup[s]]
    && (forall i :: 0 <= i < |p.t| && i != s ==> after.self[i] == n.self[i] && after.dup[i] == n.dup[i])
    && (forall i :: 0 <= i < |p.t| && i != h ==> after.counters[i] == n.counters[i])
  }

  lemma SelfStepOf(p: S.Program, n: S.Names, s: nat)
    requires S.Shaped(p, n) && s < |p.t| && S.IsNamed(p.t, s) && n.self[s] == None
    ensures SelfStep(p, n, S.SetSelfScopeName(p, n, s), s, S.NamedParent(p.t, s), S.SelfScopeName(p.nodeNames[s]),
                     S.Key(p, s))
  {
  }

  /** All scopes of a program, with the top scope that holds the table. */
  class NameRegistry {
    ghost const program: S.Program
    ghost const scopes: seq<NamedScope>
    const topScope: NamedScope
    const recordName: string
    ghost var names: S.Names

    constructor (ghost program: S.Program, ghost scopes: seq<NamedScope>, top: NamedScope, record: string,
                 ghost names: S.Names)
      ensures this.program == program && this.scopes == scopes && topScope == top && recordName == record
              && this.names == names
    {
      this.program, this.scopes, topScope, recordName, this.names := program, scopes, top, record, names;
    }

    ghost predicate Has(s: NamedScope) {
      s.id < |scopes| && scopes[s.id] == s
    }

    ghost predicate StaticAt(i: nat) {
      && S.ProgramOk(program) && |scopes| == |program.t| && i < |program.t|
      && var s, t := scopes[i], program.t;
      && s.id == i && s.kind == t[i].kind && s.scopeTag == program.tags[i] && s.nodeName == program.nodeNames[i]
      && (if i == 0 then s.parent == null else s.parent == scopes[Parent(t, i)])
      && (t[i].kind == FUNCTION_PARAM ==> s.functionScope == scopes[FunctionOf(t, i)])
    }

    /** The name fields of scope object `i` are what the state says. */
    ghost predicate NamesAt(i: nat)
      reads this`names, scopes`hasSelfScopeNameSet, scopes`selfScopeName, scopes`scopeDuplicateIndex
      reads scopes`hasFullScopeNameSet, scopes`fullScopeName, scopes`scopesIndex
    {
      && i < |scopes| && S.Shaped(program, names) && |scopes| == |program.t|
      && var s := scopes[i];
      && (i != 0 ==> names.self[i] == (if s.hasSelfScopeNameSet then Some(s.selfScopeName) else None))
      && names.dup[i] == s.scopeDuplicateIndex && names.counters[i] == s.scopesIndex
      && (i != 0 ==> names.full[i] == (if s.hasFullScopeNameSet then Some(s.fullScopeName) else None))
      && (i == 0 ==> s.fullScopeName == "")
    }

    ghost predicate InternalAt(i: nat)
      reads this`names, scopes`inFunctionScopes, scopes`internalName
    {
      && i < |scopes| == |names.internal|
      && names.internal[i] == (if scopes[i].inFunctionScopes then Some(scopes[i].internalName) else None)
    }

    ghost predicate Valid()
      reads this`names, scopes`hasSelfScopeNameSet, scopes`selfScopeName, scopes`scopeDuplicateIndex
      reads scopes`hasFullScopeNameSet, scopes`fullScopeName, scopes`scopesIndex
      reads scopes`inFunctionScopes, scopes`internalName, topScope`scopeNames
    {
      && S.Shaped(program, names) && |scopes| == |program.t| && recordName == program.record
      && scopes[0] == topScope && topScope.scopeNames == names.table
      && (forall i :: 0 <= i < |scopes| ==> StaticAt(i))
      && (forall i :: 0 <= i < |scopes| ==> NamesAt(i))
      && (forall i :: 0 <= i < |scopes| ==> InternalAt(i))
    }

    /** The scope that answers for the names and counters of `s`, by passing the question up. */
    method HostOf(s: NamedScope) returns (h: NamedScope)
      requires Valid() && Has(s)
      ensures Has(h) && h.id == S.Host(program.t, s.id)
      decreases s.id
    {
      assert StaticAt(s.id);
      assert WellFormedAt(program.t, s.id);
      if s.kind == FUNCTION || s.kind == CLASS || s.parent == null {
        h := s;
      } else if s.kind == FUNCTION_PARAM {
        assert StaticAt(FunctionOf(program.t, s.id));
        h := s.functionScope;
      } else {
        assert StaticAt(Parent(program.t, s.id));
        h := HostOf(s.parent);
      }
    }

    /** The named parent; a function skips its own parameter scope. */
    method GetParentWithScopeName(s: NamedScope) returns (h: NamedScope)
      requires Valid() && Has(s) && S.IsNamed(program.t, s.id)
      ensures Has(h) && h.id == S.NamedParent(program.t, s.id)
    {
      assert StaticAt(s.id);
      assert WellFormedAt(program.t, s.id);
      var p: NamedScope := s.parent;
      assert StaticAt(Parent(program.t, s.id));
      if s.kind == FUNCTION {
        assert WellFormedAt(program.t, ParamScopeOf(program.t, s.id));
        assert StaticAt(Parent(program.t, ParamScopeOf(program.t, s.id)));
        p := p.parent;
      }
      h := HostOf(p);
    }

    /** Sets the own name and takes the duplicate index from the parent; once. */
    method SetSelfScopeName(s: NamedScope)
      requires Valid() && Has(s) && S.IsNamed(program.t, s.id)
      modifies this`names, scopes`hasSelfScopeNameSet, scopes`selfScopeName, scopes`scopeDuplicateIndex,
               scopes`scopesIndex
      ensures Valid() && names == S.SetSelfScopeName(program, old(names), s.id)
    {
      assert StaticAt(s.id);
      assert NamesAt(s.id);
      assert WellFormedAt(program.t, s.id);
      if s.hasSelfScopeNameSet {
        return;
      }
      var parent := GetParentWithScopeName(s);
      ghost var after := S.SetSelfScopeName(program, names, s.id);
      assert names.self[s.id] == None;
      SelfStepOf(program, names, s.id);
      WriteSelf(s, parent, after);
    }

    method WriteSelf(s: NamedScope, parent: NamedScope, ghost after: S.Names)
      requires Valid() && Has(s) && Has(parent) && 0 < s.id != parent.id
      requires var own := S.SelfScopeName(s.nodeName);
        SelfStep(program, names, after, s.id, parent.id, own, [s.scopeTag] + own)
      modifies this`names, s`hasSelfScopeNameSet, s`selfScopeName, s`scopeDuplicateIndex, parent`scopesIndex
      ensures Valid() && names == after
    {
      assert StaticAt(s.id) && NamesAt(s.id) && NamesAt(parent.id);
      s.hasSelfScopeNameSet := true;
      s.selfScopeName := S.SelfScopeName(s.nodeName);
      s.scopeDuplicateIndex := parent.CountDuplicate([s.scopeTag] + s.selfScopeName);
      names := after;
      forall i | 0 <= i < |scopes| ensures InternalAt(i) {
        assert old(InternalAt(i));
      }
      assert NamesAt(s.id);
      assert NamesAt(parent.id);
      forall i | 0 <= i < |scopes| ensures NamesAt(i) {
        if i != s.id && i != parent.id {
          assert old(NamesAt(i)) && StaticAt(i);
          assert scopes[i] != s && scopes[i] != parent;
        }
      }
    }

    /** How the own name is written: by its index when it is, or now comes, in the table of the top scope. */
    method OptimizeSelfScopeName(selfScopeName: string) returns (code: string)
      requires Valid()
      modifies this`names, topScope`scopeNames
      ensures Valid() && names == old(names).(table := S.AddToTable(old(names.table), selfScopeName))
      ensures code == S.Code(names.table, selfScopeName)
    {
      ghost var before := names;
      if selfScopeName in topScope.scopeNames {
        code := S.IndexName(topScope.scopeNames[selfScopeName]);
      } else {
        var size := |topScope.scopeNames|;
        if |selfScopeName| > |S.IndexName(size)| {
          topScope.scopeNames := topScope.scopeNames[selfScopeName := size];
          code := S.IndexName(size);
        } else {
          code := selfScopeName;
        }
      }
      names := before.(table := S.AddToTable(before.table, selfScopeName));
      forall i | 0 <= i < |scopes| ensures NamesAt(i) && InternalAt(i) {
        assert old(NamesAt(i));
        assert old(InternalAt(i));
      }
    }

    /** The full name, computed at the first request and then kept; own name first, then the parents'. */
    method GetFullScopeName(s: NamedScope) returns (name: string)
      requires Valid() && Has(s) && (s.id == 0 || S.IsNamed(program.t, s.id))
      modifies this`names, scopes`hasSelfScopeNameSet, scopes`selfScopeName, scopes`scopeDuplicateIndex,
               scopes`scopesIndex
      modifies scopes`hasFullScopeNameSet, scopes`fullScopeName, topScope`scopeNames
      ensures Valid() && names == S.SetFullScopeNames(program, old(names), s.id)
      ensures name == S.FullOf(program, names, s.id)
      decreases Rank(program.t, s.id)
    {
      assert StaticAt(s.id);
      assert NamesAt(s.id);
      if s.parent == null {
        return s.fullScopeName;
      }
      if !s.hasFullScopeNameSet {
        ComputeFullScopeName(s);
      }
      assert NamesAt(s.id);
      name := s.fullScopeName;
    }

    method ComputeFullScopeName(s: NamedScope)
      requires Valid() && Has(s) && s.id != 0 && S.IsNamed(program.t, s.id) && names.full[s.id] == None
      modifies this`names, scopes`hasSelfScopeNameSet, scopes`selfScopeName, scopes`scopeDuplicateIndex,
               scopes`scopesIndex
      modifies scopes`hasFullScopeNameSet, scopes`fullScopeName, topScope`scopeNames
      ensures Valid() && names == S.SetFullScopeNames(program, old(names), s.id)
      decreases Rank(program.t, s.id), 0
    {
      SetSelfScopeName(s);
      assert NamesAt(s.id);
      ghost var n1 := names;
      var code := OptimizeSelfScopeName(s.selfScopeName);
      var parent := GetParentWithScopeName(s);
      var prefix := GetFullScopeName(parent);
      assert NamesAt(s.id) && StaticAt(s.id);
      WriteFull(s, prefix + [s.scopeTag] + code + S.Suffix(s.scopeDuplicateIndex));
    }

    method WriteFull(s: NamedScope, full: string)
      requires Valid() && Has(s) && s.id != 0
      modifies this`names, s`hasFullScopeNameSet, s`fullScopeName
      ensures Valid() && names == old(names).(full := old(names.full)[s.id := Some(full)])
    {
      s.fullScopeName := full;
      s.hasFullScopeNameSet := true;
      names := names.(full := names.full[s.id := Some(full)]);
      forall i | 0 <= i < |scopes| ensures NamesAt(i) && InternalAt(i) {
        assert old(NamesAt(i));
        assert old(InternalAt(i));
        assert StaticAt(i);
      }
    }

    /** Gives a function its internal name, the first time. */
    method BuildFunction(f: NamedScope)
      requires Valid() && Has(f) && (f.id == 0 || S.IsFunctionScope(program, f.id))
      modifies this`names, scopes`hasSelfScopeNameSet, scopes`selfScopeName, scopes`scopeDuplicateIndex,
               scopes`scopesIndex
      modifies scopes`hasFullScopeNameSet, scopes`fullScopeName, topScope`scopeNames
      modifies f`inFunctionScopes, f`internalName
      ensures Valid() && names == S.BindFunction(program, old(names), f.id)
    {
      assert StaticAt(f.id) && InternalAt(f.id);
      if f.inFunctionScopes {
        return;
      }
      if f.parent == null {
        WriteInternal(f, recordName + S.MAIN_FUNC_NAME);
      } else {
        BindNameWithScopeInfo(f);
      }
    }

    method BindNameWithScopeInfo(f: NamedScope)
      requires Valid() && Has(f) && f.id != 0 && S.IsFunctionScope(program, f.id) && names.internal[f.id] == None
      modifies this`names, scopes`hasSelfScopeNameSet, scopes`selfScopeName, scopes`scopeDuplicateIndex,
               scopes`scopesIndex
      modifies scopes`hasFullScopeNameSet, scopes`fullScopeName, topScope`scopeNames
      modifies f`inFunctionScopes, f`internalName
      ensures Valid() && names == S.BindFunction(program, old(names), f.id)
    {
      SetSelfScopeName(f);
      ghost var n1 := names;
      var parent := GetParentWithScopeName(f);
      var prefix := GetFullScopeName(parent);
      S.FullKeepsSelf(program, n1, parent.id, f.id);
      assert NamesAt(f.id) && StaticAt(f.id);
      var internal := recordName + ([S.FUNC_NAME_SEPARATOR] + (prefix + [f.scopeTag] +
        ([S.FUNC_NAME_SEPARATOR] + (f.selfScopeName + S.Suffix(f.scopeDuplicateIndex)))));
      assert internal == S.InternalName(program, prefix, program.tags[f.id], n1.self[f.id].value, names.dup[f.id]);
      WriteInternal(f, internal);
    }

    method WriteInternal(f: NamedScope, internal: string)
      requires Valid() && Has(f)
      modifies this`names, f`inFunctionScopes, f`internalName
      ensures Valid() && names == old(names).(internal := old(names.internal)[f.id := Some(internal)])
    {
      f.inFunctionScopes := true;
      f.internalName := internal;
      names := names.(internal := names.internal[f.id := Some(internal)]);
      forall i | 0 <= i < |scopes| ensures NamesAt(i) && InternalAt(i) {
        assert old(NamesAt(i));
        assert old(InternalAt(i));
        assert StaticAt(i);
      }
    }
  }
}
