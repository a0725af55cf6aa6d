/** The binder's objects: scopes and variables in the heap, changed in place by lookups and hidden parameters, tied to
    the same steps on values. */
module LexicalBinder {
  import opened ScopeTree
  import L = LexicalAddress
  import C = LexicalCapture
  import M = MandatoryParams
  import P = ClassLevel

  class LocalVariable {
    const name: string
    const isLocal: bool
    ghost const home: nat
    var lexicalBound: bool
    var vreg: nat

    constructor (name: string, isLocal: bool, ghost home: nat)
      ensures this.name == name && this.isLocal == isLocal && this.home == home && !lexicalBound && vreg == 0
    {
      this.name, this.isLocal, this.home, lexicalBound, vreg := name, isLocal, home, false, 0;
    }

    method BindLexEnvSlot(slot: nat)
      requires !lexicalBound
      modifies this`lexicalBound, this`vreg
      ensures lexicalBound && vreg == slot
    {
      lexicalBound := true;
      vreg := slot;
    }

    ghost function View(): L.Variable
      reads this`lexicalBound, this`vreg
    {
      L.Variable(name, isLocal, home, lexicalBound, vreg)
    }
  }

  class Scope {
    ghost const id: nat
    const kind: ScopeType
    const parent: Scope?
    const functionScope: Scope?
    var bindings: map<string, LocalVariable>
    var slotIndex: nat
    var params: seq<LocalVariable>
    var privateNames: set<string>

    constructor (ghost id: nat, kind: ScopeType, parent: Scope?, functionScope: Scope?)
    {
      this.id, this.kind, this.parent, this.functionScope := id, kind, parent, functionScope;
      bindings, slotIndex, params, privateNames := map[], 0, [], {};
    }

    predicate NeedLexEnv()
      reads this`slotIndex
    {
      slotIndex != 0
    }

    method NextSlot() returns (slot: nat)
      modifies this`slotIndex
      ensures slot == old(slotIndex) && slotIndex == old(slotIndex) + 1
    {
      slot := slotIndex;
      slotIndex := slotIndex + 1;
    }

    /** Outwards to the next variable scope; for any scope but a parameter scope that is the owner of its variables. */
    method EnclosingVariableScope(ghost b: Binder) returns (s: Scope)
      requires b.Valid() && b.Has(this)
      ensures b.Has(s) && s.id == NextVariableScope(b.tree, id)
      ensures kind != FUNCTION_PARAM ==> s.id == Owner(b.tree, id)
    {
      NextIsOwner(b.tree, id);
      var iter: Scope := this;
      assert b.ScopeAt(id);
      while !IsVariableScope(iter.kind)
        invariant b.Has(iter) && b.ScopeAt(iter.id)
        invariant NextVariableScope(b.tree, iter.id) == NextVariableScope(b.tree, id)
        decreases iter.id
      {
        assert WellFormedAt(b.tree, iter.id);
        assert b.ScopeAt(Parent(b.tree, iter.id));
        iter := iter.parent;
      }
      s := iter;
    }

    /** The walk outwards; `level` counts activations left, `lexLevel` environments passed. */
    method Find(name: string, ghost b: Binder)
      returns (scope: Scope?, level: nat, lexLevel: nat, variable: LocalVariable?)
      requires b.Valid() && b.Has(this)
      ensures var r := L.Find(b.tree, b.world, name, id);
        && (r.NotFound? <==> scope == null) && (scope == null <==> variable == null)
        && (scope != null ==>
              && b.Has(scope) && scope.id == r.scope && level == r.level && lexLevel == r.lexLevel
              && variable == b.vars[r.variable])
    {
      level, lexLevel := 0, 0;
      var iter: Scope? := this;
      var prevScopeNotFunctionScope := true;
      var lexical := false;
      assert b.ScopeAt(id);
      while iter != null
        invariant iter != null ==> b.Has(iter) && b.ScopeAt(iter.id)
        invariant L.Find(b.tree, b.world, name, id) ==
          if iter == null then L.NotFound
          else L.FindFrom(b.tree, b.world, name, iter.id, L.Walk(!prevScopeNotFunctionScope, lexical, level, lexLevel))
        decreases if iter == null then 0 else iter.id + 1
      {
        ghost var k := L.Walk(!prevScopeNotFunctionScope, lexical, level, lexLevel);
        var functionScopeNotIterated := iter.kind == FUNCTION_PARAM && prevScopeNotFunctionScope;
        if name in iter.bindings {
          scope, variable := iter, iter.bindings[name];
          return;
        }
        if IsFunctionVariableScope(iter.kind) && !lexical {
          lexical := true;
        }
        if IsVariableScope(iter.kind) {
          if lexical {
            level := level + 1;
          }
          if iter.NeedLexEnv() {
            lexLevel := lexLevel + 1;
          }
        } else if functionScopeNotIterated {
          level := level + 1;
          assert b.ScopeAt(FunctionOf(b.tree, iter.id));
          if iter.functionScope.NeedLexEnv() {
            lexLevel := lexLevel + 1;
          }
        }
        prevScopeNotFunctionScope := !IsFunctionVariableScope(iter.kind);
        assert L.Walk(!prevScopeNotFunctionScope, lexical, level, lexLevel) == L.Leave(b.tree, b.world, iter.id, k);
        assert iter.id != 0 ==> b.ScopeAt(Parent(b.tree, iter.id));
        iter := iter.parent;
      }
      scope, level, lexLevel, variable := null, 0, 0, null;
    }

    /** A class scope answers for the private names it declares, and for the name that validates methods. */
    predicate Declares(name: string)
      reads this`privateNames
    {
      kind == CLASS && (name == "#method" || name in privateNames)
    }

    /** The walk outwards to the class that declares a private name. */
    method FindPrivateName(name: string, ghost b: Binder) returns (scope: Scope?, lexLevel: nat)
      requires b.Valid() && b.Has(this)
      ensures var r := P.FindPrivateName(b.tree, b.world, b.Declaring(name), id, 0);
        && (r.NoClass? <==> scope == null)
        && (scope != null ==> b.Has(scope) && scope.id == r.scope && lexLevel == r.lexLevel)
    {
      lexLevel := 0;
      var iter: Scope? := this;
      assert b.ScopeAt(id);
      while iter != null
        invariant iter != null ==> b.Has(iter) && b.ScopeAt(iter.id)
        invariant P.FindPrivateName(b.tree, b.world, b.Declaring(name), id, 0) ==
          if iter == null then P.NoClass
          else P.FindPrivateName(b.tree, b.world, b.Declaring(name), iter.id, lexLevel)
        decreases if iter == null then 0 else iter.id + 1
      {
        assert iter.Declares(name) <==> iter.id in b.Declaring(name);
        if iter.Declares(name) {
          return iter, lexLevel;
        }
        if IsVariableScope(iter.kind) && iter.NeedLexEnv() {
          lexLevel := lexLevel + 1;
        }
        assert iter.id != 0 ==> b.ScopeAt(Parent(b.tree, iter.id));
        iter := iter.parent;
      }
      scope := null;
    }
  }

  class Binder {
    ghost const tree: Skeleton
    ghost const scopes: seq<Scope>
    ghost var vars: seq<LocalVariable>
    ghost var world: L.World
    ghost var paramIds: seq<seq<nat>>

    constructor (ghost tree: Skeleton, ghost scopes: seq<Scope>, ghost vars: seq<LocalVariable>, ghost s: M.State)
      ensures this.tree == tree && this.scopes == scopes && this.vars == vars && State() == s
    {
      this.tree, this.scopes, this.vars, world, paramIds := tree, scopes, vars, s.w, s.params;
    }

    ghost predicate Has(s: Scope) {
      s.id < |scopes| && scopes[s.id] == s
    }

    ghost function Declaring(name: string): set<nat>
      reads scopes`privateNames
    {
      set i | 0 <= i < |scopes| && scopes[i].Declares(name)
    }

    /** The links between the scope objects follow the tree. */
    ghost predicate StaticAt(i: nat) {
      && WellFormed(tree) && |scopes| == |tree| && i < |tree|
      && var s := scopes[i];
      && s.id == i && s.kind == tree[i].kind
      && (if i == 0 then s.parent == null else s.parent == scopes[Parent(tree, i)])
      && (tree[i].kind == FUNCTION_PARAM ==> s.functionScope == scopes[FunctionOf(tree, i)])
    }

    /** The scope object number `i` is what the tree and the world say. */
    ghost predicate ScopeAt(i: nat)
      reads this`vars, this`world, scopes`bindings, scopes`slotIndex
    {
      && StaticAt(i) && |world.bindings| == |world.slots| == |tree|
      && var s := scopes[i];
      && s.slotIndex == world.slots[i] && BindingsMatch(s.bindings, world.bindings[i], vars)
    }

    /** The variables that a scope binds, by object and by number. */
    static ghost predicate BindingsMatch(bindings: map<string, LocalVariable>, ids: map<string, nat>,
                                         vars: seq<LocalVariable>)
    {
      && bindings.Keys == ids.Keys
      && forall n :: n in bindings ==> ids[n] < |vars| && bindings[n] == vars[ids[n]]
    }

    static lemma BindingsMatchMore(bindings: map<string, LocalVariable>, ids: map<string, nat>,
                                   vars: seq<LocalVariable>, param: LocalVariable)
      requires BindingsMatch(bindings, ids, vars)
      ensures BindingsMatch(bindings, ids, vars + [param])
      ensures BindingsMatch(bindings[param.name := param], ids[param.name := |vars|], vars + [param])
    {
    }

    ghost predicate VariablesMatch()
      reads this`vars, this`world, vars`lexicalBound, vars`vreg
    {
      && |vars| == |world.vars|
      && (forall v :: 0 <= v < |vars| ==> vars[v].View() == world.vars[v])
      && (forall u, v :: 0 <= u < v < |vars| ==> vars[u] != vars[v])
    }

    ghost predicate Valid()
      reads this`vars, this`world, scopes`bindings, scopes`slotIndex, vars`lexicalBound, vars`vreg
    {
      && L.WorldOf(tree, world) && |scopes| == |tree| && VariablesMatch()
      && (forall i :: 0 <= i < |tree| ==> StaticAt(i))
      && (forall i :: 0 <= i < |tree| ==> ScopeAt(i))
    }

    /** Captures a variable found in `scope`, the first time it is asked to. */
    method SetLexical(variable: LocalVariable, scope: Scope, ghost v: nat)
      requires Valid() && Has(scope) && v < |vars| && vars[v] == variable && variable.home == Owner(tree, scope.id)
      modifies this`world, scopes`slotIndex, vars`lexicalBound, vars`vreg
      ensures Valid() && vars == old(vars)
      ensures world == C.SetLexical(tree, old(world), scope.id, v)
    {
      assert ScopeAt(scope.id);
      if variable.lexicalBound || !variable.isLocal {
        return;
      }
      var varScope: Scope;
      if scope.kind == FUNCTION_PARAM {
        varScope := scope.functionScope;
      } else {
        varScope := scope.EnclosingVariableScope(this);
      }
      assert ScopeAt(Owner(tree, scope.id));
      C.SetLexicalKeepsWorld(tree, world, scope.id, v);
      Capture(variable, varScope, Owner(tree, scope.id), v, C.SetLexical(tree, world, scope.id, v));
    }

    /** The next slot of the owner goes to the variable. */
    method Capture(variable: LocalVariable, varScope: Scope, ghost o: nat, ghost v: nat, ghost after: L.World)
      requires Valid() && o < |tree| && scopes[o] == varScope && v < |vars| && vars[v] == variable
               && !variable.lexicalBound
      requires L.WorldOf(tree, after) && o < |world.slots| && v < |world.vars|
      requires after == world.(slots := world.slots[o := world.slots[o] + 1],
                               vars := world.vars[v := world.vars[v].(lexicalBound := true, slot := world.slots[o])])
      modifies this`world, varScope`slotIndex, variable`lexicalBound, variable`vreg
      ensures Valid() && vars == old(vars) && world == after
    {
      assert ScopeAt(o);
      OtherScopes(o);
      var slot := varScope.NextSlot();
      variable.BindLexEnvSlot(slot);
      world := after;
      forall i | 0 <= i < |tree| ensures ScopeAt(i) {
        assert old(ScopeAt(i));
      }
    }

    /** Scope objects are distinct. */
    lemma OtherScopes(o: nat)
      requires o < |tree| && forall i :: 0 <= i < |tree| ==> StaticAt(i)
      ensures forall i :: 0 <= i < |tree| && i != o ==> i < |scopes| && o < |scopes| && scopes[i] != scopes[o]
    {
      assert StaticAt(o);
      forall i | 0 <= i < |tree| && i != o ensures i < |scopes| && o < |scopes| && scopes[i] != scopes[o] {
        assert StaticAt(i);
      }
    }

    /** One identifier reference. */
    method LookupReference(scope: Scope, name: string)
      requires Valid() && Has(scope)
      modifies this`world, scopes`slotIndex, vars`lexicalBound, vars`vreg
      ensures Valid() && vars == old(vars)
      ensures world == C.LookupReference(tree, old(world), C.Reference(scope.id, name))
    {
      var found, level, _, variable := scope.Find(name, this);
      if level == 0 || variable == null {
        return;
      }
      SetLexical(variable, found, L.Find(tree, world, name, scope.id).variable);
    }

    /** The reference pass: every identifier reference of the program, in order. */
    method ResolveReferences(references: seq<(Scope, string)>)
      requires Valid() && forall k :: 0 <= k < |references| ==> Has(references[k].0)
      modifies this`world, scopes`slotIndex, vars`lexicalBound, vars`vreg
      ensures Valid() && vars == old(vars)
      ensures world == C.ResolveAll(tree, old(world), References(references))
    {
      assert References(references[..0]) == [];
      for k := 0 to |references|
        invariant Valid() && vars == old(vars)
        invariant world == C.ResolveAll(tree, old(world), References(references[..k]))
      {
        assert References(references[..k + 1])[..k] == References(references[..k]);
        LookupReference(references[k].0, references[k].1);
      }
      assert references[..|references|] == references;
    }

    ghost function References(references: seq<(Scope, string)>): (es: seq<C.Reference>)
      requires |scopes| == |tree| && forall k :: 0 <= k < |references| ==> Has(references[k].0)
      ensures C.InTree(tree, es)
    {
      var es := seq(|references|, k requires 0 <= k < |references| => C.Reference(references[k].0.id, references[k].1));
      assert forall k :: 0 <= k < |es| ==> Has(references[k].0) && es[k].scope == references[k].0.id;
      es
    }

    // ----- hidden parameters

    ghost function State(): M.State
      reads this`world, this`paramIds
    {
      M.State(world, paramIds)
    }

    /** The parameter list of scope `i` holds the variables that the state names. */
    ghost predicate ParamsAt(i: nat)
      reads this`paramIds, this`vars, scopes`params
    {
      && i < |scopes| == |paramIds| && |scopes[i].params| == |paramIds[i]|
      && forall k :: 0 <= k < |paramIds[i]| ==> paramIds[i][k] < |vars| && scopes[i].params[k] == vars[paramIds[i][k]]
    }

    ghost predicate ParamsMatch()
      reads this`paramIds, this`vars, scopes`params
    {
      |paramIds| == |scopes| && forall i :: 0 <= i < |scopes| ==> ParamsAt(i)
    }

    ghost predicate MayAdd(scope: Scope, name: string)
      reads this`world, this`paramIds
    {
      && Has(scope) && M.StateOf(tree, State()) && |scopes| == |tree| && M.IsFunction(tree, scope.id)
      && (tree[scope.id].kind == FUNCTION ==>
            (name in world.bindings[scope.id] <==> name in world.bindings[ParamScopeOf(tree, scope.id)]))
    }

    /** One hidden parameter, put in front of the list and bound in the scopes of the function. */
    method AddMandatoryParam(scope: Scope, name: string)
      requires Valid() && ParamsMatch() && MayAdd(scope, name)
      modifies this`world, this`vars, this`paramIds, scopes`bindings, scopes`params
      ensures Valid() && ParamsMatch()
      ensures State() == M.AddMandatoryParam(tree, old(State()), scope.id, name)
    {
      assert StaticAt(scope.id);
      var param := new LocalVariable(name, true, scope.id);
      BindParam(scope, param);
      forall i | 0 <= i < |scopes| ensures ParamsAt(i) {
        assert old(ParamsAt(i));
      }
      PushParam(scope, param);
    }

    method BindParam(scope: Scope, param: LocalVariable)
      requires Valid() && MayAdd(scope, param.name) && param !in vars
      requires param.View() == L.Variable(param.name, true, scope.id, false, 0)
      modifies this`world, this`vars, scopes`bindings
      ensures Valid() && vars == old(vars) + [param]
      ensures world == M.AddMandatoryParam(tree, old(State()), scope.id, param.name).w
    {
      StoreBinding(scope, param, M.AddMandatoryParam(tree, State(), scope.id, param.name).w);
    }

    /** What one more parameter of function `f` does to the world. */
    ghost predicate OneMoreParam(after: L.World, f: nat, name: string)
      reads this`world
    {
      && L.WorldOf(tree, world) && L.WorldOf(tree, after) && f < |tree| && after.slots == world.slots
      && after.vars == world.vars + [L.Variable(name, true, f, false, 0)]
      && forall i :: 0 <= i < |tree| ==>
           after.bindings[i] == if BindsParam(i, f) && name !in world.bindings[i]
                                then world.bindings[i][name := |world.vars|] else world.bindings[i]
    }

    method StoreBinding(scope: Scope, param: LocalVariable, ghost after: L.World)
      requires Valid() && Has(scope) && |scopes| == |tree| && M.IsFunction(tree, scope.id) && param !in vars
      requires param.View() == L.Variable(param.name, true, scope.id, false, 0)
      requires OneMoreParam(after, scope.id, param.name)
      modifies this`world, this`vars, scopes`bindings
      ensures Valid() && vars == old(vars) + [param] && world == after
    {
      InsertInScopes(scope, param);
      vars := vars + [param];
      world := after;
      forall i | 0 <= i < |tree| ensures ScopeAt(i) {
        assert old(ScopeAt(i)) && StaticAt(i);
        BindingsMatchMore(old(scopes[i].bindings), old(world).bindings[i], old(vars), param);
      }
    }

    ghost predicate BindsParam(i: nat, f: nat)
      requires WellFormed(tree) && i < |tree| && f < |tree|
    {
      i == f || (tree[f].kind == FUNCTION && i == ParamScopeOf(tree, f))
    }

    /** In the scope of the function and in its parameter scope. */
    method InsertInScopes(scope: Scope, param: LocalVariable)
      requires Valid() && Has(scope) && |scopes| == |tree| && M.IsFunction(tree, scope.id)
      modifies scopes`bindings
      ensures forall i :: 0 <= i < |tree| ==>
                scopes[i].bindings ==
                if BindsParam(i, scope.id) && param.name !in old(scopes[i].bindings)
                then old(scopes[i].bindings)[param.name := param] else old(scopes[i].bindings)
    {
      ghost var f := scope.id;
      assert StaticAt(f) && WellFormedAt(tree, f);
      InsertBinding(scope, param);
      if scope.kind == FUNCTION {
        assert StaticAt(ParamScopeOf(tree, f));
        InsertBinding(scope.parent, param);
      }
      forall i | 0 <= i < |tree| && !BindsParam(i, f) ensures scopes[i].bindings == old(scopes[i].bindings) {
        assert StaticAt(i) && (scope.kind == FUNCTION ==> StaticAt(ParamScopeOf(tree, f)));
      }
    }

    /** The map's insertion: a name that is bound already keeps its variable. */
    static method InsertBinding(scope: Scope, param: LocalVariable)
      modifies scope`bindings
      ensures scope.bindings ==
        if param.name in old(scope.bindings) then old(scope.bindings) else old(scope.bindings)[param.name := param]
    {
      if param.name !in scope.bindings {
        scope.bindings := scope.bindings[param.name := param];
      }
    }

    method PushParam(scope: Scope, param: LocalVariable)
      requires Valid() && Has(scope) && vars != [] && vars[|vars| - 1] == param && ParamsMatch()
      modifies this`paramIds, scope`params
      ensures Valid() && ParamsMatch()
      ensures paramIds == old(paramIds)[scope.id := [|vars| - 1] + old(paramIds)[scope.id]]
    {
      ghost var f := scope.id;
      assert ParamsAt(f) && StaticAt(f);
      scope.params := [param] + scope.params;
      paramIds := paramIds[f := [|vars| - 1] + paramIds[f]];
      forall i | 0 <= i < |tree| ensures ParamsAt(i) {
        assert old(ParamsAt(i));
        assert StaticAt(i);
        assert i != f ==> scopes[i] != scope;
      }
    }

    /** A whole table of hidden parameters, from its last name to its first. */
    method AddMandatoryParams(scope: Scope, names: seq<string>)
      requires Valid() && ParamsMatch() && Has(scope) && M.StateOf(tree, State()) && M.IsFunction(tree, scope.id)
      requires M.NoneBound(tree, world, scope.id, names) && M.Distinct(names)
      modifies this`world, this`vars, this`paramIds, scopes`bindings, scopes`params
      ensures Valid() && ParamsMatch()
      ensures State() == M.AddMandatoryParams(tree, old(State()), scope.id, names)
    {
      ghost var s0, f := State(), scope.id;
      for k := |names| downto 0
        invariant Valid() && ParamsMatch() && M.StateOf(tree, s0) && M.NoneBound(tree, s0.w, f, names)
        invariant State() == M.AddMandatoryParams(tree, s0, f, names[k..])
      {
        assert names[k..][1..] == names[k + 1..];
        assert names[k] !in names[k + 1..];
        assert StaticAt(f);
        AddMandatoryParam(scope, names[k]);
      }
      assert names[0..] == names;
    }
  }
}
