/** The dependency resolver: a queue of records to look at, the set of records met, and the relation it builds, step
    by step until the queue is empty. */
module DepsResolver {
  import opened Options
  import opened DepsGraph

  type Relation = map<string, set<string>>

  /** A relation as the set of its pairs of program key and record. */
  function Pairs(relation: Relation): set<(string, string)> {
    set k, r | k in relation && r in relation[k] :: (k, r)
  }

  class DepsRelationResolver {
    const build: Build
    const entries: seq<string>
    var resolvedDepsRelation: Relation
    var depsToBeResolved: seq<string>
    var resolvedRecords: set<string>
    var collectedCommonjsJsonRecords: set<string>

    constructor (build: Build, entries: seq<string>, relation: Relation)
      ensures this.build == build && this.entries == entries && resolvedDepsRelation == relation
      ensures depsToBeResolved == [] && resolvedRecords == {} && collectedCommonjsJsonRecords == {}
    {
      this.build, this.entries, resolvedDepsRelation := build, entries, relation;
      depsToBeResolved, resolvedRecords, collectedCommonjsJsonRecords := [], {}, {};
    }

    method AddToRelation(key: string, record: string)
      modifies this`resolvedDepsRelation
      ensures Pairs(resolvedDepsRelation) == Pairs(old(resolvedDepsRelation)) + {(key, record)}
    {
      var records: set<string> := if key in resolvedDepsRelation then resolvedDepsRelation[key] else {};
      resolvedDepsRelation := resolvedDepsRelation[key := records + {record}];
    }

    // ----- the fill step

    /** Looks at the fields in order until one decides. */
    method CollectCommonjsAndJsonRecords(fields: seq<Field>, key: string, record: string) returns (special: bool)
      modifies this`resolvedDepsRelation, this`collectedCommonjsJsonRecords
      ensures special == MarksSpecial(fields)
      ensures collectedCommonjsJsonRecords == old(collectedCommonjsJsonRecords) + (if special then {record} else {})
      ensures Pairs(resolvedDepsRelation) ==
              Pairs(old(resolvedDepsRelation))
              + (if special && record !in old(collectedCommonjsJsonRecords) then {(key, record)} else {})
    {
      special := false;
      for i := 0 to |fields|
        invariant MarksSpecial(fields) == MarksSpecial(fields[i..])
        invariant collectedCommonjsJsonRecords == old(collectedCommonjsJsonRecords)
        invariant resolvedDepsRelation == old(resolvedDepsRelation)
      {
        var field := fields[i];
        assert fields[i..][1..] == fields[i + 1..];
        if field.name != JSON_FILE_CONTENT {
          if !Contains(field.name, IS_COMMONJS) {
            continue;
          }
          if field.value == None || !field.isU8 {
            return false;
          }
          if field.value.value == 0 {
            continue;
          }
        }
        if record !in collectedCommonjsJsonRecords {
          collectedCommonjsJsonRecords := collectedCommonjsJsonRecords + {record};
          AddToRelation(key, record);
        }
        return true;
      }
    }

    method FillRecord2ProgramMap() returns (record2ProgramMap: map<string, string>)
      requires collectedCommonjsJsonRecords == {}
      modifies this`resolvedDepsRelation, this`collectedCommonjsJsonRecords
      ensures record2ProgramMap == RecordMap(build.programs)
      ensures Pairs(resolvedDepsRelation) == Pairs(old(resolvedDepsRelation)) + Preset(build.programs)
    {
      var ps := build.programs;
      record2ProgramMap := map[];
      for i := 0 to |ps|
        invariant record2ProgramMap == RecordMap(ps[..i]) && collectedCommonjsJsonRecords == CutNames(ps[..i])
        invariant Pairs(resolvedDepsRelation) == Pairs(old(resolvedDepsRelation)) + Preset(ps[..i])
      {
        assert ps[..i + 1][..i] == ps[..i];
        record2ProgramMap := FillProgram(ps[i], record2ProgramMap);
        assert CutNames(ps[..i + 1]) == CutNames(ps[..i]) + OwnCut(ps[i]) by { CutNamesSnoc(ps, i); }
      }
      assert ps[..|ps|] == ps;
    }

    static function OwnCut(p: Program): set<string> {
      if !IsNpm(p) && Cut(p.records) < |p.records| then {p.records[Cut(p.records)].name} else {}
    }

    static lemma CutNamesSnoc(ps: seq<Program>, i: nat)
      requires i < |ps|
      ensures CutNames(ps[..i + 1]) == CutNames(ps[..i]) + OwnCut(ps[i])
    {
      assert ps[..i + 1] == ps[..i] + [ps[i]];
    }

    /** One record of a program; `special` ends the program. */
    method FillRecord(p: Program, record: Record, owners: map<string, string>)
      returns (owners': map<string, string>, special: bool)
      requires record.fields != []
      modifies this`resolvedDepsRelation, this`collectedCommonjsJsonRecords
      ensures special == (!IsNpm(p) && IsSpecial(record))
      ensures owners' == if IsNpm(p) || special then owners else owners[record.name := p.key]
      ensures collectedCommonjsJsonRecords
              == old(collectedCommonjsJsonRecords) + (if special then {record.name} else {})
      ensures Pairs(resolvedDepsRelation) == Pairs(old(resolvedDepsRelation)) +
                (if IsNpm(p) || (special && record.name !in old(collectedCommonjsJsonRecords))
                 then {(p.key, record.name)} else {})
    {
      owners', special := owners, false;
      if Contains(p.key, NPM_ENTRIES) {
        AddToRelation(p.key, record.name);
        return;
      }
      special := CollectCommonjsAndJsonRecords(record.fields, p.key, record.name);
      if special {
        return;
      }
      owners' := owners'[record.name := p.key];
    }

    /** The records of one program, up to the first special one. */
    method FillProgram(p: Program, owners: map<string, string>) returns (owners': map<string, string>)
      modifies this`resolvedDepsRelation, this`collectedCommonjsJsonRecords
      ensures owners' == owners + (map n | n in OrdinaryNames(p) :: p.key)
      ensures Pairs(resolvedDepsRelation) ==
              Pairs(old(resolvedDepsRelation)) + OwnPreset(p, old(collectedCommonjsJsonRecords))
      ensures collectedCommonjsJsonRecords == old(collectedCommonjsJsonRecords) + OwnCut(p)
    {
      owners' := owners;
      ghost var pairs, seen := Pairs(resolvedDepsRelation), collectedCommonjsJsonRecords;
      var j := 0;
      while j < |p.records|
        invariant j <= |p.records| && (!IsNpm(p) ==> j <= Cut(p.records))
        invariant Filled(p, j, owners, pairs, owners', Pairs(resolvedDepsRelation))
        invariant collectedCommonjsJsonRecords == seen
      {
        var special;
        owners', special := FillNext(p, j, owners', owners, pairs);
        if special {
          return;
        }
        j := j + 1;
      }
      FilledAll(p, owners, pairs, owners', Pairs(resolvedDepsRelation), seen);
    }

    /** What the first `j` records did: one fact, written as an equation so that it is proved in one piece. */
    static ghost predicate Filled(p: Program, j: nat, owners: map<string, string>, pairs: set<(string, string)>,
                                  owners': map<string, string>, pairs': set<(string, string)>)
      requires j <= |p.records|
    {
      true == (owners' == OwnersAfter(p, owners, j) && pairs' == pairs + NpmPairs(p, j))
    }

    static lemma FilledAll(p: Program, owners: map<string, string>, pairs: set<(string, string)>,
                           owners': map<string, string>, pairs': set<(string, string)>, seen: set<string>)
      requires Filled(p, |p.records|, owners, pairs, owners', pairs') && (IsNpm(p) || Cut(p.records) == |p.records|)
      ensures owners' == owners + (map n | n in OrdinaryNames(p) :: p.key)
      ensures pairs' == pairs + OwnPreset(p, seen) && OwnCut(p) == {}
    {
      assert p.records[..|p.records|] == p.records;
    }

    /** The record at `j`, when there is something in it. */
    method FillNext(p: Program, j: nat, now: map<string, string>, ghost owners: map<string, string>,
                    ghost pairs: set<(string, string)>)
      returns (owners': map<string, string>, special: bool)
      requires j < |p.records| && (!IsNpm(p) ==> j <= Cut(p.records))
      requires Filled(p, j, owners, pairs, now, Pairs(resolvedDepsRelation))
      modifies this`resolvedDepsRelation, this`collectedCommonjsJsonRecords
      ensures !special ==>
                && (!IsNpm(p) ==> j + 1 <= Cut(p.records))
                && Filled(p, j + 1, owners, pairs, owners', Pairs(resolvedDepsRelation))
                && collectedCommonjsJsonRecords == old(collectedCommonjsJsonRecords)
      ensures special ==>
                && owners' == owners + (map n | n in OrdinaryNames(p) :: p.key)
                && Pairs(resolvedDepsRelation) == pairs + OwnPreset(p, old(collectedCommonjsJsonRecords))
                && collectedCommonjsJsonRecords == old(collectedCommonjsJsonRecords) + OwnCut(p)
    {
      FilledOne(p, owners, j);
      owners', special := now, false;
      if p.records[j].fields != [] {
        owners', special := FillRecord(p, p.records[j], now);
        if special {
          FilledToCut(p, j, owners, pairs, now, old(Pairs(resolvedDepsRelation)));
        }
      }
    }

    static lemma FilledToCut(p: Program, j: nat, owners: map<string, string>, pairs: set<(string, string)>,
                             owners': map<string, string>, pairs': set<(string, string)>)
      requires j < |p.records| && !IsNpm(p) && j <= Cut(p.records) && IsSpecial(p.records[j])
      requires Filled(p, j, owners, pairs, owners', pairs')
      ensures j == Cut(p.records) && pairs' == pairs && owners' == owners + (map n | n in OrdinaryNames(p) :: p.key)
      ensures OwnCut(p) == {p.records[j].name}
    {
    }

    static function OwnersAfter(p: Program, owners: map<string, string>, j: nat): map<string, string>
      requires j <= |p.records|
    {
      if IsNpm(p) then owners else owners + map n | n in NonEmptyNames(p.records[..j]) :: p.key
    }

    static function NpmPairs(p: Program, j: nat): set<(string, string)>
      requires j <= |p.records|
    {
      if IsNpm(p) then set n | n in NonEmptyNames(p.records[..j]) :: (p.key, n) else {}
    }

    static lemma NamesSnoc(p: Program, j: nat)
      requires j < |p.records|
      ensures NonEmptyNames(p.records[..j + 1])
              == NonEmptyNames(p.records[..j]) + (if p.records[j].fields != [] then {p.records[j].name} else {})
    {
      assert p.records[..j + 1] == p.records[..j] + [p.records[j]];
    }

    static lemma FilledOne(p: Program, owners: map<string, string>, j: nat)
      requires j < |p.records|
      ensures var r := p.records[j];
        && NpmPairs(p, j + 1) == NpmPairs(p, j) + (if IsNpm(p) && r.fields != [] then {(p.key, r.name)} else {})
        && OwnersAfter(p, owners, j + 1)
           == (if IsNpm(p) || r.fields == [] then OwnersAfter(p, owners, j)
               else OwnersAfter(p, owners, j)[r.name := p.key])
    {
      NamesSnoc(p, j);
      var names, names' := NonEmptyNames(p.records[..j]), NonEmptyNames(p.records[..j + 1]);
      if p.records[j].fields != [] {
        OneMoreName(owners, p.key, names, p.records[j].name);
      }
    }

    static lemma OneMoreName(owners: map<string, string>, key: string, names: set<string>, name: string)
      ensures owners + (map n | n in names + {name} :: key) == (owners + (map n | n in names :: key))[name := key]
      ensures (set n | n in names + {name} :: (key, n)) == (set n | n in names :: (key, n)) + {(key, name)}
    {
    }

    // ----- the search

    /** A record met for the first time joins the queue. */
    method CollectDepsIfNeeded(ohmurl: string)
      modifies this`depsToBeResolved, this`resolvedRecords
      ensures Grown(old(depsToBeResolved), old(resolvedRecords), Targets([ohmurl], build.externalPkgNames),
                    depsToBeResolved, resolvedRecords)
    {
      var t := Target(ohmurl, build.externalPkgNames);
      if t.Some? && t.value !in resolvedRecords {
        resolvedRecords := resolvedRecords + {t.value};
        depsToBeResolved := depsToBeResolved + [t.value];
      }
    }

    /** From one queue and set to the next: `deps` have been met, and the new ones among them are in the queue, behind
        the old ones. */
    static ghost predicate Grown(queue: seq<string>, met: set<string>, deps: set<string>,
                                 queue': seq<string>, met': set<string>) {
      && met' == met + deps
      && |queue'| >= |queue| && queue'[..|queue|] == queue
      && Elements(queue'[|queue|..]) == deps - met
      && (deps <= met ==> queue' == queue)
    }

    static function Elements(s: seq<string>): set<string> {
      set r | r in s
    }

    static lemma GrownTwice(q: seq<string>, m: set<string>, d: set<string>, q': seq<string>, m': set<string>,
                            d': set<string>, q'': seq<string>, m'': set<string>)
      requires Grown(q, m, d, q', m') && Grown(q', m', d', q'', m'')
      ensures Grown(q, m, d + d', q'', m'')
    {
      var first, second := q'[|q|..], q''[|q'|..];
      assert q'' == q' + second && q' == q + first;
      assert q''[|q|..] == first + second;
      assert Elements(first + second) == Elements(first) + Elements(second);
    }

    static lemma GrownByNothing(q: seq<string>, m: set<string>)
      ensures Grown(q, m, {}, q, m)
    {
    }

    method CollectImports(imports: seq<string>)
      modifies this`depsToBeResolved, this`resolvedRecords
      ensures Grown(old(depsToBeResolved), old(resolvedRecords), Targets(imports, build.externalPkgNames),
                    depsToBeResolved, resolvedRecords)
    {
      var ext := build.externalPkgNames;
      ghost var q, m := depsToBeResolved, resolvedRecords;
      GrownByNothing(q, m);
      for i := 0 to |imports|
        invariant Grown(q, m, Targets(imports[..i], ext), depsToBeResolved, resolvedRecords)
      {
        ghost var q', m' := depsToBeResolved, resolvedRecords;
        CollectDepsIfNeeded(imports[i]);
        GrownTwice(q, m, Targets(imports[..i], ext), q', m', Targets([imports[i]], ext), depsToBeResolved,
                   resolvedRecords);
        TargetsSnoc(imports, i, ext);
      }
      assert imports[..|imports|] == imports;
    }

    static lemma TargetsSnoc(imports: seq<string>, i: nat, ext: set<string>)
      requires i < |imports|
      ensures Targets(imports[..i + 1], ext) == Targets(imports[..i], ext) + Targets([imports[i]], ext)
    {
      assert imports[..i + 1] == imports[..i] + [imports[i]];
    }

    method CollectStaticImportDepsRelation(p: Program, record: string)
      modifies this`depsToBeResolved, this`resolvedRecords
      ensures Grown(old(depsToBeResolved), old(resolvedRecords), StaticDeps(p, record, build.externalPkgNames),
                    depsToBeResolved, resolvedRecords)
    {
      ghost var ext := build.externalPkgNames;
      ghost var q, m := depsToBeResolved, resolvedRecords;
      GrownByNothing(q, m);
      for i := 0 to |p.records|
        invariant Grown(q, m, StaticDeps(p.(records := p.records[..i]), record, ext), depsToBeResolved, resolvedRecords)
      {
        StaticDepsSnoc(p, i, record, ext);
        if !Contains(p.records[i].key, record) {
          continue;
        }
        ghost var q', m' := depsToBeResolved, resolvedRecords;
        CollectImports(p.records[i].imports);
        GrownTwice(q, m, StaticDeps(p.(records := p.records[..i]), record, ext), q', m',
                   Targets(p.records[i].imports, ext), depsToBeResolved, resolvedRecords);
      }
      assert p.records[..|p.records|] == p.records;
    }

    static lemma StaticDepsSnoc(p: Program, i: nat, record: string, ext: set<string>)
      requires i < |p.records|
      ensures StaticDeps(p.(records := p.records[..i + 1]), record, ext)
              == StaticDeps(p.(records := p.records[..i]), record, ext)
                 + (if Contains(p.records[i].key, record) then Targets(p.records[i].imports, ext) else {})
    {
      var rs := p.records[..i + 1];
      assert rs == p.records[..i] + [p.records[i]];
      assert p.records[i] in rs;
    }

    method CollectDynamicImportDepsRelation(p: Program, record: string)
      modifies this`depsToBeResolved, this`resolvedRecords
      ensures Grown(old(depsToBeResolved), old(resolvedRecords), DynamicDeps(p, record, build.externalPkgNames),
                    depsToBeResolved, resolvedRecords)
    {
      ghost var ext := build.externalPkgNames;
      ghost var q, m := depsToBeResolved, resolvedRecords;
      GrownByNothing(q, m);
      for i := 0 to |p.functions|
        invariant Grown(q, m, DynamicDeps(p.(functions := p.functions[..i]), record, ext), depsToBeResolved,
                        resolvedRecords)
      {
        DynamicDepsSnoc(p, i, record, ext);
        if !Contains(p.functions[i].name, record) {
          continue;
        }
        ghost var q', m' := depsToBeResolved, resolvedRecords;
        CollectImports(p.functions[i].imports);
        GrownTwice(q, m, DynamicDeps(p.(functions := p.functions[..i]), record, ext), q', m',
                   Targets(p.functions[i].imports, ext), depsToBeResolved, resolvedRecords);
      }
      assert p.functions[..|p.functions|] == p.functions;
    }

    static lemma DynamicDepsSnoc(p: Program, i: nat, record: string, ext: set<string>)
      requires i < |p.functions|
      ensures DynamicDeps(p.(functions := p.functions[..i + 1]), record, ext)
              == DynamicDeps(p.(functions := p.functions[..i]), record, ext)
                 + (if Contains(p.functions[i].name, record) then Targets(p.functions[i].imports, ext) else {})
    {
      var fs := p.functions[..i + 1];
      assert fs == p.functions[..i] + [p.functions[i]];
      assert p.functions[i] in fs;
    }

    /** The known records of a set, with their programs. */
    static function KnownPairs(records: set<string>, owners: map<string, string>): set<(string, string)> {
      set r | r in records && r in owners :: (owners[r], r)
    }

    /** What the search keeps, where `done` are the records that have been taken from the queue: one fact, written as
        an equation so that it is proved in one piece. */
    ghost predicate Searching(done: set<string>, pairs: set<(string, string)>)
      reads this`depsToBeResolved, this`resolvedRecords, this`resolvedDepsRelation
    {
      true ==
      (&& resolvedRecords == done + Elements(depsToBeResolved)
      && (forall r :: r in done ==> Successors(build, r) <= resolvedRecords)
      && (forall r :: r in resolvedRecords ==> Reachable(build, entries, r))
      && resolvedRecords <= Universe(build) + Elements(entries)
      && Pairs(resolvedDepsRelation) == pairs + KnownPairs(done, RecordMap(build.programs)))
    }

    /** Takes one record from the queue. */
    method ResolveRecord(record2ProgramMap: map<string, string>, ghost done: set<string>,
                         ghost pairs: set<(string, string)>)
      returns (ok: bool, ghost done': set<string>)
      requires record2ProgramMap == RecordMap(build.programs) && depsToBeResolved != [] && Searching(done, pairs)
      modifies this`depsToBeResolved, this`resolvedRecords, this`resolvedDepsRelation
      ensures ok && done' == done + {old(depsToBeResolved)[0]} && Searching(done', pairs)
      ensures resolvedRecords > old(resolvedRecords)
              || (resolvedRecords == old(resolvedRecords) && |depsToBeResolved| < old(|depsToBeResolved|))
    {
      var record := depsToBeResolved[0];
      depsToBeResolved := depsToBeResolved[1..];
      done' := done + {record};
      ok := true;
      ghost var q, m := depsToBeResolved, resolvedRecords;
      assert m == done' + Elements(q);
      ok := CollectRecord(record2ProgramMap, record);
      KnownPairsSnoc(done, record, record2ProgramMap);
      SearchStep(done, record, pairs, q, m);
    }

    static lemma KnownPairsSnoc(done: set<string>, record: string, owners: map<string, string>)
      ensures KnownPairs(done + {record}, owners) == KnownPairs(done, owners) + KnownPairs({record}, owners)
    {
    }

    /** Enters a known record in the relation and collects its imports; an external record is skipped. */
    method CollectRecord(record2ProgramMap: map<string, string>, record: string) returns (ok: bool)
      requires record2ProgramMap == RecordMap(build.programs)
      modifies this`depsToBeResolved, this`resolvedRecords, this`resolvedDepsRelation
      ensures ok
      ensures Grown(old(depsToBeResolved), old(resolvedRecords), Successors(build, record), depsToBeResolved,
                    resolvedRecords)
      ensures Pairs(resolvedDepsRelation) == Pairs(old(resolvedDepsRelation)) + KnownPairs({record}, record2ProgramMap)
    {
      ghost var q, m := depsToBeResolved, resolvedRecords;
      GrownByNothing(q, m);
      if record !in record2ProgramMap {
        assert KnownPairs({record}, record2ProgramMap) == {};
        return true;
      }
      assert KnownPairs({record}, record2ProgramMap) == {(record2ProgramMap[record], record)};
      ghost var i := RecordMapHasOwner(build.programs, record);
      RecordMapIsLast(build.programs, record, i);
      var p := ProgramOf(build.programs, record2ProgramMap[record]);
      if p == None {
        return false;
      }
      AddToRelation(record2ProgramMap[record], record);
      CollectStaticImportDepsRelation(p.value, record);
      ghost var q', m' := depsToBeResolved, resolvedRecords;
      CollectDynamicImportDepsRelation(p.value, record);
      GrownTwice(q, m, StaticDeps(p.value, record, build.externalPkgNames), q', m',
                 DynamicDeps(p.value, record, build.externalPkgNames), depsToBeResolved, resolvedRecords);
      return true;
    }

    /** After the record's imports were collected the search keeps its promise. */
    lemma SearchStep(done: set<string>, record: string, pairs: set<(string, string)>, q: seq<string>, m: set<string>)
      requires Grown(q, m, Successors(build, record), depsToBeResolved, resolvedRecords)
      requires m == done + {record} + Elements(q) && record in m && m <= Universe(build) + Elements(entries)
      requires forall r :: r in done ==> Successors(build, r) <= m
      requires forall r :: r in m ==> Reachable(build, entries, r)
      requires Pairs(resolvedDepsRelation) == pairs + KnownPairs(done + {record}, RecordMap(build.programs))
      ensures Searching(done + {record}, pairs)
    {
      SuccessorsInUniverse(build, record);
      SuccessorsAreReachable(build, entries, record);
      QueueGrows(q, m, Successors(build, record), depsToBeResolved, resolvedRecords);
    }

    static lemma SuccessorsAreReachable(b: Build, entries: seq<string>, record: string)
      requires Reachable(b, entries, record)
      ensures forall r :: r in Successors(b, record) ==> Reachable(b, entries, r)
    {
      forall r | r in Successors(b, record) ensures Reachable(b, entries, r) {
        ReachableStep(b, entries, record, r);
      }
    }

    static lemma QueueGrows(q: seq<string>, m: set<string>, deps: set<string>, q': seq<string>, m': set<string>)
      requires Grown(q, m, deps, q', m')
      ensures m' == m + deps && Elements(q') == Elements(q) + (deps - m)
    {
      assert q' == q + q'[|q|..];
    }

    /** Works the queue off. */
    method ResolveQueue(record2ProgramMap: map<string, string>, ghost done: set<string>,
                        ghost pairs: set<(string, string)>)
      returns (ok: bool, ghost done': set<string>)
      requires record2ProgramMap == RecordMap(build.programs) && Searching(done, pairs)
      modifies this`depsToBeResolved, this`resolvedRecords, this`resolvedDepsRelation
      ensures ok && depsToBeResolved == [] && resolvedRecords >= old(resolvedRecords) && Searching(done', pairs)
    {
      ok, done' := true, done;
      while depsToBeResolved != []
        invariant ok && Searching(done', pairs) && resolvedRecords >= old(resolvedRecords)
        decreases Universe(build) + Elements(entries) - resolvedRecords, |depsToBeResolved|
      {
        ok, done' := ResolveRecord(record2ProgramMap, done', pairs);
        if !ok {
          return;
        }
      }
    }

    method ResolveEntry(entry: string, record2ProgramMap: map<string, string>, ghost done: set<string>,
                        ghost pairs: set<(string, string)>)
      returns (ok: bool, ghost done': set<string>)
      requires record2ProgramMap == RecordMap(build.programs) && entry in entries
      requires depsToBeResolved == [] && Searching(done, pairs)
      modifies this`depsToBeResolved, this`resolvedRecords, this`resolvedDepsRelation
      ensures ok && depsToBeResolved == [] && resolvedRecords >= old(resolvedRecords) + {entry}
              && Searching(done', pairs)
    {
      EntryIsReachable(build, entries, entry);
      depsToBeResolved := depsToBeResolved + [entry];
      resolvedRecords := resolvedRecords + {entry};
      assert Elements(depsToBeResolved) == {entry};
      ok, done' := ResolveQueue(record2ProgramMap, done, pairs);
    }

    /** What a search from the entries leaves behind: the records met are the reachable ones, and the relation has the
        preset pairs and every known record met under the program it belongs to. */
    static ghost predicate Outcome(b: Build, entries: seq<string>, before: set<(string, string)>,
                                   met: set<string>, after: set<(string, string)>) {
      && (forall r :: r in met <==> Reachable(b, entries, r))
      && after == before + Preset(b.programs) + KnownPairs(met, RecordMap(b.programs))
    }

    /** Two searches from the same set of entries, named in whatever order and however often, end in the same
        relation. */
    static lemma SearchIgnoresOrder(b: Build, entries: seq<string>, entries': seq<string>,
                                    before: set<(string, string)>,
                                    met: set<string>, after: set<(string, string)>,
                                    met': set<string>, after': set<(string, string)>)
      requires forall e :: e in entries <==> e in entries'
      requires Outcome(b, entries, before, met, after) && Outcome(b, entries', before, met', after')
      ensures met == met' && after == after'
    {
      forall r ensures r in met <==> r in met' {
        ReachableIgnoresOrder(b, entries, entries', r);
      }
      assert met == met';
    }

    /** The search never fails; the records it meets are exactly the reachable ones, and the relation is the preset one
        with every known reachable record added under the program it belongs to. */
    method Resolve() returns (ok: bool)
      requires depsToBeResolved == [] && resolvedRecords == {} && collectedCommonjsJsonRecords == {}
      modifies this
      ensures ok && Closed(build, resolvedRecords)
      ensures Outcome(build, entries, Pairs(old(resolvedDepsRelation)), resolvedRecords, Pairs(resolvedDepsRelation))
    {
      var record2ProgramMap := FillRecord2ProgramMap();
      ghost var pairs := Pairs(resolvedDepsRelation);
      SearchBegins(pairs);
      ghost var done;
      ok, done := ResolveEntries(record2ProgramMap, pairs);
      SearchDone(done, pairs);
    }

    lemma SearchBegins(pairs: set<(string, string)>)
      requires depsToBeResolved == [] && resolvedRecords == {} && Pairs(resolvedDepsRelation) == pairs
      ensures Searching({}, pairs)
    {
    }

    method ResolveEntries(record2ProgramMap: map<string, string>, ghost pairs: set<(string, string)>)
      returns (ok: bool, ghost done: set<string>)
      requires record2ProgramMap == RecordMap(build.programs) && depsToBeResolved == [] && Searching({}, pairs)
      modifies this`depsToBeResolved, this`resolvedRecords, this`resolvedDepsRelation
      ensures ok && depsToBeResolved == [] && Searching(done, pairs) && Elements(entries) <= resolvedRecords
    {
      done := {};
      ok := true;
      for i := 0 to |entries|
        invariant ok && depsToBeResolved == [] && Searching(done, pairs)
        invariant Elements(entries[..i]) <= resolvedRecords
      {
        ElementsSnoc(entries, i);
        ok, done := ResolveEntry(entries[i], record2ProgramMap, done, pairs);
        if !ok {
          return;
        }
      }
      assert entries[..|entries|] == entries;
    }

    static lemma ElementsSnoc(s: seq<string>, i: nat)
      requires i < |s|
      ensures s[i] in s && Elements(s[..i + 1]) == Elements(s[..i]) + {s[i]}
    {
      assert s[..i + 1] == s[..i] + [s[i]];
    }

    lemma SearchDone(done: set<string>, pairs: set<(string, string)>)
      requires Searching(done, pairs) && depsToBeResolved == [] && Elements(entries) <= resolvedRecords
      ensures Closed(build, resolvedRecords) && done == resolvedRecords
      ensures forall r :: r in resolvedRecords <==> Reachable(build, entries, r)
    {
      assert Elements(depsToBeResolved) == {};
      assert resolvedRecords == done;
      forall r ensures r in resolvedRecords <==> Reachable(build, entries, r) {
        ClosedIsReachable(build, entries, resolvedRecords, r);
      }
    }
  }
}
