/** The import graph of the programs of one build, and what is reachable in it from the compile entries. */
module DepsGraph {
  import opened Options

  const NPM_ENTRIES := "npmEntries.txt"
  const IS_COMMONJS := "isCommonjs"
  const JSON_FILE_CONTENT := "jsonFileContent"
  const NORMALIZED_OHMURL_NOT_SO := "@normalized:N"
  const SEPARATOR := '&'
  const PREFIX := '@'
  const SLASH := '/'
  const BUNDLE_NAME_POS := 2
  const NORMALIZED_IMPORT_POS := 3
  const VERSION_POS := 4

  /** A field of a record; `value` is its initial value when it has one. */
  datatype Field = Field(name: string, value: Option<nat>, isU8: bool)

  /** A record, with the ohmurls of its static imports. */
  datatype Record = Record(key: string, name: string, fields: seq<Field>, imports: seq<string>)

  /** A function, with the ohmurls of its dynamic imports. */
  datatype Func = Func(name: string, imports: seq<string>)

  datatype Program = Program(key: string, records: seq<Record>, functions: seq<Func>)

  /** The programs in the order of their keys, and the names of external packages. */
  datatype Build = Build(programs: seq<Program>, externalPkgNames: set<string>)

  predicate Contains(s: string, part: string) {
    part <= s || (s != [] && Contains(s[1..], part))
  }

  function Split(s: string, delimiter: char): (items: seq<string>)
    ensures items != []
  {
    if s == [] then [[]]
    else
      var rest := Split(s[1..], delimiter);
      if s[0] == delimiter then [[]] + rest else [[s[0]] + rest[0]] + rest[1..]
  }

  /** The position of the first `c` in `s` from `from` on; the length when there is none. */
  function IndexOf(s: string, c: char, from: nat): (i: nat)
    requires from <= |s|
    ensures from <= i <= |s|
    decreases |s| - from
  {
    if from == |s| || s[from] == c then from else IndexOf(s, c, from + 1)
  }

  function PkgName(normalizedImport: string): string {
    var first := IndexOf(normalizedImport, SLASH, 0);
    if first == |normalizedImport| then
      // A scoped import without a slash is searched again from its start.
      ""
    else if normalizedImport[0] != PREFIX then normalizedImport[..first]
    else
      var second := IndexOf(normalizedImport, SLASH, first + 1);
      if second == |normalizedImport| then normalizedImport[..first] else normalizedImport[..second]
  }

  predicate IsExternal(ohmurl: string, externalPkgNames: set<string>) {
    var items := Split(ohmurl, SEPARATOR);
    (if |items| <= NORMALIZED_IMPORT_POS then "" else PkgName(items[NORMALIZED_IMPORT_POS])) in externalPkgNames
  }

  /** The record an ohmurl leads to, when it is one to be collected; an ohmurl has five parts. */
  function Target(ohmurl: string, externalPkgNames: set<string>): Option<string> {
    var items := Split(ohmurl, SEPARATOR);
    if Contains(ohmurl, NORMALIZED_OHMURL_NOT_SO) && !IsExternal(ohmurl, externalPkgNames) && |items| > VERSION_POS then
      Some(items[BUNDLE_NAME_POS] + [SEPARATOR] + items[NORMALIZED_IMPORT_POS] + [SEPARATOR] + items[VERSION_POS])
    else None
  }

  // ----- edges

  function Targets(imports: seq<string>, ext: set<string>): set<string> {
    set u | u in imports && Target(u, ext).Some? :: Target(u, ext).value
  }

  /** What the records of a program whose key contains `record` import. */
  function StaticDeps(p: Program, record: string, ext: set<string>): set<string> {
    set r, t | r in p.records && Contains(r.key, record) && t in Targets(r.imports, ext) :: t
  }

  function DynamicDeps(p: Program, record: string, ext: set<string>): set<string> {
    set f, t | f in p.functions && Contains(f.name, record) && t in Targets(f.imports, ext) :: t
  }

  function Deps(p: Program, record: string, ext: set<string>): set<string> {
    StaticDeps(p, record, ext) + DynamicDeps(p, record, ext)
  }

  // ----- what the fill step finds

  predicate IsNpm(p: Program) {
    Contains(p.key, NPM_ENTRIES)
  }

  /** Whether the fields mark a commonjs or json record; the first field that decides counts. */
  predicate MarksSpecial(fields: seq<Field>) {
    fields != [] &&
    var f := fields[0];
    if f.name == JSON_FILE_CONTENT then true
    else if !Contains(f.name, IS_COMMONJS) then MarksSpecial(fields[1..])
    else if f.value == None || !f.isU8 then false
    else f.value.value > 0 || MarksSpecial(fields[1..])
  }

  predicate IsSpecial(r: Record) {
    r.fields != [] && MarksSpecial(r.fields)
  }

  /** The position of the first special record; the records after it are not looked at. */
  function Cut(records: seq<Record>): (n: nat)
    ensures n <= |records| && (n < |records| ==> IsSpecial(records[n]))
    ensures forall j :: 0 <= j < n ==> !IsSpecial(records[j])
  {
    if records == [] || IsSpecial(records[0]) then 0 else 1 + Cut(records[1..])
  }

  function NonEmptyNames(records: seq<Record>): set<string> {
    set r | r in records && r.fields != [] :: r.name
  }

  /** The records of a program that take part in the search. */
  function OrdinaryNames(p: Program): set<string> {
    if IsNpm(p) then {} else NonEmptyNames(p.records[..Cut(p.records)])
  }

  /** Each record that takes part, with the last program that has it. */
  function RecordMap(ps: seq<Program>): map<string, string> {
    if ps == [] then map[]
    else
      var p := ps[|ps| - 1];
      RecordMap(ps[..|ps| - 1]) + map n | n in OrdinaryNames(p) :: p.key
  }

  /** The commonjs and json records that programs were cut at. */
  function CutNames(ps: seq<Program>): set<string> {
    set p | p in ps && !IsNpm(p) && Cut(p.records) < |p.records| :: p.records[Cut(p.records)].name
  }

  /** The relation before the search: all of the npm entries, and each special record with the first program that was
      cut at it. */
  function Preset(ps: seq<Program>): set<(string, string)> {
    if ps == [] then {} else Preset(ps[..|ps| - 1]) + OwnPreset(ps[|ps| - 1], CutNames(ps[..|ps| - 1]))
  }

  function OwnPreset(p: Program, seen: set<string>): set<(string, string)> {
    if IsNpm(p) then set n | n in NonEmptyNames(p.records) :: (p.key, n)
    else if Cut(p.records) < |p.records| && p.records[Cut(p.records)].name !in seen then
      {(p.key, p.records[Cut(p.records)].name)}
    else {}
  }

  /** The program is cut at a special record of this name. */
  predicate CutAt(p: Program, name: string) {
    !IsNpm(p) && Cut(p.records) < |p.records| && p.records[Cut(p.records)].name == name
  }

  /** Program `i` brings the record into the preset relation: as an npm entry, or as the first that is cut at it. */
  ghost predicate Presets(ps: seq<Program>, i: nat, name: string) {
    && i < |ps|
    && if IsNpm(ps[i]) then name in NonEmptyNames(ps[i].records)
       else CutAt(ps[i], name) && forall j :: 0 <= j < i ==> !CutAt(ps[j], name)
  }

  /** The preset pairs are exactly these. */
  lemma {:induction false} PresetIsExact(ps: seq<Program>, key: string, name: string)
    ensures (key, name) in Preset(ps) <==> exists i: nat :: Presets(ps, i, name) && ps[i].key == key
    decreases |ps|
  {
    if ps != [] {
      var last := |ps| - 1;
      var init := ps[..last];
      PresetIsExact(init, key, name);
      assert forall i: nat :: i < last ==> (Presets(init, i, name) <==> Presets(ps, i, name));
      LastPreset(ps, key, name);
      if (key, name) in Preset(init) {
        var i: nat :| Presets(init, i, name) && init[i].key == key;
        assert Presets(ps, i, name);
      }
    }
  }

  lemma CutBefore(ps: seq<Program>, name: string)
    ensures name in CutNames(ps) <==> exists j :: 0 <= j < |ps| && CutAt(ps[j], name)
  {
    if name in CutNames(ps) {
      var p :| p in ps && CutAt(p, name);
      var j :| 0 <= j < |ps| && ps[j] == p;
    }
    if j :| 0 <= j < |ps| && CutAt(ps[j], name) {
      assert ps[j] in ps;
    }
  }

  lemma LastPreset(ps: seq<Program>, key: string, name: string)
    requires ps != []
    ensures var last := |ps| - 1;
      (key, name) in OwnPreset(ps[last], CutNames(ps[..last])) <==> Presets(ps, last, name) && ps[last].key == key
  {
    var init := ps[..|ps| - 1];
    CutBefore(init, name);
    assert forall j :: 0 <= j < |init| ==> init[j] == ps[j];
  }

  /** Program `i` is the last one in which the record takes part. */
  ghost predicate LastWith(ps: seq<Program>, n: string, i: nat) {
    i < |ps| && n in OrdinaryNames(ps[i]) && forall j :: i < j < |ps| ==> n !in OrdinaryNames(ps[j])
  }

  /** A record belongs to the last program in which it takes part. */
  lemma {:induction false} RecordMapIsLast(ps: seq<Program>, n: string, i: nat)
    requires LastWith(ps, n, i)
    ensures n in RecordMap(ps) && RecordMap(ps)[n] == ps[i].key
    decreases |ps|
  {
    var last := |ps| - 1;
    RecordMapStep(ps, n);
    if i < last {
      LastWithFewer(ps, n, i);
      RecordMapIsLast(ps[..last], n, i);
    }
  }

  lemma RecordMapStep(ps: seq<Program>, n: string)
    requires ps != []
    ensures var p, owners := ps[|ps| - 1], RecordMap(ps[..|ps| - 1]);
      && (n in RecordMap(ps) <==> n in owners || n in OrdinaryNames(p))
      && (n in OrdinaryNames(p) ==> RecordMap(ps)[n] == p.key)
      && (n in owners && n !in OrdinaryNames(p) ==> RecordMap(ps)[n] == owners[n])
  {
  }

  lemma LastWithFewer(ps: seq<Program>, n: string, i: nat)
    requires LastWith(ps, n, i) && i < |ps| - 1
    ensures LastWith(ps[..|ps| - 1], n, i) && n !in OrdinaryNames(ps[|ps| - 1])
  {
    var init := ps[..|ps| - 1];
    forall j | i < j < |init| ensures n !in OrdinaryNames(init[j]) {
      assert n !in OrdinaryNames(ps[j]);
    }
  }

  lemma {:induction false} RecordMapHasOwner(ps: seq<Program>, n: string) returns (i: nat)
    requires n in RecordMap(ps)
    ensures LastWith(ps, n, i)
    decreases |ps|
  {
    var last := |ps| - 1;
    if n in OrdinaryNames(ps[last]) {
      i := last;
    } else {
      i := RecordMapHasOwner(ps[..last], n);
      LastWithMore(ps, n, i);
    }
  }

  lemma LastWithMore(ps: seq<Program>, n: string, i: nat)
    requires ps != [] && LastWith(ps[..|ps| - 1], n, i) && n !in OrdinaryNames(ps[|ps| - 1])
    ensures LastWith(ps, n, i)
  {
    forall j | i < j < |ps| ensures n !in OrdinaryNames(ps[j]) {
      if j < |ps| - 1 {
        assert n !in OrdinaryNames(ps[..|ps| - 1][j]);
      }
    }
  }

  // ----- reachability

  function ProgramOf(ps: seq<Program>, key: string): (p: Option<Program>)
    ensures p.Some? ==> p.value in ps && p.value.key == key
    ensures p == None ==> forall q :: q in ps ==> q.key != key
  {
    if ps == [] then None else if ps[0].key == key then Some(ps[0]) else ProgramOf(ps[1..], key)
  }

  /** The records that a record leads to. External records lead nowhere. */
  function Successors(b: Build, record: string): set<string> {
    var owners := RecordMap(b.programs);
    if record !in owners then {}
    else
      var p := ProgramOf(b.programs, owners[record]);
      if p == None then {} else Deps(p.value, record, b.externalPkgNames)
  }

  ghost predicate Closed(b: Build, c: set<string>) {
    forall r :: r in c ==> Successors(b, r) <= c
  }

  /** In every closed set that has the entries. */
  ghost predicate InLeast(b: Build, entries: seq<string>, r: string) {
    forall c: set<string> :: Closed(b, c) && (forall e :: e in entries ==> e in c) ==> r in c
  }

  /** There is a chain of imports from an entry. */
  ghost predicate IsPath(b: Build, entries: seq<string>, path: seq<string>) {
    && path != [] && path[0] in entries
    && forall i :: 0 < i < |path| ==> path[i] in Successors(b, path[i - 1])
  }

  ghost predicate Reachable(b: Build, entries: seq<string>, r: string) {
    exists path :: IsPath(b, entries, path) && path[|path| - 1] == r
  }

  lemma ReachableStep(b: Build, entries: seq<string>, r: string, t: string)
    requires Reachable(b, entries, r) && t in Successors(b, r)
    ensures Reachable(b, entries, t)
  {
    var path :| IsPath(b, entries, path) && path[|path| - 1] == r;
    PathSnoc(b, entries, path, t);
  }

  lemma PathSnoc(b: Build, entries: seq<string>, path: seq<string>, t: string)
    requires IsPath(b, entries, path) && t in Successors(b, path[|path| - 1])
    ensures IsPath(b, entries, path + [t]) && (path + [t])[|path|] == t
  {
    var longer := path + [t];
    forall i | 0 < i < |longer| ensures longer[i] in Successors(b, longer[i - 1]) {
      if i < |path| {
        assert longer[i] == path[i] && longer[i - 1] == path[i - 1];
      }
    }
  }

  lemma EntryIsReachable(b: Build, entries: seq<string>, e: string)
    requires e in entries
    ensures Reachable(b, entries, e)
  {
    assert IsPath(b, entries, [e]);
    assert [e][0] == e;
  }

  lemma {:induction false} PathStaysIn(b: Build, entries: seq<string>, path: seq<string>, c: set<string>)
    requires IsPath(b, entries, path) && Closed(b, c) && forall e :: e in entries ==> e in c
    ensures path[|path| - 1] in c
    decreases |path|
  {
    if |path| > 1 {
      var shorter := path[..|path| - 1];
      assert IsPath(b, entries, shorter);
      PathStaysIn(b, entries, shorter, c);
      assert path[|path| - 1] in Successors(b, path[|path| - 2]);
    }
  }

  /** A closed set that has the entries and nothing that is not reachable is exactly what is reachable. */
  lemma ClosedIsReachable(b: Build, entries: seq<string>, c: set<string>, r: string)
    requires Closed(b, c) && (forall e :: e in entries ==> e in c)
    requires forall x :: x in c ==> Reachable(b, entries, x)
    ensures r in c <==> Reachable(b, entries, r)
    ensures r in c <==> InLeast(b, entries, r)
  {
    if Reachable(b, entries, r) {
      var path :| IsPath(b, entries, path) && path[|path| - 1] == r;
      forall d: set<string> | Closed(b, d) && (forall e :: e in entries ==> e in d) ensures r in d {
        PathStaysIn(b, entries, path, d);
      }
    }
  }

  /** Only the set of entries counts, not their order or how often they are named. */
  lemma ReachableIgnoresOrder(b: Build, entries: seq<string>, entries': seq<string>, r: string)
    requires forall e :: e in entries <==> e in entries'
    ensures Reachable(b, entries, r) <==> Reachable(b, entries', r)
  {
    if Reachable(b, entries, r) {
      var path :| IsPath(b, entries, path) && path[|path| - 1] == r;
      assert IsPath(b, entries', path);
    }
    if Reachable(b, entries', r) {
      var path :| IsPath(b, entries', path) && path[|path| - 1] == r;
      assert IsPath(b, entries, path);
    }
  }

  /** Everything the search can ever meet. */
  function Universe(b: Build): set<string> {
    (set p, r, t | p in b.programs && r in p.records && t in Targets(r.imports, b.externalPkgNames) :: t)
    + (set p, f, t | p in b.programs && f in p.functions && t in Targets(f.imports, b.externalPkgNames) :: t)
  }

  lemma SuccessorsInUniverse(b: Build, record: string)
    ensures Successors(b, record) <= Universe(b)
  {
    if record in RecordMap(b.programs) && ProgramOf(b.programs, RecordMap(b.programs)[record]).Some? {
      var p := ProgramOf(b.programs, RecordMap(b.programs)[record]).value;
      forall t | t in Deps(p, record, b.externalPkgNames) ensures t in Universe(b) {
        if t in StaticDeps(p, record, b.externalPkgNames) {
          var r :| r in p.records && Contains(r.key, record) && t in Targets(r.imports, b.externalPkgNames);
          assert p in b.programs && r in p.records;
        } else {
          var f :| f in p.functions && Contains(f.name, record) && t in Targets(f.imports, b.externalPkgNames);
          assert p in b.programs && f in p.functions;
        }
      }
    }
  }
}
