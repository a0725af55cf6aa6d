/** Where an import leads and what the fill step looks at, told from the parts of the texts. */
module ImportTargets {
  import opened Options
  import opened DepsGraph

  // ----- texts

  /** `part` stands somewhere in `s`. */
  ghost predicate StandsIn(part: string, s: string) {
    exists a: string, b: string :: s == a + part + b
  }

  lemma ContainsIs(s: string, part: string)
    ensures Contains(s, part) <==> StandsIn(part, s)
  {
    if Contains(s, part) {
      ContainedStands(s, part);
    }
    if StandsIn(part, s) {
      var a: string, b: string :| s == a + part + b;
      StandingIsContained(a, part, b);
    }
  }

  lemma {:induction false} ContainedStands(s: string, part: string)
    requires Contains(s, part)
    ensures StandsIn(part, s)
    decreases |s|
  {
    if part <= s {
      assert s == [] + part + s[|part|..];
    } else {
      ContainedStands(s[1..], part);
      var a: string, b: string :| s[1..] == a + part + b;
      assert s == ([s[0]] + a) + part + b;
    }
  }

  lemma {:induction false} StandingIsContained(a: string, part: string, b: string)
    ensures Contains(a + part + b, part)
    decreases |a|
  {
    var s := a + part + b;
    if a == [] {
      assert s == part + b;
    } else {
      StandingIsContained(a[1..], part, b);
      assert s[1..] == a[1..] + part + b;
    }
  }

  lemma {:induction false} SplitOne(x: string, d: char)
    requires d !in x
    ensures Split(x, d) == [x]
  {
    if x != [] {
      SplitOne(x[1..], d);
      assert [x[0]] + x[1..] == x;
    }
  }

  /** A part without the separator is split off. */
  lemma {:induction false} SplitMore(x: string, d: char, rest: string)
    requires d !in x
    ensures Split(x + [d] + rest, d) == [x] + Split(rest, d)
    decreases |x|
  {
    var s := x + [d] + rest;
    if x == [] {
      assert s[1..] == rest;
    } else {
      SplitMore(x[1..], d, rest);
      assert s[1..] == x[1..] + [d] + rest;
      assert [x[0]] + x[1..] == x;
      assert ([x[1..]] + Split(rest, d))[1..] == Split(rest, d);
    }
  }

  lemma {:induction false} IndexOfIs(s: string, c: char, from: nat, k: nat)
    requires from <= k <= |s| && (k < |s| ==> s[k] == c) && forall j :: from <= j < k ==> s[j] != c
    ensures IndexOf(s, c, from) == k
    decreases k - from
  {
    if from < k {
      IndexOfIs(s, c, from + 1, k);
    }
  }

  lemma {:induction false} PartsAre(s: string, d: char)
    ensures |Split(s, d)| == 1 + multiset(s)[d]
    decreases |s|
  {
    if s != [] {
      PartsAre(s[1..], d);
      assert s == [s[0]] + s[1..];
    }
  }

  // ----- packages

  /** Without a slash there is no package. */
  lemma NoPackage(x: string)
    requires '/' !in x
    ensures PkgName(x) == ""
  {
    IndexOfIs(x, '/', 0, |x|);
  }

  /** The package of an unscoped import stands before the first slash. */
  lemma PlainPackage(x: string, rest: string)
    requires '/' !in x && (x == "" || x[0] != '@')
    ensures PkgName(x + "/" + rest) == x
  {
    IndexOfIs(x + "/" + rest, '/', 0, |x|);
  }

  /** The package of a scoped import stands before the second slash. */
  lemma ScopedPackage(x: string, y: string, rest: string)
    requires '/' !in x && '/' !in y && x != "" && x[0] == '@'
    ensures PkgName(x + "/" + y + "/" + rest) == x + "/" + y
  {
    var s := x + "/" + y + "/" + rest;
    assert s[..|x|] == x && s[|x|] == '/' && s[|x| + 1..|x| + 1 + |y|] == y;
    IndexOfIs(s, '/', 0, |x|);
    forall j | |x| + 1 <= j < |x| + 1 + |y| ensures s[j] != '/' {
      assert s[j] == y[j - |x| - 1];
    }
    IndexOfIs(s, '/', |x| + 1, |x| + 1 + |y|);
    assert s[..|x| + 1 + |y|] == x + "/" + y;
  }

  /** A scoped import with one slash only has its scope as package. */
  lemma ScopeAlone(x: string, y: string)
    requires '/' !in x && '/' !in y && x != "" && x[0] == '@'
    ensures PkgName(x + "/" + y) == x
  {
    var s := x + "/" + y;
    IndexOfIs(s, '/', 0, |x|);
    IndexOfIs(s, '/', |x| + 1, |s|);
  }

  // ----- targets

  /** Main lemma on imports: an ohmurl `k&p&b&i&v`, whatever parts follow, leads to the record `b&i&v` when it is marked
      as normalized and not native, and the package of `i` is not external; otherwise to nothing. */
  lemma TargetIs(k: string, p: string, b: string, i: string, v: string, tail: string, ext: set<string>)
    requires '&' !in k && '&' !in p && '&' !in b && '&' !in i && '&' !in v
    requires tail == "" || tail[0] == '&'
    ensures var url := k + "&" + (p + "&" + (b + "&" + (i + "&" + (v + tail))));
      Target(url, ext) ==
        if StandsIn("@normalized:N", url) && PkgName(i) !in ext then Some(b + "&" + i + "&" + v) else None
  {
    var u4 := v + tail;
    var u3 := i + "&" + u4;
    var u2 := b + "&" + u3;
    var u1 := p + "&" + u2;
    var url := k + "&" + u1;
    SplitHead(v, tail);
    SplitMore(i, '&', u4);
    SplitMore(b, '&', u3);
    SplitMore(p, '&', u2);
    SplitMore(k, '&', u1);
    ContainsIs(url, "@normalized:N");
    var items := Split(url, '&');
    assert items == [k] + ([p] + ([b] + ([i] + Split(u4, '&'))));
    assert items[2] == b && items[3] == i && items[4] == v && |items| >= 5;
  }

  lemma SplitHead(v: string, tail: string)
    requires '&' !in v && (tail == "" || tail[0] == '&')
    ensures Split(v + tail, '&')[0] == v
  {
    if tail == "" {
      assert v + tail == v;
      SplitOne(v, '&');
    } else {
      assert v + tail == v + ['&'] + tail[1..];
      SplitMore(v, '&', tail[1..]);
    }
  }

  /** With fewer than five parts an import leads nowhere. */
  lemma ShortImport(url: string, ext: set<string>)
    requires multiset(url)['&'] < 4
    ensures Target(url, ext) == None
  {
    PartsAre(url, '&');
  }

  /** One of the imports leads to `t`. */
  ghost predicate ImportsTo(imports: seq<string>, ext: set<string>, t: string) {
    exists k :: 0 <= k < |imports| && Target(imports[k], ext) == Some(t)
  }

  lemma TargetsAre(imports: seq<string>, ext: set<string>, t: string)
    ensures t in Targets(imports, ext) <==> ImportsTo(imports, ext, t)
  {
    if t in Targets(imports, ext) {
      var u :| u in imports && Target(u, ext).Some? && Target(u, ext).value == t;
      var k :| 0 <= k < |imports| && imports[k] == u;
    }
    if k :| 0 <= k < |imports| && Target(imports[k], ext) == Some(t) {
      assert imports[k] in imports;
    }
  }

  ghost predicate RecordLeads(p: Program, k: nat, record: string, ext: set<string>, t: string) {
    k < |p.records| && StandsIn(record, p.records[k].key) && ImportsTo(p.records[k].imports, ext, t)
  }

  ghost predicate FunctionLeads(p: Program, k: nat, record: string, ext: set<string>, t: string) {
    k < |p.functions| && StandsIn(record, p.functions[k].name) && ImportsTo(p.functions[k].imports, ext, t)
  }

  /** What a record leads to inside its program: the targets of the records whose key, and of the functions whose name,
      holds the record's name. */
  lemma DepsAre(p: Program, record: string, ext: set<string>, t: string)
    ensures t in StaticDeps(p, record, ext) <==> exists k: nat :: RecordLeads(p, k, record, ext, t)
    ensures t in DynamicDeps(p, record, ext) <==> exists k: nat :: FunctionLeads(p, k, record, ext, t)
    ensures t in Deps(p, record, ext) <==>
            t in StaticDeps(p, record, ext) || t in DynamicDeps(p, record, ext)
  {
    if t in StaticDeps(p, record, ext) {
      var r :| r in p.records && Contains(r.key, record) && t in Targets(r.imports, ext);
      var k: nat :| k < |p.records| && p.records[k] == r;
      ContainsIs(r.key, record);
      TargetsAre(r.imports, ext, t);
      assert RecordLeads(p, k, record, ext, t);
    }
    if k: nat :| RecordLeads(p, k, record, ext, t) {
      ContainsIs(p.records[k].key, record);
      TargetsAre(p.records[k].imports, ext, t);
      assert p.records[k] in p.records;
    }
    if t in DynamicDeps(p, record, ext) {
      var f :| f in p.functions && Contains(f.name, record) && t in Targets(f.imports, ext);
      var k: nat :| k < |p.functions| && p.functions[k] == f;
      ContainsIs(f.name, record);
      TargetsAre(f.imports, ext, t);
      assert FunctionLeads(p, k, record, ext, t);
    }
    if k: nat :| FunctionLeads(p, k, record, ext, t) {
      ContainsIs(p.functions[k].name, record);
      TargetsAre(p.functions[k].imports, ext, t);
      assert p.functions[k] in p.functions;
    }
  }

  /** What a record leads to is told by the imports of the last program in which it takes part. */
  lemma SuccessorsAre(b: Build, i: nat, n: string, t: string)
    requires LastWith(b.programs, n, i)
    requires forall j, k :: 0 <= j < k < |b.programs| ==> b.programs[j].key != b.programs[k].key
    ensures t in Successors(b, n) <==>
            || (exists k: nat :: RecordLeads(b.programs[i], k, n, b.externalPkgNames, t))
            || (exists k: nat :: FunctionLeads(b.programs[i], k, n, b.externalPkgNames, t))
  {
    var p := b.programs[i];
    RecordMapIsLast(b.programs, n, i);
    assert ProgramOf(b.programs, p.key) == Some(p);
    DepsAre(p, n, b.externalPkgNames, t);
  }

  /** A record that takes part in no program leads nowhere. */
  lemma StrangerLeadsNowhere(b: Build, n: string)
    requires forall j :: 0 <= j < |b.programs| ==> n !in OrdinaryNames(b.programs[j])
    ensures Successors(b, n) == {}
  {
    if n in RecordMap(b.programs) {
      var i := RecordMapHasOwner(b.programs, n);
      assert false;
    }
  }

  // ----- what the fill step looks at

  predicate IsJson(f: Field) {
    f.name == "jsonFileContent"
  }

  ghost predicate IsCommonjs(f: Field) {
    StandsIn("isCommonjs", f.name)
  }

  /** The field says yes. */
  ghost predicate Marks(f: Field) {
    IsJson(f) || (IsCommonjs(f) && f.value.Some? && f.isU8 && f.value.value > 0)
  }

  /** The field says nothing, and the next one is looked at. */
  ghost predicate Passes(f: Field) {
    !IsJson(f) && (!IsCommonjs(f) || (f.value.Some? && f.isU8 && f.value.value == 0))
  }

  /** A record is special exactly when some field says yes and those before it say nothing. */
  lemma {:induction false} MarksSpecialIs(fields: seq<Field>)
    ensures MarksSpecial(fields) <==> exists j :: 0 <= j < |fields| && MarksAt(fields, j)
    decreases |fields|
  {
    if fields != [] {
      ContainsIs(fields[0].name, "isCommonjs");
      MarksSpecialIs(fields[1..]);
      MarksOnward(fields);
    }
  }

  ghost predicate MarksAt(fields: seq<Field>, j: nat) {
    j < |fields| && Marks(fields[j]) && forall i :: 0 <= i < j ==> Passes(fields[i])
  }

  lemma MarksOnward(fields: seq<Field>)
    requires fields != []
    ensures (exists j :: 0 <= j < |fields| && MarksAt(fields, j)) <==>
            Marks(fields[0]) || (Passes(fields[0]) && exists j :: 0 <= j < |fields| - 1 && MarksAt(fields[1..], j))
  {
    var rest := fields[1..];
    if j :| 0 <= j < |fields| && MarksAt(fields, j) {
      if j > 0 {
        assert forall i :: 0 <= i < j - 1 ==> rest[i] == fields[i + 1];
        assert MarksAt(rest, j - 1);
      }
    }
    if Marks(fields[0]) {
      assert MarksAt(fields, 0);
    }
    if j :| 0 <= j < |rest| && MarksAt(rest, j) && Passes(fields[0]) {
      forall i | 0 <= i < j + 1 ensures Passes(fields[i]) {
        assert i > 0 ==> fields[i] == rest[i - 1];
      }
      assert MarksAt(fields, j + 1);
    }
  }

  /** A record takes part in the search exactly when its program has no npm entries, the record has fields, and neither
      it nor an earlier one is special. */
  lemma OrdinaryIs(p: Program, n: string)
    ensures n in OrdinaryNames(p) <==>
            && !StandsIn("npmEntries.txt", p.key)
            && exists j :: 0 <= j < |p.records| && TakesPart(p, j) && p.records[j].name == n
  {
    ContainsIs(p.key, "npmEntries.txt");
    var c := Cut(p.records);
    forall j | 0 <= j < |p.records| ensures TakesPart(p, j) <==> j < c && p.records[j].fields != [] {
      if j >= c {
        assert IsSpecial(p.records[c]);
      } else {
        assert forall i :: 0 <= i <= j ==> !IsSpecial(p.records[i]);
      }
    }
    if !IsNpm(p) && n in OrdinaryNames(p) {
      var r :| r in p.records[..c] && r.fields != [] && r.name == n;
      var j :| 0 <= j < c && p.records[..c][j] == r;
      assert TakesPart(p, j);
    }
    if j :| 0 <= j < |p.records| && TakesPart(p, j) && p.records[j].name == n {
      assert p.records[..c][j] == p.records[j] && p.records[j] in p.records[..c];
    }
  }

  predicate TakesPart(p: Program, j: nat)
    requires j < |p.records|
  {
    p.records[j].fields != [] && forall i :: 0 <= i <= j ==> !MarksSpecial(p.records[i].fields)
  }
}
