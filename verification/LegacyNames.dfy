/** The naming scheme of the default API version: plain names, hashed names, and numbers for repeats. */
module LegacyNames {
  import opened Strings

  const SPECIFIER := '#'
  const REPEAT := '_'

  function Decimal(n: nat): (s: string)
    ensures |s| >= 1 && forall c :: c in s ==> c in HEX_DIGITS[..10]
  {
    if n < 10 then [HEX_DIGITS[n]] else Decimal(n / 10) + [HEX_DIGITS[n % 10]]
  }

  lemma {:induction false} DecimalInjective(a: nat, b: nat)
    requires Decimal(a) == Decimal(b)
    ensures a == b
    decreases a
  {
    var la, lb := |Decimal(a)|, |Decimal(b)|;
    assert Decimal(a)[la - 1] == Decimal(b)[lb - 1];
    if a < 10 && b < 10 {
      DigitsDiffer(a, b);
    } else if a >= 10 && b >= 10 {
      assert Decimal(a / 10) == Decimal(a)[..la - 1] == Decimal(b)[..lb - 1] == Decimal(b / 10);
      DecimalInjective(a / 10, b / 10);
      DigitsDiffer(a % 10, b % 10);
    }
  }

  predicate IsDecimalNumeral(s: string) {
    s != "" && (s[0] == '0' ==> s == "0") && forall c :: c in s ==> '0' <= c <= '9'
  }

  /** The numeral of a number is the decimal one, without leading zeros, that stands for it. */
  lemma {:induction false} DecimalIsNumeral(n: nat)
    ensures Numeral(Decimal(n), 10) == n && IsDecimalNumeral(Decimal(n)) && (Decimal(n) == "0" <==> n == 0)
    decreases n
  {
    DigitIs(n % 10);
    if n < 10 {
      assert Decimal(n)[..0] == "";
    } else {
      DecimalIsNumeral(n / 10);
      assert Decimal(n)[..|Decimal(n)| - 1] == Decimal(n / 10);
    }
  }

  /** A function to be named: its name and its source text. */
  datatype Function = Function(name: string, source: string)

  function Content(f: Function): string {
    f.source + f.name
  }

  predicate IsShown(name: string) {
    '.' !in name && '\\' !in name
  }

  datatype State = State(functionNames: set<string>, functionHashNames: map<string, nat>)

  /** What a name is made of: the name itself, or a content, how often it came before, and the name that is shown. */
  datatype Made = Plain(name: string) | Hashed(content: string, repeat: nat, shown: string)

  predicate TakesPlainName(s: State, f: Function) {
    f.name != "" && IsShown(f.name) && f.name !in s.functionNames
  }

  function Make(s: State, f: Function): Made {
    if TakesPlainName(s, f) then Plain(f.name)
    else Hashed(Content(f), if Content(f) in s.functionHashNames then s.functionHashNames[Content(f)] else 0,
                if IsShown(f.name) then f.name else "")
  }

  function Next(s: State, f: Function): State {
    if TakesPlainName(s, f) then s.(functionNames := s.functionNames + {f.name})
    else
      var count: nat := if Content(f) in s.functionHashNames then s.functionHashNames[Content(f)] + 1 else 1;
      var counts: map<string, nat> := s.functionHashNames[Content(f) := count];
      s.(functionHashNames := counts)
  }

  function Hash(h: map<string, nat>, content: string): nat {
    if content in h then h[content] else 0
  }

  /** The hash tells apart the contents that it is asked for. */
  ghost predicate Injective(h: map<string, nat>, contents: set<string>) {
    && contents <= h.Keys
    && forall c, d :: c in contents && d in contents && h[c] == h[d] ==> c == d
  }

  function Text(h: map<string, nat>, m: Made): string {
    match m
    case Plain(name) => name
    case Hashed(content, repeat, shown) => HashedText(Hash(h, content), repeat, shown)
  }

  function HashedText(hash: nat, repeat: nat, shown: string): string {
    [SPECIFIER] + (Decimal(hash) + RepeatText(repeat) + ([SPECIFIER] + shown))
  }

  function RepeatText(repeat: nat): string {
    if repeat == 0 then "" else [REPEAT] + Decimal(repeat)
  }

  function InternalName(record: string, h: map<string, nat>, m: Made): string {
    record + Text(h, m)
  }

  // ----- runs

  function StateAfter(fs: seq<Function>): State {
    if fs == [] then State({}, map[]) else Next(StateAfter(fs[..|fs| - 1]), fs[|fs| - 1])
  }

  /** The name of the `i`-th function of a run. */
  function MadeAt(fs: seq<Function>, i: nat): Made
    requires i < |fs|
  {
    Make(StateAfter(fs[..i]), fs[i])
  }

  ghost predicate Taken(s: State, m: Made) {
    match m
    case Plain(name) => name in s.functionNames
    case Hashed(content, repeat, shown) => content in s.functionHashNames && repeat < s.functionHashNames[content]
  }

  lemma MadeIsFresh(s: State, f: Function)
    ensures !Taken(s, Make(s, f)) && Taken(Next(s, f), Make(s, f))
  {
  }

  lemma TakenStays(s: State, f: Function, m: Made)
    requires Taken(s, m)
    ensures Taken(Next(s, f), m)
  {
  }

  lemma {:induction false} MadeIsTaken(fs: seq<Function>, i: nat)
    requires i < |fs|
    ensures Taken(StateAfter(fs), MadeAt(fs, i))
    decreases |fs|
  {
    var last := |fs| - 1;
    if i == last {
      MadeIsFresh(StateAfter(fs[..last]), fs[last]);
    } else {
      assert fs[..last][..i] == fs[..i];
      MadeIsTaken(fs[..last], i);
      TakenStays(StateAfter(fs[..last]), fs[last], MadeAt(fs, i));
    }
  }

  /** Hashed texts decode: the hash, the repeat number and the shown name can be read off. */
  lemma HashedTextDecodes(a: nat, j: nat, x: string, b: nat, k: nat, y: string)
    requires HashedText(a, j, x) == HashedText(b, k, y)
    ensures a == b && j == k && x == y
  {
    var front, front' := Decimal(a) + RepeatText(j), Decimal(b) + RepeatText(k);
    assert front + ([SPECIFIER] + x) == HashedText(a, j, x)[1..] == HashedText(b, k, y)[1..]
           == front' + ([SPECIFIER] + y);
    NoSpecifier(a, j);
    NoSpecifier(b, k);
    SplitAtFirst(front, [SPECIFIER] + x, front', [SPECIFIER] + y, SPECIFIER);
    assert x == ([SPECIFIER] + x)[1..] && y == ([SPECIFIER] + y)[1..];
    NoRepeat(a);
    NoRepeat(b);
    SplitAtFirst(Decimal(a), RepeatText(j), Decimal(b), RepeatText(k), REPEAT);
    DecimalInjective(a, b);
    if j > 0 && k > 0 {
      assert RepeatText(j)[1..] == Decimal(j) && RepeatText(k)[1..] == Decimal(k);
      DecimalInjective(j, k);
    }
  }

  lemma NoSpecifier(a: nat, j: nat)
    ensures SPECIFIER !in Decimal(a) + RepeatText(j)
  {
    assert SPECIFIER !in HEX_DIGITS[..10];
  }

  lemma NoRepeat(a: nat)
    ensures REPEAT !in Decimal(a)
  {
    assert REPEAT !in HEX_DIGITS[..10];
  }

  /** Over any run, different functions get different names, when the hash tells their contents apart and no name begins
      with the mark of the hashed ones. */
  lemma LegacyNamesAreUnique(record: string, h: map<string, nat>, fs: seq<Function>, i: nat, j: nat)
    requires i < j < |fs|
    requires Injective(h, set f | f in fs :: Content(f))
    requires forall f :: f in fs && f.name != "" ==> f.name[0] != SPECIFIER
    ensures InternalName(record, h, MadeAt(fs, i)) != InternalName(record, h, MadeAt(fs, j))
  {
    var a, b := MadeAt(fs, i), MadeAt(fs, j);
    assert fs[..j][..i] == fs[..i];
    MadeIsTaken(fs[..j], i);
    MadeIsFresh(StateAfter(fs[..j]), fs[j]);
    if InternalName(record, h, a) == InternalName(record, h, b) {
      assert Text(h, a) == InternalName(record, h, a)[|record|..] == InternalName(record, h, b)[|record|..]
             == Text(h, b);
      SameTextSameName(h, a, b, fs, i, j);
      assert false;
    }
  }

  lemma SameTextSameName(h: map<string, nat>, a: Made, b: Made, fs: seq<Function>, i: nat, j: nat)
    requires i < |fs| && j < |fs| && a == MadeAt(fs, i) && b == MadeAt(fs, j) && Text(h, a) == Text(h, b)
    requires Injective(h, set f | f in fs :: Content(f))
    requires forall f :: f in fs && f.name != "" ==> f.name[0] != SPECIFIER
    ensures a == b
  {
    assert fs[i] in fs && fs[j] in fs;
    assert (a.Plain? <==> Text(h, a)[0] != SPECIFIER) && (b.Plain? <==> Text(h, b)[0] != SPECIFIER);
    if a.Hashed? && b.Hashed? {
      HashedTextDecodes(Hash(h, a.content), a.repeat, a.shown, Hash(h, b.content), b.repeat, b.shown);
      assert a.content == Content(fs[i]) && b.content == Content(fs[j]);
    }
  }

  /** A name that looks like a hashed one is not told apart: the second function `f` and a function named by the string
      key that spells its hashed name. */
  lemma MarkedNameCollides(record: string, h: map<string, nat>)
    ensures var second := Function("f", "s");
      var third := Function(HashedText(Hash(h, Content(second)), 0, "f"), "t");
      var fs := [Function("f", ""), second, third];
      InternalName(record, h, MadeAt(fs, 1)) == InternalName(record, h, MadeAt(fs, 2))
  {
    var second := Function("f", "s");
    var hash := Hash(h, Content(second));
    var third := Function(HashedText(hash, 0, "f"), "t");
    var fs := [Function("f", ""), second, third];
    assert fs[..1] == [fs[0]] && fs[..2] == [fs[0], second];
    assert [fs[0], second][..1] == [fs[0]] && [fs[0]][..0] == [];
    assert StateAfter([]) == State({}, map[]);
    assert StateAfter(fs[..1]) == State({"f"}, map[]);
    assert StateAfter(fs[..2]).functionNames == {"f"};
    assert MadeAt(fs, 1) == Hashed(Content(second), 0, "f");
    NoSpecifier(hash, 0);
    assert forall c :: c in third.name ==> c in HEX_DIGITS[..10] || c == SPECIFIER || c == 'f';
    assert '.' !in HEX_DIGITS[..10] && '\\' !in HEX_DIGITS[..10];
    assert |third.name| > 1;
  }

  class LegacyBinder {
    const formattedRecordName: string
    ghost const hash: map<string, nat>
    var functionNames: set<string>
    var functionHashNames: map<string, nat>

    constructor (record: string, ghost hash: map<string, nat>)
      ensures formattedRecordName == record && this.hash == hash && Valid() && Now() == State({}, map[])
    {
      formattedRecordName, this.hash := record, hash;
      functionNames, functionHashNames := {}, map[];
    }

    function Now(): State
      reads this
    {
      State(functionNames, functionHashNames)
    }

    ghost predicate Valid()
      reads this
    {
      forall c :: c in functionHashNames ==> functionHashNames[c] >= 1
    }

    /** Names one function; `hashString` is the hash of its content, as text. */
    method LegacyBuildFunction(f: Function, hashString: string) returns (internalName: string)
      requires Valid() && hashString == Decimal(Hash(hash, Content(f)))
      modifies this
      ensures Valid() && Now() == Next(old(Now()), f)
      ensures internalName == InternalName(formattedRecordName, hash, Make(old(Now()), f))
    {
      ghost var state := Now();
      if f.name != "" && IsShown(f.name) && f.name !in functionNames {
        functionNames := functionNames + {f.name};
        return formattedRecordName + f.name;
      }
      var content := f.source + f.name;
      var text := hashString;
      if content in functionHashNames {
        var repeat := functionHashNames[content];
        text := text + ([REPEAT] + Decimal(repeat));
        functionHashNames := functionHashNames[content := repeat + 1];
      } else {
        assert text + "" == text;
        functionHashNames := functionHashNames[content := 1];
      }
      var shown := if IsShown(f.name) then f.name else "";
      assert text == Decimal(Hash(hash, content)) + RepeatText(Make(state, f).repeat);
      internalName := formattedRecordName + ([SPECIFIER] + (text + ([SPECIFIER] + shown)));
    }
  }

  // ----- what the names are

  /** The three forms of a name behind the record. */
  lemma TextIs(h: map<string, nat>, m: Made)
    ensures m.Plain? ==> Text(h, m) == m.name
    ensures m.Hashed? && m.repeat == 0 ==>
              Text(h, m) == "#" + Decimal(Hash(h, m.content)) + "#" + m.shown
    ensures m.Hashed? && m.repeat > 0 ==>
              Text(h, m) == "#" + Decimal(Hash(h, m.content)) + "_" + Decimal(m.repeat) + "#" + m.shown
  {
    if m.Hashed? {
      var a := Decimal(Hash(h, m.content));
      assert "#" + (a + "" + ("#" + m.shown)) == "#" + a + "#" + m.shown;
      assert "#" + (a + ("_" + Decimal(m.repeat)) + ("#" + m.shown))
             == "#" + a + "_" + Decimal(m.repeat) + "#" + m.shown;
    }
  }

  /** The plain names given so far are the first functions of their name, when that can be shown. */
  lemma {:induction false} NamesGiven(fs: seq<Function>, name: string)
    ensures name in StateAfter(fs).functionNames <==>
            name != "" && IsShown(name) && exists j :: 0 <= j < |fs| && fs[j].name == name
    decreases |fs|
  {
    if fs != [] {
      var n := |fs| - 1;
      NamesGiven(fs[..n], name);
      assert forall j :: 0 <= j < n ==> fs[..n][j] == fs[j];
    }
  }

  /** A function keeps its plain name exactly when it is the first of that name, and the name is not empty and holds
      neither a dot nor a backslash. */
  lemma PlainIsFirst(fs: seq<Function>, i: nat)
    requires i < |fs|
    ensures MadeAt(fs, i).Plain? <==>
            && fs[i].name != "" && '.' !in fs[i].name && '\\' !in fs[i].name
            && forall j :: 0 <= j < i ==> fs[j].name != fs[i].name
    ensures MadeAt(fs, i).Plain? ==> MadeAt(fs, i).name == fs[i].name
  {
    NamesGiven(fs[..i], fs[i].name);
    assert forall j :: 0 <= j < i ==> fs[..i][j] == fs[j];
  }

  /** How many functions of a run got a hashed name for this content. */
  function HashedBefore(fs: seq<Function>, content: string): nat {
    if fs == [] then 0
    else
      var n := |fs| - 1;
      HashedBefore(fs[..n], content) + (if MadeAt(fs, n).Hashed? && fs[n].source + fs[n].name == content then 1 else 0)
  }

  lemma {:induction false} CountsAre(fs: seq<Function>, content: string)
    ensures var counts := StateAfter(fs).functionHashNames;
      HashedBefore(fs, content) == if content in counts then counts[content] else 0
    decreases |fs|
  {
    if fs != [] {
      CountsAre(fs[..|fs| - 1], content);
    }
  }

  /** The number in a hashed name counts the earlier ones with the same source and name. */
  lemma RepeatIsCount(fs: seq<Function>, i: nat)
    requires i < |fs| && MadeAt(fs, i).Hashed?
    ensures MadeAt(fs, i).content == fs[i].source + fs[i].name
    ensures MadeAt(fs, i).repeat == HashedBefore(fs[..i], fs[i].source + fs[i].name)
    ensures MadeAt(fs, i).shown == if '.' in fs[i].name || '\\' in fs[i].name then "" else fs[i].name
  {
    CountsAre(fs[..i], fs[i].source + fs[i].name);
  }
}
