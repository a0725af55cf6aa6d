/** What the scans of a template element make of each code point, with the code points written out. */
module EscapeValues {
  import opened Options
  import opened Digits
  import opened TemplateText
  import opened TemplateTheory

  // ----- digits

  lemma DigitsAreThese(c: CodePoint)
    ensures IsDecimalDigit(c) <==> 0x30 <= c <= 0x39
    ensures IsHexDigit(c) <==> 0x30 <= c <= 0x39 || 0x41 <= c <= 0x46 || 0x61 <= c <= 0x66
    ensures IsHexDigit(c) ==>
              HexValue(c) == if c <= 0x39 then c - 0x30 else if c <= 0x46 then c - 0x41 + 10 else c - 0x61 + 10
  {
    if IsHexDigit(c) {
      HexValueIsPosition(c, HexValue(c));
      assert c >= 0x61 ==> (c - 0x41 + 10) % 16 == c - 0x61 + 10;
    }
  }

  predicate Hexadecimal(t: Text) {
    forall k :: 0 <= k < |t| ==> 0x30 <= t[k] <= 0x39 || 0x41 <= t[k] <= 0x46 || 0x61 <= t[k] <= 0x66
  }

  lemma HexadecimalIs(t: Text)
    ensures Hexadecimal(t) <==> AllHex(t)
  {
  }

  // ----- escapes of one code point

  /** The value of a backslash before `b`, `t`, `n`, `v`, `f` or `r`. */
  const CONTROLS: map<CodePoint, CodePoint> :=
    map[0x62 := 0x08, 0x74 := 0x09, 0x6E := 0x0A, 0x76 := 0x0B, 0x66 := 0x0C, 0x72 := 0x0D]

  predicate IsDecimal(w: Text, k: nat) {
    k < |w| && 0x30 <= w[k] <= 0x39
  }

  /** What a backslash before `w` stands for, case by case, as sections 12.9.4 and 12.9.6 of ECMA-262 have it. */
  lemma EscapeIs(w: Text)
    requires w != []
    ensures w[0] in {0x62, 0x74, 0x6E, 0x76, 0x66, 0x72} ==> Escape(w) == Some(Scan([CONTROLS[w[0]]], 1))
    ensures w[0] == 0x30 && !IsDecimal(w, 1) ==> Escape(w) == Some(Scan([0x00], 1))
    ensures 0x31 <= w[0] <= 0x39 || (w[0] == 0x30 && IsDecimal(w, 1)) ==> Escape(w) == None
    ensures w[0] in {0x0A, 0x2028, 0x2029} ==> Escape(w) == Some(Scan([], 1))
    ensures w[0] == 0x0D ==> Escape(w) == Some(Scan([], if |w| > 1 && w[1] == 0x0A then 2 else 1))
    ensures !(0x30 <= w[0] <= 0x39) &&
            w[0] !in {0x62, 0x74, 0x6E, 0x76, 0x66, 0x72, 0x78, 0x75, 0x0A, 0x0D, 0x2028, 0x2029} ==>
              Escape(w) == Some(Scan([w[0]], 1))
  {
  }

  // ----- numeric escapes

  /** `n` hexadecimal digits stand at position `from`. */
  predicate DigitsAt(w: Text, from: nat, n: nat) {
    from + n <= |w| && Hexadecimal(w[from..from + n])
  }

  /** The value of the `n` digits at `from`. */
  function ValueAt(w: Text, from: nat, n: nat): nat
    requires DigitsAt(w, from, n)
  {
    HexadecimalIs(w[from..from + n]);
    ValueOf(w[from..from + n], 16)
  }

  lemma FixedEscape(w: Text, from: nat, n: nat)
    requires from <= |w|
    ensures HexEscape(w[from..], n, 0) == if DigitsAt(w, from, n) then Some(ValueAt(w, from, n)) else None
  {
    HexEscapeValue(w[from..], n, 0);
    if from + n <= |w| {
      assert w[from..][..n] == w[from..from + n];
      HexadecimalIs(w[from..from + n]);
    }
  }

  /** Backslash, `x` and two hexadecimal digits. */
  lemma HexEscapeIs(w: Text)
    requires w != [] && w[0] == 0x78
    ensures Escape(w) == if DigitsAt(w, 1, 2) then Some(Scan([ValueAt(w, 1, 2)], 3)) else None
  {
    FixedEscape(w, 1, 2);
  }

  /** Backslash, `u` and four hexadecimal digits. */
  lemma UnicodeEscapeIs(w: Text)
    requires w != [] && w[0] == 0x75 && !(|w| > 1 && w[1] == 0x7B)
    ensures Escape(w) == if DigitsAt(w, 1, 4) then Some(Scan([ValueAt(w, 1, 4)], 5)) else None
  {
    FixedEscape(w, 1, 4);
  }

  /** Backslash, `u`, and `n` hexadecimal digits in braces that make a code point; none are read as zero. */
  lemma BracedEscapeIs(w: Text, n: nat, v: nat)
    requires |w| > 1 && w[0] == 0x75 && w[1] == 0x7B
    ensures Escape(w) == Some(Scan([v], n + 3)) <==>
            DigitsAt(w, 2, n) && n + 2 < |w| && w[n + 2] == 0x7D && v == ValueAt(w, 2, n) && v <= 0x10FFFF
    ensures Escape(w).Some? ==> |Escape(w).value.text| == 1 && Escape(w).value.used >= 3
  {
    CodePointEscapeValue(w[2..], 0, n + 1, v);
    if n + 2 < |w| {
      assert w[2..][..n] == w[2..2 + n] && w[2..][n] == w[n + 2];
      HexadecimalIs(w[2..2 + n]);
    }
    assert Escape(w) == Some(Scan([v], n + 3)) <==> CodePointEscape(w[2..], 0) == Some((v, n + 1)) by {
      BracedText(w, v, n);
    }
  }

  lemma BracedText(w: Text, v: nat, n: nat)
    requires |w| > 1 && w[0] == 0x75 && w[1] == 0x7B
    ensures Escape(w) == Some(Scan([v], n + 3)) <==> CodePointEscape(w[2..], 0) == Some((v, n + 1))
  {
    var r := CodePointEscape(w[2..], 0);
    if r.Some? {
      assert Escape(w) == Some(Scan([r.value.0], 2 + r.value.1));
      assert [r.value.0] == [v] <==> r.value.0 == v by { assert [r.value.0][0] == r.value.0; }
    }
  }

  // ----- the two scans, step by step

  /** A back-tick, or a dollar sign and a brace. */
  predicate EndsHere(w: Text) {
    w != [] && (w[0] == 0x60 || (w[0] == 0x24 && |w| > 1 && w[1] == 0x7B))
  }

  /** The cooked scan: it ends at `EndsHere`; a line terminator is one line feed, an escape what it stands for. */
  lemma CookIs(w: Text)
    ensures w == [] ==> Cook(w) == None
    ensures EndsHere(w) ==> Cook(w) == Some(Scan([], 0))
    ensures w != [] && w[0] == 0x0D && |w| > 1 && w[1] == 0x0A ==> Cook(w) == Then([0x0A], 2, Cook(w[2..]))
    ensures w != [] && (w[0] == 0x0A || (w[0] == 0x0D && !(|w| > 1 && w[1] == 0x0A))) ==>
              Cook(w) == Then([0x0A], 1, Cook(w[1..]))
    ensures w != [] && w[0] == 0x5C ==>
              Cook(w) == (var e := Escape(w[1..]);
                          if e == None then None else Then(e.value.text, 1 + e.value.used, Cook(w[1 + e.value.used..])))
    ensures w != [] && !EndsHere(w) && w[0] !in {0x0A, 0x0D, 0x5C} ==> Cook(w) == Then([w[0]], 1, Cook(w[1..]))
  {
  }

  /** A backslash, `n` and a back-tick cook to one line feed. */
  lemma NewlineEscape()
    ensures Cook([0x5C, 0x6E, 0x60]) == Some(Scan([0x0A], 2))
  {
    var w := [0x5C, 0x6E, 0x60];
    EscapeIs(w[1..]);
    CookIs(w);
    CookIs(w[2..]);
    assert [0x0A] + [] == [0x0A];
  }

  /** The number of backslashes right before position `k` is `n`. */
  predicate BackslashesBefore(w: Text, k: nat, n: nat) {
    && n <= k <= |w| && (forall j :: k - n <= j < k ==> w[j] == 0x5C)
    && (n < k ==> w[k - n - 1] != 0x5C)
  }

  lemma {:induction false} RunIs(w: Text, k: nat, n: nat)
    requires k <= |w|
    ensures Run(w, k) == n <==> BackslashesBefore(w, k, n)
    decreases k
  {
    if k > 0 && n > 0 && w[k - 1] == 0x5C {
      RunIs(w, k - 1, n - 1);
    }
  }

  /** An element ends where an even number of backslashes stands before a back-tick or `${`. */
  lemma BoundaryIs(w: Text, k: nat)
    ensures Boundary(w, k) <==> k < |w| && EndsHere(w[k..]) && exists n :: n % 2 == 0 && BackslashesBefore(w, k, n)
  {
    if k < |w| {
      RunIs(w, k, Run(w, k));
      if n: nat :| n % 2 == 0 && BackslashesBefore(w, k, n) {
        RunIs(w, k, n);
      }
    }
  }

  // ----- line ends

  predicate NoReturn(t: Text) {
    forall k :: 0 <= k < |t| ==> t[k] != 0x0D
  }

  lemma {:induction false} NormalizeSkips(x: Text, y: Text)
    requires NoReturn(x)
    ensures Normalize(x + y) == x + Normalize(y)
    decreases |x|
  {
    if x != [] {
      assert (x + y)[1..] == x[1..] + y && (x + y)[0] == x[0];
      NormalizeSkips(x[1..], y);
    } else {
      assert x + y == y;
    }
  }

  lemma NormalizeKeeps(x: Text)
    requires NoReturn(x)
    ensures Normalize(x) == x
  {
    NormalizeSkips(x, []);
    assert x + [] == x;
  }

  lemma NormalizePair(y: Text)
    ensures Normalize([0x0D, 0x0A] + y) == [0x0A] + Normalize(y)
  {
    assert ([0x0D, 0x0A] + y)[2..] == y;
  }

  lemma NormalizeAlone(y: Text)
    requires !(y != [] && y[0] == 0x0A)
    ensures Normalize([0x0D] + y) == [0x0A] + Normalize(y)
  {
    assert ([0x0D] + y)[1..] == y;
  }

  /** Only carriage returns are touched: alone, or with the line feed behind them, they become one line feed. */
  lemma NormalizeIs(x: Text, y: Text)
    requires NoReturn(x)
    ensures Normalize(x) == x
    ensures Normalize(x + ([0x0D, 0x0A] + y)) == x + ([0x0A] + Normalize(y))
    ensures !(y != [] && y[0] == 0x0A) ==> Normalize(x + ([0x0D] + y)) == x + ([0x0A] + Normalize(y))
  {
    NormalizeKeeps(x);
    NormalizeSkips(x, [0x0D, 0x0A] + y);
    NormalizePair(y);
    NormalizeSkips(x, [0x0D] + y);
    if !(y != [] && y[0] == 0x0A) {
      NormalizeAlone(y);
    }
  }
}
