/** How the cooked and the raw scan of an element agree. */
module TemplateTheory {
  import opened Options
  import opened Digits
  import opened TemplateText

  // ----- where an element ends

  /** The number of backslashes right before position `k`. */
  function Run(w: Text, k: nat): (r: nat)
    requires k <= |w|
    ensures r <= k
  {
    if k == 0 || w[k - 1] != BACKSLASH then 0 else 1 + Run(w, k - 1)
  }

  /** An unescaped back-tick or `${`: an even number of backslashes stands before it. */
  predicate Boundary(w: Text, k: nat) {
    k < |w| && Stops(w[k..]) && Run(w, k) % 2 == 0
  }

  lemma {:induction false} RunShift(w: Text, n: nat, k: nat)
    requires n <= k <= |w|
    ensures Run(w, k) == Run(w[n..], k - n) + (if Run(w[n..], k - n) == k - n then Run(w, n) else 0)
    decreases k
  {
    if k > n {
      assert w[k - 1] == w[n..][k - 1 - n];
      RunShift(w, n, k - 1);
    }
  }

  /** How many code points one step of the raw scan reads. */
  function RawStep(w: Text): (n: nat)
    requires w != [] && !Stops(w)
    ensures 1 <= n <= |w|
  {
    if w[0] in {CR, LF} then Newline(w)
    else if w[0] == BACKSLASH && |w| > 1 && w[1] in {BACK_TICK, BACKSLASH, DOLLAR} then 2
    else 1
  }

  lemma BoundaryShift(w: Text, k: nat)
    requires w != [] && !Stops(w)
    ensures k < RawStep(w) ==> !Boundary(w, k)
    ensures k >= RawStep(w) ==> (Boundary(w, k) <==> Boundary(w[RawStep(w)..], k - RawStep(w)))
  {
    var n := RawStep(w);
    if k < |w| {
      if k < n {
        assert w[0..] == w;
        if k == 1 && w[0] == BACKSLASH {
          assert Run(w, 1) == 1 by { assert Run(w, 0) == 0; }
        }
      } else {
        assert w[n..][k - n..] == w[k..];
        RunShift(w, n, k);
        assert Run(w, 0) == 0;
        if n == 1 && w[0] == BACKSLASH && Stops(w[k..]) {
          RunBelow(w, k);
        }
        assert n == 2 ==> Run(w, 1) <= 1;
      }
    }
  }

  /** A lone backslash in front of anything else is no part of a run that ends at a boundary. */
  lemma {:induction false} RunBelow(w: Text, k: nat)
    requires 1 <= k < |w| && |w| > 1 && w[1] !in {BACK_TICK, BACKSLASH, DOLLAR} && Stops(w[k..])
    ensures Run(w[1..], k - 1) < k - 1
  {
    if Run(w[1..], k - 1) == k - 1 && k > 1 {
      RunCovers(w[1..], k - 1, 0);
    }
  }

  lemma {:induction false} RunCovers(w: Text, k: nat, j: nat)
    requires j < k <= |w| && k - Run(w, k) <= j
    ensures w[j] == BACKSLASH
  {
    if j < k - 1 {
      RunCovers(w, k - 1, j);
    }
  }

  /** The raw scan stops at the first unescaped back-tick or `${`, and fails just when there is none. */
  lemma {:induction false} RawStopsAtFirstBoundary(w: Text, e: nat)
    ensures Raw(w).Some? && Raw(w).value.used == e <==> Boundary(w, e) && forall k :: 0 <= k < e ==> !Boundary(w, k)
    decreases |w|
  {
    if w != [] {
      assert w[0..] == w && Run(w, 0) == 0;
      if !Stops(w) {
        var n := RawStep(w);
        forall k | 0 <= k < e ensures k < n ==> !Boundary(w, k)
          ensures k >= n ==> (Boundary(w, k) <==> Boundary(w[n..], k - n)) {
          BoundaryShift(w, k);
        }
        BoundaryShift(w, e);
        if e >= n {
          RawStopsAtFirstBoundary(w[n..], e - n);
          if forall k :: 0 <= k < e - n ==> !Boundary(w[n..], k) {
            forall k | 0 <= k < e ensures !Boundary(w, k) {
              if k >= n {
                assert !Boundary(w[n..], k - n);
              }
            }
          } else {
            var k :| 0 <= k < e - n && Boundary(w[n..], k);
            assert Boundary(w, k + n);
          }
        }
      } else {
        assert Boundary(w, 0);
      }
    }
  }

  // ----- the raw text

  /** The raw text is the source slice with its line terminators normalized. */
  lemma {:induction false} RawIsNormalizedSlice(w: Text)
    ensures Raw(w).Some? ==> Raw(w).value.text == Normalize(w[..Raw(w).value.used])
    decreases |w|
  {
    if w != [] && !Stops(w) && Raw(w).Some? {
      var n := RawStep(w);
      RawIsNormalizedSlice(w[n..]);
      RawStopsAtFirstBoundary(w, Raw(w).value.used);
      NormalizeStep(w, Raw(w).value.used);
    }
  }

  lemma NormalizeStep(w: Text, e: nat)
    requires w != [] && !Stops(w) && RawStep(w) <= e < |w| && w[e] != LF
    ensures var n := RawStep(w);
      Normalize(w[..e]) == (if w[0] in {CR, LF} then [LF] else w[..n]) + Normalize(w[n..][..e - n])
  {
    var n, v := RawStep(w), w[..e];
    assert v[n..] == w[n..][..e - n];
    if n == 1 && w[0] == CR && e > 1 {
      assert v[1] == w[1];
    }
    if n == 2 && w[0] == BACKSLASH {
      assert v[1..][1..] == v[2..];
      assert w[..2] == [w[0]] + [w[1]];
    }
  }

  lemma {:induction false} NormalizeHasNoReturn(w: Text)
    ensures CR !in Normalize(w)
    ensures CR !in w ==> Normalize(w) == w
    decreases |w|
  {
    if w != [] {
      if w[0] in {CR, LF} {
        NormalizeHasNoReturn(w[Newline(w)..]);
      } else {
        NormalizeHasNoReturn(w[1..]);
      }
    }
  }

  // ----- agreement

  lemma ThenTwice(a: Text, n: nat, b: Text, m: nat, r: Option<Scan>)
    ensures Then(a, n, Then(b, m, r)) == Then(a + b, n + m, r)
  {
    if r.Some? {
      assert a + (b + r.value.text) == a + b + r.value.text;
    }
  }

  /** The cooked scan that began at `start` has come to `end`, and has read `text` up to there. */
  ghost predicate Reached(s: Text, start: nat, text: Text, end: nat)
    requires start <= end <= |s|
  {
    Cook(s[start..]) == Then(text, end - start, Cook(s[end..]))
  }

  /** Only ordinary code points stand from `a` up to `b`. */
  ghost predicate Stretch(s: Text, a: nat, b: nat)
    requires a <= b <= |s|
  {
    forall k :: a <= k < b ==> s[k] !in {CR, LF, BACKSLASH} && !Stops(s[k..])
  }

  lemma ReachedAtStart(s: Text, start: nat)
    requires start <= |s|
    ensures Reached(s, start, [], start)
  {
    var r := Cook(s[start..]);
    if r.Some? {
      assert [] + r.value.text == r.value.text;
    }
  }

  lemma CookOverPiece(s: Text, start: nat, text: Text, mid: nat, piece: Text, end: nat)
    requires start <= mid <= end <= |s| && Reached(s, start, text, mid) && Reached(s, mid, piece, end)
    ensures Reached(s, start, text + piece, end)
  {
    ThenChain(Cook(s[start..]), Cook(s[mid..]), Cook(s[end..]), text, mid - start, piece, end - mid);
    assert mid - start + (end - mid) == end - start;
  }

  lemma ThenChain(r: Option<Scan>, r': Option<Scan>, r'': Option<Scan>, a: Text, n: nat, b: Text, m: nat)
    requires r == Then(a, n, r') && r' == Then(b, m, r'')
    ensures r == Then(a + b, n + m, r'')
  {
    ThenTwice(a, n, b, m, r'');
  }

  lemma CookOverOne(s: Text, mid: nat)
    requires mid < |s| && s[mid] !in {CR, LF, BACKSLASH} && !Stops(s[mid..])
    ensures Reached(s, mid, [s[mid]], mid + 1)
  {
    assert s[mid..][1..] == s[mid + 1..];
  }

  lemma StretchEnds(s: Text, start: nat, text: Text, end: nat)
    requires start <= end <= |s| && Reached(s, start, text, end)
    ensures end == |s| ==> Cook(s[start..]) == None
    ensures end < |s| && Stops(s[end..]) ==> Cook(s[start..]) == Some(Scan(text, end - start))
  {
    assert text + [] == text;
  }

  lemma {:induction false} CookOverStretch(s: Text, start: nat, text: Text, mid: nat, end: nat)
    requires start <= mid <= end <= |s| && Reached(s, start, text, mid) && Stretch(s, mid, end)
    ensures Reached(s, start, text + s[mid..end], end)
    ensures end == |s| ==> Cook(s[start..]) == None
    ensures end < |s| && Stops(s[end..]) ==> Cook(s[start..]) == Some(Scan(text + s[mid..end], end - start))
    decreases end - mid
  {
    if mid == end {
      assert text + s[mid..end] == text;
      StretchEnds(s, start, text, end);
    } else {
      CookOverOne(s, mid);
      CookOverPiece(s, start, text, mid, [s[mid]], mid + 1);
      CookOverStretch(s, start, text + [s[mid]], mid + 1, end);
      assert text + [s[mid]] + s[mid + 1..end] == text + s[mid..end];
    }
  }

  /** The same for the raw scan. */
  ghost predicate RawReached(s: Text, start: nat, text: Text, end: nat)
    requires start <= end <= |s|
  {
    Raw(s[start..]) == Then(text, end - start, Raw(s[end..]))
  }

  lemma RawReachedAtStart(s: Text, start: nat)
    requires start <= |s|
    ensures RawReached(s, start, [], start)
  {
    var r := Raw(s[start..]);
    if r.Some? {
      assert [] + r.value.text == r.value.text;
    }
  }

  lemma RawOverPiece(s: Text, start: nat, text: Text, mid: nat, piece: Text, end: nat)
    requires start <= mid <= end <= |s| && RawReached(s, start, text, mid) && RawReached(s, mid, piece, end)
    ensures RawReached(s, start, text + piece, end)
  {
    ThenChain(Raw(s[start..]), Raw(s[mid..]), Raw(s[end..]), text, mid - start, piece, end - mid);
    assert mid - start + (end - mid) == end - start;
  }

  lemma RawOverNewline(s: Text, mid: nat)
    requires mid < |s| && s[mid] in {CR, LF}
    ensures RawReached(s, mid, [LF], mid + Newline(s[mid..]))
  {
    assert s[mid..][Newline(s[mid..])..] == s[mid + Newline(s[mid..])..];
  }

  lemma RawOverOther(s: Text, mid: nat)
    requires mid < |s| && s[mid] !in {CR, LF} && !Stops(s[mid..])
    ensures var n := RawStep(s[mid..]);
      RawReached(s, mid, if n == 2 then [s[mid], s[mid + 1]] else [s[mid]], mid + n)
  {
    var n := RawStep(s[mid..]);
    assert s[mid..][n..] == s[mid + n..];
    assert n == 2 ==> s[mid..][..2] == [s[mid], s[mid + 1]];
  }

  lemma RawEnds(s: Text, start: nat, text: Text, end: nat)
    requires start <= end <= |s| && RawReached(s, start, text, end)
    ensures end == |s| ==> Raw(s[start..]) == None
    ensures end < |s| && Stops(s[end..]) ==> Raw(s[start..]) == Some(Scan(text, end - start))
  {
    assert text + [] == text;
  }

  predicate Plain(c: CodePoint) {
    c !in {CR, LF, DOLLAR, BACK_TICK, BACKSLASH}
  }

  lemma {:induction false} RawOverPlain(w: Text, n: nat)
    requires n <= |w| && forall k :: 0 <= k < n ==> Plain(w[k])
    ensures Raw(w) == Then(w[..n], n, Raw(w[n..]))
    decreases n
  {
    if n == 0 {
      assert w[0..] == w;
      assert Raw(w).Some? ==> [] + Raw(w).value.text == Raw(w).value.text;
    } else {
      RawOverPlain(w[1..], n - 1);
      assert w[1..][n - 1..] == w[n..];
      ThenTwice([w[0]], 1, w[1..][..n - 1], n - 1, Raw(w[n..]));
      assert [w[0]] + w[1..][..n - 1] == w[..n];
    }
  }

  lemma {:induction false} CodePointEscapeIsPlain(w: Text, code: nat)
    ensures CodePointEscape(w, code).Some? ==> forall k :: 0 <= k < CodePointEscape(w, code).value.1 ==> Plain(w[k])
    decreases |w|
  {
    if w != [] && IsHexDigit(w[0]) {
      CodePointEscapeIsPlain(w[1..], code * 16 + HexValue(w[0]));
    }
  }

  lemma EscapeIsPlain(w: Text)
    requires Escape(w).Some? && Plain(w[0])
    ensures forall k :: 0 <= k < Escape(w).value.used ==> Plain(w[k])
  {
    if w[0] == LOWERCASE_X {
      HexEscapeLength(w[1..], 2, 0);
    } else if w[0] == LOWERCASE_U {
      HexEscapeLength(w[1..], 4, 0);
      if |w| > 1 && w[1] == LEFT_BRACE {
        CodePointEscapeIsPlain(w[2..], 0);
      }
    }
  }

  lemma RawOverPlainEscape(w: Text)
    requires w != [] && w[0] == BACKSLASH && Escape(w[1..]).Some? && Plain(w[1])
    ensures var n := 1 + Escape(w[1..]).value.used;
      Raw(w) == Then(w[..n], n, Raw(w[n..]))
  {
    var v := w[1..];
    var m := Escape(v).value.used;
    assert Raw(w) == Then([BACKSLASH], 1, Raw(v));
    EscapeIsPlain(v);
    RawOverPlain(v, m);
    ThenTwice([BACKSLASH], 1, v[..m], m, Raw(v[m..]));
    assert v[m..] == w[1 + m..];
    assert w[..1 + m] == [BACKSLASH] + v[..m];
  }

  /** Over a valid escape the raw scan goes on to the same place. */
  lemma RawOverEscape(w: Text) returns (prefix: Text)
    requires w != [] && w[0] == BACKSLASH && Escape(w[1..]).Some?
    ensures var n := 1 + Escape(w[1..]).value.used;
      && Raw(w) == Then(prefix, n, Raw(w[n..]))
      && prefix == if w[1] in {CR, LF} then [BACKSLASH, LF] else w[..n]
  {
    var v := w[1..];
    var m := Escape(v).value.used;
    assert v[m..] == w[1 + m..];
    if Plain(v[0]) {
      RawOverPlainEscape(w);
      prefix := w[..1 + m];
    } else if v[0] in {CR, LF} {
      ThenTwice([BACKSLASH], 1, [LF], m, Raw(v[m..]));
      prefix := [BACKSLASH, LF];
      assert prefix == [BACKSLASH] + [LF];
    } else {
      RawOverMarkEscape(w);
      prefix := w[..2];
    }
  }

  /** A backslash before a back-tick, a backslash or a dollar sign. */
  lemma RawOverMarkEscape(w: Text)
    requires w != [] && w[0] == BACKSLASH && Escape(w[1..]).Some? && !Plain(w[1]) && w[1] !in {CR, LF}
    ensures Escape(w[1..]).value.used == 1 && Raw(w) == Then(w[..2], 2, Raw(w[2..]))
  {
    assert w[1..][0] == w[1] && w[1..][1..] == w[2..];
  }

  /** Whenever the cooked scan succeeds, so does the raw scan, and both stop at the same place. */
  lemma {:induction false} ScannersAgree(w: Text)
    requires Cook(w).Some?
    ensures Raw(w).Some? && Raw(w).value.used == Cook(w).value.used
    decreases |w|
  {
    if !Stops(w) {
      if w[0] in {CR, LF} {
        ScannersAgree(w[Newline(w)..]);
      } else if w[0] == BACKSLASH {
        ScannersAgree(w[1 + Escape(w[1..]).value.used..]);
        var prefix := RawOverEscape(w);
      } else {
        ScannersAgree(w[1..]);
      }
    }
  }

  // ----- the raw text determines the cooked text

  /** The raw text, closed by a back-tick, as new source text. */
  function Closed(text: Text): Text {
    text + [BACK_TICK]
  }

  /** Up to the first code point that is not plain, the raw text is the source text. */
  lemma {:induction false} FirstBreak(w: Text) returns (k: nat)
    requires Raw(w).Some?
    ensures var u := Closed(Raw(w).value.text);
      && k < |w| && k < |u| && !Plain(w[k]) && !Plain(u[k]) && w[..k] == u[..k]
      && (forall j :: 0 <= j < k ==> Plain(w[j]))
    decreases |w|
  {
    if Plain(w[0]) {
      k := FirstBreak(w[1..]);
      var u, u' := Closed(Raw(w).value.text), Closed(Raw(w[1..]).value.text);
      assert u == [w[0]] + u';
      assert w[..k + 1] == [w[0]] + w[1..][..k];
      assert u[..k + 1] == [u[0]] + u'[..k];
      k := k + 1;
    } else {
      k := 0;
    }
  }

  /** Escapes read alike in two texts that are alike up to the first code point that is not plain. */
  ghost predicate Alike(w: Text, u: Text, k: nat) {
    k < |w| && k < |u| && !Plain(w[k]) && !Plain(u[k]) && w[..k] == u[..k]
  }

  lemma AlikeTails(w: Text, u: Text, k: nat)
    requires Alike(w, u, k) && k > 0
    ensures w[0] == u[0] && Alike(w[1..], u[1..], k - 1)
  {
    assert w[0] == w[..k][0] == u[..k][0];
    assert w[1..][..k - 1] == w[..k][1..];
    assert u[1..][..k - 1] == u[..k][1..];
  }

  lemma {:induction false} HexEscapeAlike(w: Text, u: Text, k: nat, n: nat, code: nat)
    requires Alike(w, u, k)
    ensures HexEscape(w, n, code) == HexEscape(u, n, code)
    decreases n
  {
    if n > 0 && k > 0 {
      AlikeTails(w, u, k);
      if IsHexDigit(w[0]) {
        HexEscapeAlike(w[1..], u[1..], k - 1, n - 1, code * 16 + HexValue(w[0]));
      }
    }
  }

  lemma {:induction false} CodePointEscapeAlike(w: Text, u: Text, k: nat, code: nat)
    requires Alike(w, u, k)
    ensures CodePointEscape(w, code) == CodePointEscape(u, code)
    decreases k
  {
    if k > 0 {
      AlikeTails(w, u, k);
      if IsHexDigit(w[0]) {
        CodePointEscapeAlike(w[1..], u[1..], k - 1, code * 16 + HexValue(w[0]));
      }
    }
  }

  lemma EscapeAlike(w: Text, u: Text, k: nat)
    requires Alike(w, u, k) && k > 0 && Plain(w[0])
    ensures Escape(w) == Escape(u)
  {
    AlikeTails(w, u, k);
    if w[0] == LOWERCASE_X {
      HexEscapeAlike(w[1..], u[1..], k - 1, 2, 0);
    } else if w[0] == LOWERCASE_U {
      HexEscapeAlike(w[1..], u[1..], k - 1, 4, 0);
      if k > 1 {
        AlikeTails(w[1..], u[1..], k - 1);
        assert w[1..][1..] == w[2..] && u[1..][1..] == u[2..];
        CodePointEscapeAlike(w[2..], u[2..], k - 2, 0);
      }
    } else {
      assert Plain(w[0]);
      if k > 1 {
        AlikeTails(w[1..], u[1..], k - 1);
        assert w[1] == u[1];
      } else {
        assert !IsDecimalDigit(w[1]) && !IsDecimalDigit(u[1]);
      }
    }
  }

  /** What a scan of the raw text must give, when the scans of the source gave `raw` and `cooked`. */
  function Again(raw: Scan, cooked: Option<Scan>): Option<Scan> {
    if cooked.Some? then Some(Scan(cooked.value.text, |raw.text|)) else None
  }

  lemma AgainStep(piece: Text, n: nat, out: Text, raw: Option<Scan>, cooked: Option<Scan>)
    requires raw.Some?
    ensures Then(out, |piece|, Again(raw.value, cooked)) == Again(Then(piece, n, raw).value, Then(out, n, cooked))
  {
  }

  /** Cooking the raw text gives what cooking the source gives, a text or an error. */
  ghost predicate CookedAgain(w: Text)
    requires Raw(w).Some?
  {
    Cook(Closed(Raw(w).value.text)) == Again(Raw(w).value, Cook(w))
  }

  /** Cooking the raw text gives the same result as cooking the source, be it a text or an error: the cooked value of
      an element is a function of its raw text. */
  lemma {:induction false} RawDeterminesCooked(w: Text)
    requires Raw(w).Some?
    ensures CookedAgain(w)
    decreases |w|, 1
  {
    var u := Closed(Raw(w).value.text);
    if Stops(w) {
      assert u == [BACK_TICK];
    } else if w[0] == BACKSLASH {
      CookedEscape(w);
    } else {
      var n := RawStep(w);
      var c := if w[0] == CR then LF else w[0];
      var rest := Raw(w[n..]).value.text;
      assert u == [c] + Closed(rest);
      assert u[1..] == Closed(rest);
      if w[0] == DOLLAR {
        DollarStaysAlone(w);
      }
      RawDeterminesCooked(w[n..]);
      AgainStep([c], n, [c], Raw(w[n..]), Cook(w[n..]));
    }
  }

  lemma PlainEscapeSurvives(v: Text)
    requires Raw(v).Some? && Plain(v[0])
    ensures Escape(Closed(Raw(v).value.text)) == Escape(v)
  {
    var k := FirstBreak(v);
    EscapeAlike(v, Closed(Raw(v).value.text), k);
  }

  lemma SimpleEscapes(v: Text, v': Text)
    requires v != [] && v' != [] && !Plain(v[0])
    requires v'[0] == if v[0] == CR then LF else v[0]
    ensures Escape(v') == (if v[0] in {CR, LF} then Some(Scan([], 1)) else Escape(v))
  {
  }

  lemma RawAfterBackslash(w: Text)
    requires Raw(w).Some? && w[0] == BACKSLASH
    ensures |w| > 1 && var u := Closed(Raw(w).value.text);
      && |u| > 1 && u[0] == BACKSLASH
      && (Plain(w[1]) ==> Raw(w[1..]).Some? && u[1..] == Closed(Raw(w[1..]).value.text))
      && (!Plain(w[1]) ==> u[1] == if w[1] == CR then LF else w[1])
  {
    var u := Closed(Raw(w).value.text);
    if Plain(w[1]) {
      assert u[1..] == Closed(Raw(w[1..]).value.text);
    } else if w[1] in {CR, LF} {
      assert Raw(w).value.text == [BACKSLASH] + Raw(w[1..]).value.text;
    } else {
      assert Raw(w).value.text == w[..2] + Raw(w[2..]).value.text;
    }
  }

  /** The escape at the front of `w` reads the same in the raw text. */
  lemma EscapeSurvives(w: Text)
    requires Raw(w).Some? && w[0] == BACKSLASH
    ensures |w| > 1 && var u := Closed(Raw(w).value.text);
      && u[0] == BACKSLASH
      && Escape(u[1..]) == (if w[1] in {CR, LF} then Some(Scan([], 1)) else Escape(w[1..]))
  {
    RawAfterBackslash(w);
    if Plain(w[1]) {
      PlainEscapeSurvives(w[1..]);
    } else {
      SimpleEscapes(w[1..], Closed(Raw(w).value.text)[1..]);
    }
  }

  lemma {:induction false} CookedEscape(w: Text)
    requires Raw(w).Some? && w[0] == BACKSLASH
    ensures CookedAgain(w)
    decreases |w|, 0
  {
    EscapeSurvives(w);
    if Escape(w[1..]).Some? {
      var u := Closed(Raw(w).value.text);
      var n := 1 + Escape(w[1..]).value.used;
      var prefix := RawOverEscape(w);
      assert |prefix| == 1 + Escape(u[1..]).value.used;
      assert u == prefix + Closed(Raw(w[n..]).value.text);
      assert u[|prefix|..] == Closed(Raw(w[n..]).value.text);
      RawDeterminesCooked(w[n..]);
      AgainStep(prefix, n, Escape(w[1..]).value.text, Raw(w[n..]), Cook(w[n..]));
    }
  }

  lemma DollarStaysAlone(w: Text)
    requires Raw(w).Some? && !Stops(w) && w[0] == DOLLAR
    ensures !Stops(Closed(Raw(w).value.text))
  {
    var u, v := Closed(Raw(w).value.text), Raw(w[1..]).value.text;
    assert u[1..] == Closed(v);
    if v != [] {
      assert v[0] == LF || v[0] == w[1];
    }
  }

  /** A raw text, closed by a back-tick, scans to itself. */
  lemma {:induction false} RawIsFixedPoint(w: Text)
    requires Raw(w).Some?
    ensures Raw(Closed(Raw(w).value.text)) == Some(Scan(Raw(w).value.text, |Raw(w).value.text|))
    decreases |w|
  {
    var raw := Raw(w).value.text;
    var u := Closed(raw);
    if Stops(w) {
      assert u == [BACK_TICK];
    } else {
      var n := RawStep(w);
      var rest := Raw(w[n..]).value.text;
      RawIsFixedPoint(w[n..]);
      if w[0] == BACKSLASH {
        RawAfterBackslash(w);
        assert n == 2 ==> u[..2] == w[..2] && u[2..] == Closed(rest);
        assert n == 1 ==> u[1..] == Closed(rest) && u[1] !in {BACK_TICK, BACKSLASH, DOLLAR};
      } else {
        assert u[1..] == Closed(rest);
        if w[0] == DOLLAR {
          DollarStaysAlone(w);
        }
      }
    }
  }

  /** A code point escape without digits is read as U+0000. */
  lemma EmptyCodePointEscape()
    ensures Cook([BACKSLASH, LOWERCASE_U, LEFT_BRACE, RIGHT_BRACE, BACK_TICK]) == Some(Scan([NUL], 4))
  {
    var w := [BACKSLASH, LOWERCASE_U, LEFT_BRACE, RIGHT_BRACE, BACK_TICK];
    assert w[1..][2..] == [RIGHT_BRACE, BACK_TICK];
    assert CodePointEscape(w[1..][2..], 0) == Some((0, 1));
    assert [NUL] + [] == [NUL];
    assert Escape(w[1..]) == Some(Scan([NUL], 3));
    assert w[4..] == [BACK_TICK];
  }

  /** All that holds of one element whose cooked scan succeeds. */
  lemma ElementFacts(w: Text)
    requires Cook(w).Some?
    ensures Raw(w).Some?
    ensures var e, raw := Cook(w).value.used, Raw(w).value.text;
      && Raw(w).value.used == e
      && Boundary(w, e) && (forall k :: 0 <= k < e ==> !Boundary(w, k))
      && raw == Normalize(w[..e]) && Cook(Closed(raw)) == Some(Scan(Cook(w).value.text, |raw|))
  {
    ScannersAgree(w);
    RawStopsAtFirstBoundary(w, Raw(w).value.used);
    RawIsNormalizedSlice(w);
    RawDeterminesCooked(w);
  }

  // ----- where the cooked scan fails

  /** An unescaped backslash with nothing valid behind it. */
  predicate BadEscape(w: Text, k: nat) {
    k < |w| && w[k] == BACKSLASH && Run(w, k) % 2 == 0 && Escape(w[k + 1..]) == None
  }

  /** How many code points one step of the cooked scan reads. */
  function CookStep(w: Text): (n: nat)
    requires w != [] && !Stops(w) && !(w[0] == BACKSLASH && Escape(w[1..]) == None)
    ensures 1 <= n <= |w|
  {
    if w[0] in {CR, LF} then Newline(w)
    else if w[0] == BACKSLASH then 1 + Escape(w[1..]).value.used
    else 1
  }

  lemma CookStepEndsEvenly(w: Text, k: nat)
    requires w != [] && !Stops(w) && !(w[0] == BACKSLASH && Escape(w[1..]) == None)
    ensures Run(w, CookStep(w)) % 2 == 0
    ensures k < CookStep(w) ==> !BadEscape(w, k)
  {
    var n := CookStep(w);
    assert Run(w, 0) == 0 && w[0..] == w;
    assert Run(w, 1) == if w[0] == BACKSLASH then 1 else 0;
    if w[0] == BACKSLASH {
      if Plain(w[1]) {
        EscapeIsPlain(w[1..]);
        assert w[n - 1] == w[1..][n - 2] && Plain(w[n - 1]);
        if 0 < k < n {
          assert w[k] == w[1..][k - 1];
        }
      } else {
        assert w[1..][0] == w[1];
      }
    }
  }

  lemma BadEscapeShift(w: Text, k: nat)
    requires w != [] && !Stops(w) && !(w[0] == BACKSLASH && Escape(w[1..]) == None)
    ensures var n := CookStep(w);
      BadEscape(w, k) <==> k >= n && BadEscape(w[n..], k - n)
  {
    var n := CookStep(w);
    CookStepEndsEvenly(w, k);
    if n <= k < |w| {
      RunShift(w, n, k);
      assert w[n..][k - n + 1..] == w[k + 1..];
    }
  }

  ghost predicate HasBadEscape(w: Text, e: nat) {
    exists k :: 0 <= k < e && BadEscape(w, k)
  }

  lemma HasBadEscapeShift(w: Text, e: nat)
    requires w != [] && !Stops(w) && !(w[0] == BACKSLASH && Escape(w[1..]) == None) && CookStep(w) <= e
    ensures HasBadEscape(w, e) <==> HasBadEscape(w[CookStep(w)..], e - CookStep(w))
  {
    var n := CookStep(w);
    if HasBadEscape(w, e) {
      var k :| 0 <= k < e && BadEscape(w, k);
      BadEscapeShift(w, k);
    }
    if HasBadEscape(w[n..], e - n) {
      var k :| 0 <= k < e - n && BadEscape(w[n..], k);
      BadEscapeShift(w, k + n);
    }
  }

  /** When the raw scan succeeds, the cooked scan fails just when an unescaped backslash before the end starts no
      valid escape. */
  lemma {:induction false} CookFailsAtBadEscape(w: Text)
    requires Raw(w).Some?
    ensures Cook(w) == None <==> HasBadEscape(w, Raw(w).value.used)
    decreases |w|
  {
    if !Stops(w) {
      if w[0] == BACKSLASH && Escape(w[1..]) == None {
        assert Run(w, 0) == 0;
        assert BadEscape(w, 0);
        assert Raw(w).value.used > 0;
      } else {
        RawOverStep(w);
        CookFailsAtBadEscape(w[CookStep(w)..]);
        HasBadEscapeShift(w, Raw(w).value.used);
      }
    }
  }

  lemma RawOverStep(w: Text)
    requires Raw(w).Some? && !Stops(w) && !(w[0] == BACKSLASH && Escape(w[1..]) == None)
    ensures Raw(w[CookStep(w)..]).Some? && Raw(w).value.used == CookStep(w) + Raw(w[CookStep(w)..]).value.used
    ensures Cook(w) == None <==> Cook(w[CookStep(w)..]) == None
  {
    if w[0] == BACKSLASH {
      var prefix := RawOverEscape(w);
    }
  }

  // ----- the values of escapes

  predicate AllHex(w: Text) {
    forall k :: 0 <= k < |w| ==> IsHexDigit(w[k])
  }

  lemma {:induction false} HexEscapeValue(w: Text, n: nat, code: nat)
    ensures HexEscape(w, n, code).Some? <==> n <= |w| && AllHex(w[..n])
    ensures HexEscape(w, n, code).Some? ==> HexEscape(w, n, code).value == code * Power(16, n) + ValueOf(w[..n], 16)
    decreases n
  {
    if n == 0 {
      assert code * Power(16, 0) == code;
    } else if w != [] {
      assert n <= |w| ==> w[..n][1..] == w[1..][..n - 1];
      if IsHexDigit(w[0]) {
        HexEscapeValue(w[1..], n - 1, code * 16 + HexValue(w[0]));
        if n <= |w| {
          assert w[..n] == [w[0]] + w[1..][..n - 1];
          HornerStep(code, HexValue(w[0]), n - 1);
        }
      } else if n <= |w| {
        assert w[..n][0] == w[0];
      }
    }
  }

  lemma HornerStep(code: nat, digit: nat, n: nat)
    ensures (code * 16 + digit) * Power(16, n) == code * Power(16, n + 1) + digit * Power(16, n)
    ensures code * 16 + digit <= (code * 16 + digit) * Power(16, n)
  {
    var p := Power(16, n);
    PowerPositive(n);
    assert Power(16, n + 1) == 16 * p;
    assert (code * 16 + digit) * p == code * (16 * p) + digit * p;
    assert code * 16 + digit <= (code * 16 + digit) * p;
  }

  lemma {:induction false} PowerPositive(n: nat)
    ensures Power(16, n) >= 1
  {
    if n > 0 {
      PowerPositive(n - 1);
    }
  }

  /** The `m` code points are hexadecimal digits and a closing brace. */
  predicate Braced(w: Text, m: nat) {
    1 <= m <= |w| && w[m - 1] == RIGHT_BRACE && AllHex(w[..m - 1])
  }

  /** A code point escape is read just when its value, digit by digit, is a code point. */
  lemma {:induction false} CodePointEscapeValue(w: Text, code: nat, m: nat, v: nat)
    requires code <= CODE_POINT_MAX
    ensures CodePointEscape(w, code) == Some((v, m)) <==>
            Braced(w, m) && v <= CODE_POINT_MAX && v == code * Power(16, m - 1) + ValueOf(w[..m - 1], 16)
    decreases |w|
  {
    if w != [] {
      if m == 1 {
        assert code * Power(16, 0) == code;
        assert w[..0] == [];
      } else if 1 < m <= |w| && IsHexDigit(w[0]) {
        var next := code * 16 + HexValue(w[0]);
        var w' := w[1..];
        assert w[..m - 1] == [w[0]] + w'[..m - 2];
        assert w[..m - 1][1..] == w'[..m - 2];
        HornerStep(code, HexValue(w[0]), m - 2);
        if next <= CODE_POINT_MAX {
          CodePointEscapeValue(w', next, m - 1, v);
        }
      } else if 1 < m <= |w| {
        assert w[..m - 1][0] == w[0];
      }
    }
  }

  /** A code point escape of ECMA-262 behind the opening brace: at least one digit, and a value that is a code point. */
  predicate IsEcmaEscape(w: Text, v: nat, m: nat) {
    2 <= m && Braced(w, m) && v <= CODE_POINT_MAX && v == ValueOf(w[..m - 1], 16)
  }

  /** The escapes read are those of ECMA-262 exactly when the braces are not empty. */
  lemma CodePointEscapeIsEcma(w: Text)
    ensures (forall v: nat, m: nat :: CodePointEscape(w, 0) == Some((v, m)) <==> IsEcmaEscape(w, v, m))
            <==> !(w != [] && w[0] == RIGHT_BRACE)
  {
    if w != [] && w[0] == RIGHT_BRACE {
      assert CodePointEscape(w, 0) == Some((0, 1)) && !IsEcmaEscape(w, 0, 1);
    } else {
      forall v: nat, m: nat ensures CodePointEscape(w, 0) == Some((v, m)) <==> IsEcmaEscape(w, v, m) {
        CodePointEscapeValue(w, 0, m, v);
      }
    }
  }
}
