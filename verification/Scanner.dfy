/** The scanner's loops: one template element, and the digits of a literal with a radix prefix, over a position that
    moves through the source. */
module Scanner {
  import opened Options
  import opened Digits
  import opened TemplateText
  import opened RadixLiteral
  import T = TemplateTheory

  /** The result of the raw scan. */
  datatype TemplateString = TemplateString(str: Text, end: nat, scanExpression: bool)

  datatype TemplateElement = TemplateElement(raw: Text, cooked: Text, start: nat, end: nat)

  function CountNewlines(text: Text): nat {
    if text == [] then 0 else CountNewlines(text[..|text| - 1]) + (if text[|text| - 1] == LF then 1 else 0)
  }

  class Lexer {
    const source: Text
    var pos: nat
    var line: nat
    var hasEscape: bool
    var src: Text
    var hasUnderscore: bool

    constructor (source: Text)
      ensures this.source == source && pos == 0 && line == 0
    {
      this.source, pos, line, hasEscape, src, hasUnderscore := source, 0, 0, false, [], false;
    }

    ghost predicate Valid()
      reads this`pos
    {
      pos <= |source|
    }

    ghost function Ahead(): Text
      requires Valid()
      reads this`pos
    {
      source[pos..]
    }

    predicate At(c: CodePoint)
      requires Valid()
      reads this`pos
    {
      pos < |source| && source[pos] == c
    }

    /** Steps over CR, CR LF or LF. */
    method ScanNewline()
      requires Valid() && (At(CR) || At(LF))
      modifies this`pos, this`line
      ensures pos == old(pos) + Newline(old(Ahead())) && Valid() && Ahead() == old(Ahead())[Newline(old(Ahead()))..]
      ensures line == old(line) + 1
    {
      if At(CR) {
        pos := pos + 1;
        if !At(LF) {
          pos := pos - 1;
        }
      }
      line := line + 1;
      pos := pos + 1;
    }

    method ScanHexEscape(n: nat) returns (code: Option<nat>)
      requires Valid()
      modifies this`pos
      ensures Valid() && old(pos) <= pos && code == HexEscape(old(Ahead()), n, 0)
      ensures code.Some? ==> pos == old(pos) + n
    {
      var value: nat := 0;
      for i := 0 to n
        invariant Valid() && pos == old(pos) + i
        invariant HexEscape(old(Ahead()), n, 0) == HexEscape(Ahead(), n - i, value)
      {
        if pos == |source| || !IsHexDigit(source[pos]) {
          return None;
        }
        value := value * 16 + HexValue(source[pos]);
        pos := pos + 1;
      }
      return Some(value);
    }

    method ScanUnicodeCodePointEscape() returns (code: Option<nat>)
      requires Valid()
      modifies this`pos
      ensures Valid() && old(pos) <= pos
      ensures code.Some? <==> CodePointEscape(old(Ahead()), 0).Some?
      ensures code.Some? ==> CodePointEscape(old(Ahead()), 0).value == (code.value, pos - old(pos))
    {
      var value: nat := 0;
      while pos < |source| && IsHexDigit(source[pos])
        invariant Valid() && old(pos) <= pos
        invariant CodePointEscape(Ahead(), value).Some? <==> CodePointEscape(old(Ahead()), 0).Some?
        invariant CodePointEscape(Ahead(), value).Some? ==>
                    CodePointEscape(old(Ahead()), 0).value ==
                    (CodePointEscape(Ahead(), value).value.0, pos - old(pos) + CodePointEscape(Ahead(), value).value.1)
        decreases |source| - pos
      {
        value := value * 16 + HexValue(source[pos]);
        if value > CODE_POINT_MAX {
          return None;
        }
        pos := pos + 1;
      }
      if !At(RIGHT_BRACE) {
        return None;
      }
      pos := pos + 1;
      return Some(value);
    }

    method ScanUnicodeEscapeSequence() returns (code: Option<nat>)
      requires Valid() && At(LOWERCASE_U)
      modifies this`pos
      ensures Valid() && old(pos) <= pos
      ensures code.Some? <==> UnicodeEscape(old(Ahead())).Some?
      ensures code.Some? ==> UnicodeEscape(old(Ahead())).value == Scan([code.value], pos - old(pos))
    {
      pos := pos + 1;
      if At(LEFT_BRACE) {
        pos := pos + 1;
        assert source[pos..] == old(Ahead())[2..];
        code := ScanUnicodeCodePointEscape();
      } else {
        assert source[pos..] == old(Ahead())[1..];
        code := ScanHexEscape(4);
      }
    }

    /** What stands after a backslash; the result is what it adds to the string. */
    method ScanStringUnicodePart() returns (out: Option<Text>)
      requires Valid()
      modifies this`pos, this`line
      ensures Valid() && old(pos) <= pos
      ensures out.Some? <==> Escape(old(Ahead())).Some?
      ensures out.Some? ==> Escape(old(Ahead())).value == Scan(out.value, pos - old(pos))
    {
      if pos == |source| {
        return None;
      }
      var cp := source[pos];
      if cp in {CR, LF} {
        ScanNewline();
        return Some([]);
      }
      if cp in {LS, PS} {
        line := line + 1;
        pos := pos + 1;
        return Some([]);
      }
      if cp == LOWERCASE_X {
        pos := pos + 1;
        assert source[pos..] == old(Ahead())[1..];
        var code := ScanHexEscape(2);
        return if code == None then None else Some([code.value]);
      }
      if cp == LOWERCASE_U {
        var code := ScanUnicodeEscapeSequence();
        return if code == None then None else Some([code.value]);
      }
      if cp == CHAR_0 && (pos + 1 == |source| || !IsDecimalDigit(source[pos + 1])) {
        cp := NUL;
      } else if IsDecimalDigit(cp) {
        return None;
      } else {
        cp := SingleEscape(cp);
      }
      pos := pos + 1;
      return Some([cp]);
    }

    /** A line terminator or an escape: the stretch in front of it is copied, then what it stands for is added. */
    method ScanEscaped(startPos: nat, str: Text, escapeEnd: nat) returns (str': Option<Text>)
      requires Valid() && (At(CR) || At(LF) || At(BACKSLASH))
      requires startPos <= escapeEnd <= pos && T.Reached(source, startPos, str, escapeEnd)
      requires T.Stretch(source, escapeEnd, pos)
      modifies this`pos, this`line
      ensures Valid() && old(pos) <= pos && startPos <= pos
      ensures str'.Some? ==> old(pos) < pos && T.Reached(source, startPos, str'.value, pos)
      ensures str' == None ==> Cook(source[startPos..]) == None
    {
      var at := pos;
      var piece: Option<Text> := Some([LF]);
      if At(BACKSLASH) {
        pos := pos + 1;
        assert source[pos..] == source[at..][1..];
        piece := ScanStringUnicodePart();
        assert source[pos..] == source[at..][pos - at..];
      } else {
        ScanNewline();
      }
      T.CookOverStretch(source, startPos, str, escapeEnd, at);
      if piece == None {
        return None;
      }
      T.CookOverPiece(source, startPos, str + source[escapeEnd..at], at, piece.value, pos);
      return Some(str + source[escapeEnd..at] + piece.value);
    }

    /** The cooked scan up to a back-tick or `${`. Stretches without escapes are copied from the source in one piece. */
    method ScanString() returns (ok: bool)
      requires Valid()
      modifies this`pos, this`line, this`hasEscape, this`src
      ensures Valid() && old(pos) <= pos
      ensures ok <==> Cook(old(Ahead())).Some?
      ensures ok ==> Cook(old(Ahead())).value == Scan(src, pos - old(pos))
    {
      var startPos := pos;
      var escapeEnd := pos;
      var str: Text := [];
      hasEscape := false;
      T.ReachedAtStart(source, pos);
      while pos < |source| && !Stops(source[pos..])
        invariant Valid() && startPos <= escapeEnd <= pos
        invariant !hasEscape ==> str == [] && escapeEnd == startPos
        invariant T.Reached(source, startPos, str, escapeEnd) && T.Stretch(source, escapeEnd, pos)
        decreases |source| - pos
      {
        if At(CR) || At(LF) || At(BACKSLASH) {
          hasEscape := true;
          var str' := ScanEscaped(startPos, str, escapeEnd);
          if str' == None {
            return false;
          }
          str := str'.value;
          escapeEnd := pos;
        } else {
          pos := pos + 1;
        }
      }
      ok := FinishString(startPos, str, escapeEnd);
    }

    method FinishString(startPos: nat, str: Text, escapeEnd: nat) returns (ok: bool)
      requires Valid() && startPos <= escapeEnd <= pos && T.Reached(source, startPos, str, escapeEnd)
      requires T.Stretch(source, escapeEnd, pos) && (pos == |source| || Stops(source[pos..]))
      requires !hasEscape ==> str == [] && escapeEnd == startPos
      modifies this`src
      ensures ok <==> Cook(source[startPos..]).Some?
      ensures ok ==> Cook(source[startPos..]).value == Scan(src, pos - startPos)
    {
      T.CookOverStretch(source, startPos, str, escapeEnd, pos);
      if pos == |source| {
        return false;
      }
      if hasEscape {
        src := str + source[escapeEnd..pos];
      } else {
        src := source[startPos..pos];
      }
      return true;
    }

    /** The raw scan; it leaves the position at the back-tick, or behind `${`. */
    method ScanTemplateString() returns (t: Option<TemplateString>)
      requires Valid()
      modifies this`pos, this`line
      ensures Valid()
      ensures t.Some? <==> Raw(old(Ahead())).Some?
      ensures t.Some? ==>
                && old(pos) <= t.value.end < |source|
                && Raw(old(Ahead())).value == Scan(t.value.str, t.value.end - old(pos))
                && t.value.scanExpression == (source[t.value.end] == DOLLAR)
                && pos == (if t.value.scanExpression then t.value.end + 2 else t.value.end)
                && line == old(line) + CountNewlines(t.value.str)
    {
      var str: Text := [];
      ghost var start := pos;
      T.RawReachedAtStart(source, pos);
      while pos < |source| && !Stops(source[pos..])
        invariant Valid() && start <= pos && line == old(line) + CountNewlines(str)
        invariant T.RawReached(source, start, str, pos)
        decreases |source| - pos
      {
        str := ScanRawPiece(start, str);
      }
      t := FinishTemplateString(start, str);
    }

    method FinishTemplateString(ghost start: nat, str: Text) returns (t: Option<TemplateString>)
      requires Valid() && start <= pos && T.RawReached(source, start, str, pos)
      requires pos == |source| || Stops(source[pos..])
      modifies this`pos
      ensures Valid()
      ensures t.Some? <==> Raw(source[start..]).Some?
      ensures t.Some? ==>
                && t.value.str == str && t.value.end == old(pos) < |source|
                && Raw(source[start..]).value == Scan(str, t.value.end - start)
                && t.value.scanExpression == (source[t.value.end] == DOLLAR)
                && pos == (if t.value.scanExpression then t.value.end + 2 else t.value.end)
    {
      T.RawEnds(source, start, str, pos);
      if pos == |source| {
        return None;
      }
      if At(BACK_TICK) {
        return Some(TemplateString(str, pos, false));
      }
      t := Some(TemplateString(str, pos, true));
      pos := pos + 2;
    }

    /** One step of the raw scan: a line terminator, a backslash with what it escapes, or one code point. */
    method ScanRawPiece(ghost start: nat, str: Text) returns (str': Text)
      requires Valid() && pos < |source| && !Stops(source[pos..])
      requires start <= pos && T.RawReached(source, start, str, pos)
      modifies this`pos, this`line
      ensures Valid() && old(pos) < pos && T.RawReached(source, start, str', pos)
      ensures line == old(line) + CountNewlines(str') - CountNewlines(str)
    {
      ghost var at := pos;
      var cp := source[pos];
      if cp in {CR, LF} {
        T.RawOverNewline(source, at);
        ScanNewline();
        T.RawOverPiece(source, start, str, at, [LF], pos);
        CountSnoc(str, LF);
        return str + [LF];
      }
      str' := ScanRawCodePoint(start, str);
    }

    /** A code point, and with a backslash what it escapes. */
    method ScanRawCodePoint(ghost start: nat, str: Text) returns (str': Text)
      requires Valid() && pos < |source| && !Stops(source[pos..]) && source[pos] !in {CR, LF}
      requires start <= pos && T.RawReached(source, start, str, pos)
      modifies this`pos
      ensures Valid() && old(pos) < pos && T.RawReached(source, start, str', pos)
      ensures CountNewlines(str') == CountNewlines(str)
    {
      ghost var at := pos;
      var cp := source[pos];
      T.RawOverOther(source, at);
      str' := str + [cp];
      CountSnoc(str, cp);
      pos := pos + 1;
      if cp == BACKSLASH && pos < |source| && source[pos] in {BACK_TICK, BACKSLASH, DOLLAR} {
        CountSnoc(str', source[pos]);
        T.RawOverPiece(source, start, str, at, [cp, source[pos]], pos + 1);
        assert str' + [source[pos]] == str + [cp, source[pos]];
        str' := str' + [source[pos]];
        pos := pos + 1;
      } else {
        T.RawOverPiece(source, start, str, at, [cp], pos);
      }
    }

    static lemma CountSnoc(text: Text, c: CodePoint)
      ensures CountNewlines(text + [c]) == CountNewlines(text) + (if c == LF then 1 else 0)
    {
      assert (text + [c])[..|text|] == text;
    }

    /** What an element of `source` is, when `w` is the text from its start on: it ends at the first boundary, its raw
        text is the normalized source, and the raw text cooks to the cooked text. */
    static ghost predicate IsElement(source: Text, w: Text, e: TemplateElement) {
      && e.start <= e.end < |source| && T.Boundary(w, e.end - e.start)
      && (forall k :: 0 <= k < e.end - e.start ==> !T.Boundary(w, k))
      && e.raw == Normalize(source[e.start..e.end])
      && Cook(T.Closed(e.raw)) == Some(Scan(e.cooked, |e.raw|))
    }

    static lemma ElementOf(source: Text, start: nat, w: Text, cooked: Text, t: Option<TemplateString>)
      requires start <= |source| && w == source[start..] && Cook(w).Some? && Cook(w).value.text == cooked
      requires t.Some? <==> Raw(w).Some?
      requires t.Some? ==> start <= t.value.end < |source| && Raw(w).value == Scan(t.value.str, t.value.end - start)
      ensures t.Some? && IsElement(source, w, TemplateElement(t.value.str, cooked, start, t.value.end))
    {
      T.ElementFacts(w);
      assert w[..t.value.end - start] == source[start..t.value.end];
    }

    /** One element of an untagged template: the cooked scan, a rewind, and the raw scan over the same text. */
    method ScanElement() returns (element: Option<TemplateElement>, scanExpression: bool)
      requires Valid()
      modifies this`pos, this`line, this`hasEscape, this`src
      ensures Valid()
      ensures element.Some? <==> Cook(old(Ahead())).Some?
      ensures element.Some? ==>
                && var e := element.value;
                && e.start == old(pos) && IsElement(source, old(Ahead()), e)
                && scanExpression == (source[e.end] == DOLLAR)
                && pos == (if scanExpression then e.end + 2 else e.end)
                && line == old(line) + CountNewlines(e.raw)
    {
      ghost var w := Ahead();
      var startPos, startLine, startEscape, startSrc := pos, line, hasEscape, src;
      var ok := ScanString();
      if !ok {
        return None, false;
      }
      var cooked := src;
      pos, line, hasEscape, src := startPos, startLine, startEscape, startSrc;
      var t := ScanTemplateString();
      ElementOf(source, startPos, w, cooked, t);
      return Some(TemplateElement(t.value.str, cooked, startPos, t.value.end)), t.value.scanExpression;
    }

    /** The digits after `0b`, `0o` or `0x`. */
    method ScanNumberRadix(radix: Radix, allowNumericSeparator: bool) returns (number: Option<nat>)
      requires Valid()
      modifies this`pos, this`hasUnderscore
      ensures Valid() && old(pos) <= pos
      ensures IsRead(radix, allowNumericSeparator, old(Ahead()), number, pos - old(pos))
      ensures number.Some? ==>
                (hasUnderscore <==> old(hasUnderscore) || UNDERSCORE in source[old(pos)..pos])
    {
      ghost var w := Ahead();
      if pos == |source| || !IsDigit(radix, source[pos]) {
        NoDigitFails(radix, allowNumericSeparator, w, 0);
        return None;
      }
      var value: nat, allowNumericOnNext := 0, true;
      ghost var n, seen := 0, false;
      while true
        invariant Valid() && pos == old(pos) + n && n <= |w|
        invariant ScannedTo(radix, allowNumericSeparator, w, n, allowNumericOnNext, value, seen)
        invariant n == 0 ==> w != [] && IsDigit(radix, w[0])
        invariant hasUnderscore <==> old(hasUnderscore) || seen
        decreases |source| - pos
      {
        if pos < |source| && IsDigit(radix, source[pos]) {
          assert source[pos] == w[n];
          ScannedDigit(radix, allowNumericSeparator, w, n, allowNumericOnNext, value, seen);
          value := Accumulated(radix, value, source[pos]);
          pos, n := pos + 1, n + 1;
          allowNumericOnNext := true;
          continue;
        }
        if At(UNDERSCORE) {
          if !allowNumericSeparator || !allowNumericOnNext {
            ScannedFails(radix, allowNumericSeparator, w, n, allowNumericOnNext, value, seen);
            return None;
          }
          ScannedSeparator(radix, w, n, value, seen);
          hasUnderscore, seen := true, true;
          pos, n := pos + 1, n + 1;
          allowNumericOnNext := false;
          continue;
        }
        break;
      }
      ScannedAll(radix, allowNumericSeparator, w, n, allowNumericOnNext, value, seen);
      if !allowNumericOnNext {
        return None;
      }
      assert w[..n] == source[old(pos)..pos];
      return Some(value);
    }
  }
}
