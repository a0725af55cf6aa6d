/** Numeric literals with a radix prefix, as far as they follow the prefix: digits, separators, and the value that the
    digits have. */
module RadixLiteral {
  import opened Options
  import opened Digits

  datatype Radix = Binary | Octal | Hexadecimal

  const UNDERSCORE := 0x5F

  predicate IsDigit(radix: Radix, c: CodePoint) {
    match radix
    case Binary => IsBinaryDigit(c)
    case Octal => IsOctalDigit(c)
    case Hexadecimal => IsHexDigit(c)
  }

  function Base(radix: Radix): nat {
    match radix
    case Binary => 2
    case Octal => 8
    case Hexadecimal => 16
  }

  predicate InLiteral(radix: Radix, c: CodePoint) {
    IsDigit(radix, c) || c == UNDERSCORE
  }

  /** The literal is the longest run of digits and separators. */
  predicate IsLiteralAt(radix: Radix, w: seq<CodePoint>, n: nat) {
    && n <= |w| && (forall k :: 0 <= k < n ==> InLiteral(radix, w[k]))
    && (n < |w| ==> !InLiteral(radix, w[n]))
  }

  function LiteralLength(radix: Radix, w: seq<CodePoint>): (n: nat)
    ensures IsLiteralAt(radix, w, n)
  {
    if w == [] || !InLiteral(radix, w[0]) then 0
    else
      var n := LiteralLength(radix, w[1..]);
      assert forall k :: 0 <= k < n + 1 ==> InLiteral(radix, w[k]) by {
        forall k | 0 <= k < n + 1 ensures InLiteral(radix, w[k]) {
          if k > 0 {
            assert w[k] == w[1..][k - 1];
          }
        }
      }
      n + 1
  }

  /** Non-empty runs of digits joined by single separators. */
  predicate WellSeparated(radix: Radix, allowSeparator: bool, t: seq<CodePoint>) {
    && t != [] && IsDigit(radix, t[0]) && IsDigit(radix, t[|t| - 1])
    && (forall k :: 0 < k < |t| ==> IsDigit(radix, t[k]) || IsDigit(radix, t[k - 1]))
    && (!allowSeparator ==> UNDERSCORE !in t)
  }

  /** The digits alone. */
  function Stripped(t: seq<CodePoint>): seq<CodePoint> {
    if t == [] then []
    else if t[|t| - 1] == UNDERSCORE then Stripped(t[..|t| - 1])
    else Stripped(t[..|t| - 1]) + [t[|t| - 1]]
  }

  lemma StrippedSnoc(t: seq<CodePoint>, c: CodePoint)
    ensures Stripped(t + [c]) == Stripped(t) + (if c == UNDERSCORE then [] else [c])
  {
    assert (t + [c])[..|t|] == t;
    assert Stripped(t) + [] == Stripped(t);
  }

  lemma {:induction false} StrippedAreDigits(radix: Radix, t: seq<CodePoint>)
    requires forall k :: 0 <= k < |t| ==> InLiteral(radix, t[k])
    ensures forall k :: 0 <= k < |Stripped(t)| ==> IsHexDigit(Stripped(t)[k])
    decreases |t|
  {
    if t != [] {
      StrippedAreDigits(radix, t[..|t| - 1]);
    }
  }

  /** The value the literal stands for. */
  function LiteralValue(radix: Radix, t: seq<CodePoint>): nat
    requires forall k :: 0 <= k < |t| ==> InLiteral(radix, t[k])
  {
    StrippedAreDigits(radix, t);
    ValueOf(Stripped(t), Base(radix))
  }

  lemma LiteralValueSnoc(radix: Radix, t: seq<CodePoint>, c: CodePoint)
    requires (forall k :: 0 <= k < |t| ==> InLiteral(radix, t[k])) && InLiteral(radix, c)
    ensures LiteralValue(radix, t + [c]) ==
            if IsDigit(radix, c) then LiteralValue(radix, t) * Base(radix) + HexValue(c) else LiteralValue(radix, t)
  {
    StrippedSnoc(t, c);
    StrippedAreDigits(radix, t);
    if IsDigit(radix, c) {
      ValueOfSnoc(Stripped(t), c, Base(radix));
    }
  }

  /** The first `n` code points are all in the literal. */
  lemma LiteralGoesOn(radix: Radix, w: seq<CodePoint>, n: nat)
    requires n <= |w| && forall k :: 0 <= k < n ==> InLiteral(radix, w[k])
    ensures n <= LiteralLength(radix, w)
    ensures n == |w| || !InLiteral(radix, w[n]) ==> n == LiteralLength(radix, w)
  {
  }

  /** The scanner has read `t`: all of it may stand in a literal, and `value` is what it is worth. */
  ghost predicate Scanned(radix: Radix, allowSeparator: bool, t: seq<CodePoint>, allowNumericOnNext: bool, value: nat,
                          hasUnderscore: bool) {
    && (forall k :: 0 <= k < |t| ==> InLiteral(radix, t[k]))
    && (forall k :: 0 < k < |t| ==> IsDigit(radix, t[k]) || IsDigit(radix, t[k - 1]))
    && (if t == [] then allowNumericOnNext
        else IsDigit(radix, t[0]) && (allowNumericOnNext <==> IsDigit(radix, t[|t| - 1])))
    && (!allowSeparator ==> UNDERSCORE !in t)
    && value == LiteralValue(radix, t)
    && (hasUnderscore <==> UNDERSCORE in t)
  }

  /** The scanner has read the first `n` code points of `w`. */
  ghost predicate ScannedTo(radix: Radix, allowSeparator: bool, w: seq<CodePoint>, n: nat, allowNumericOnNext: bool,
                            value: nat, hasUnderscore: bool) {
    n <= |w| && Scanned(radix, allowSeparator, w[..n], allowNumericOnNext, value, hasUnderscore)
  }

  /** Multiply and add. */
  function Accumulated(radix: Radix, value: nat, c: CodePoint): nat
    requires IsDigit(radix, c)
  {
    value * Base(radix) + HexValue(c)
  }

  lemma ScannedDigit(radix: Radix, allowSeparator: bool, w: seq<CodePoint>, n: nat, allowNumericOnNext: bool,
                     value: nat,
                     hasUnderscore: bool)
    requires ScannedTo(radix, allowSeparator, w, n, allowNumericOnNext, value, hasUnderscore)
    requires n < |w| && IsDigit(radix, w[n])
    ensures ScannedTo(radix, allowSeparator, w, n + 1, true, Accumulated(radix, value, w[n]), hasUnderscore)
  {
    assert w[..n + 1] == w[..n] + [w[n]];
    LiteralValueSnoc(radix, w[..n], w[n]);
  }

  lemma ScannedSeparator(radix: Radix, w: seq<CodePoint>, n: nat, value: nat, hasUnderscore: bool)
    requires ScannedTo(radix, true, w, n, true, value, hasUnderscore) && 0 < n < |w| && w[n] == UNDERSCORE
    ensures ScannedTo(radix, true, w, n + 1, false, value, true)
  {
    assert w[..n + 1] == w[..n] + [w[n]];
    LiteralValueSnoc(radix, w[..n], UNDERSCORE);
  }

  /** The scanner gives up at a separator that the literal must not have. */
  lemma ScannedFails(radix: Radix, allowSeparator: bool, w: seq<CodePoint>, n: nat, allowNumericOnNext: bool,
                     value: nat,
                     hasUnderscore: bool)
    requires n < |w| && ScannedTo(radix, allowSeparator, w, n, allowNumericOnNext, value, hasUnderscore)
    requires w[n] == UNDERSCORE && (!allowSeparator || !allowNumericOnNext)
    ensures forall m :: IsRead(radix, allowSeparator, w, None, m)
  {
    forall k | 0 <= k < n + 1 ensures InLiteral(radix, w[k]) {
      if k < n {
        assert w[k] == w[..n][k];
      }
    }
    LiteralGoesOn(radix, w, n + 1);
    var literal := w[..LiteralLength(radix, w)];
    assert literal[n] == UNDERSCORE;
    if allowSeparator {
      assert literal[n - 1] == w[..n][n - 1];
    }
  }

  /** The scanner has come to the end of the literal. */
  lemma ScannedAll(radix: Radix, allowSeparator: bool, w: seq<CodePoint>, n: nat, allowNumericOnNext: bool, value: nat,
                     hasUnderscore: bool)
    requires 0 < n <= |w| && ScannedTo(radix, allowSeparator, w, n, allowNumericOnNext, value, hasUnderscore)
    requires n < |w| ==> !InLiteral(radix, w[n])
    ensures hasUnderscore <==> UNDERSCORE in w[..n]
    ensures allowNumericOnNext ==> IsRead(radix, allowSeparator, w, Some(value), n)
    ensures !allowNumericOnNext ==> forall m :: IsRead(radix, allowSeparator, w, None, m)
  {
    forall k | 0 <= k < n ensures InLiteral(radix, w[k]) {
      assert w[k] == w[..n][k];
    }
    LiteralGoesOn(radix, w, n);
  }

  /** The literal at the start of `w` is read right: the scanner accepts it exactly when it is well separated, then
      returns its value, and stops behind its `n` code points. */
  ghost predicate IsRead(radix: Radix, allowSeparator: bool, w: seq<CodePoint>, number: Option<nat>, n: int) {
    var literal := w[..LiteralLength(radix, w)];
    && (number.Some? <==> WellSeparated(radix, allowSeparator, literal))
    && (number.Some? ==> number.value == LiteralValue(radix, literal) && n == |literal|)
  }

  lemma NoDigitFails(radix: Radix, allowSeparator: bool, w: seq<CodePoint>, n: int)
    requires w == [] || !IsDigit(radix, w[0])
    ensures IsRead(radix, allowSeparator, w, None, n)
  {
  }

  /** The digits and the base of each radix, and the separator. */
  lemma RadixIs(c: CodePoint)
    ensures IsDigit(Binary, c) <==> c == 0x30 || c == 0x31
    ensures IsDigit(Octal, c) <==> 0x30 <= c <= 0x37
    ensures IsDigit(Hexadecimal, c) <==> 0x30 <= c <= 0x39 || 0x41 <= c <= 0x46 || 0x61 <= c <= 0x66
    ensures InLiteral(Binary, c) && !IsDigit(Binary, c) <==> c == 0x5F
    ensures Base(Binary) == 2 && Base(Octal) == 8 && Base(Hexadecimal) == 16
  {
  }

  /** The value skips separators and otherwise is positional. */
  lemma LiteralValueIs(radix: Radix, t: seq<CodePoint>, c: CodePoint)
    requires (forall k :: 0 <= k < |t| ==> InLiteral(radix, t[k])) && InLiteral(radix, c)
    ensures LiteralValue(radix, []) == 0
    ensures c == 0x5F ==> LiteralValue(radix, t + [c]) == LiteralValue(radix, t)
    ensures c != 0x5F && radix == Binary ==> LiteralValue(radix, t + [c]) == LiteralValue(radix, t) * 2 + HexValue(c)
    ensures c != 0x5F && radix == Octal ==> LiteralValue(radix, t + [c]) == LiteralValue(radix, t) * 8 + HexValue(c)
    ensures c != 0x5F && radix == Hexadecimal ==>
              LiteralValue(radix, t + [c]) == LiteralValue(radix, t) * 16 + HexValue(c)
  {
    LiteralValueSnoc(radix, t, c);
  }
}
