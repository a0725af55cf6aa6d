/** Digits of numeric literals and escapes, on code points. */
module Digits {
  type CodePoint = nat

  const CHAR_0 := 0x30
  const CHAR_7 := 0x37
  const CHAR_9 := 0x39
  const UPPERCASE_A := 0x41
  const UPPERCASE_F := 0x46
  const LOWERCASE_A := 0x61
  const LOWERCASE_F := 0x66

  predicate IsDecimalDigit(c: CodePoint) {
    CHAR_0 <= c <= CHAR_9
  }

  predicate IsHexDigit(c: CodePoint) {
    IsDecimalDigit(c) || UPPERCASE_A <= c <= UPPERCASE_F || LOWERCASE_A <= c <= LOWERCASE_F
  }

  predicate IsOctalDigit(c: CodePoint) {
    CHAR_0 <= c <= CHAR_7
  }

  predicate IsBinaryDigit(c: CodePoint) {
    c == CHAR_0 || c == CHAR_0 + 1
  }

  /** Both letter cases at once: the distance from `A` plus ten, of which the low four bits are kept. */
  function HexValue(c: CodePoint): nat
    requires IsHexDigit(c)
  {
    if c < UPPERCASE_A then c - CHAR_0 else (c - UPPERCASE_A + 10) % 16
  }

  const HEX_LOWER: seq<CodePoint> :=
    [0x30, 0x31, 0x32, 0x33, 0x34, 0x35, 0x36, 0x37, 0x38, 0x39, 0x61, 0x62, 0x63, 0x64, 0x65, 0x66]
  const HEX_UPPER: seq<CodePoint> :=
    [0x30, 0x31, 0x32, 0x33, 0x34, 0x35, 0x36, 0x37, 0x38, 0x39, 0x41, 0x42, 0x43, 0x44, 0x45, 0x46]

  /** The masked value is the position of the digit among `0..9a..f` or `0..9A..F`. */
  lemma HexValueIsPosition(c: CodePoint, v: nat)
    requires IsHexDigit(c)
    ensures HexValue(c) < 16
    ensures v < 16 ==> (HexValue(c) == v <==> (c == HEX_LOWER[v] || c == HEX_UPPER[v]))
  {
    if UPPERCASE_A <= c <= UPPERCASE_F {
      assert (c - UPPERCASE_A + 10) % 16 == c - UPPERCASE_A + 10;
    } else if LOWERCASE_A <= c {
      assert (c - UPPERCASE_A + 10) % 16 == c - LOWERCASE_A + 10;
    }
  }

  function Power(radix: nat, n: nat): nat {
    if n == 0 then 1 else radix * Power(radix, n - 1)
  }

  /** The positional value of a string of digits. */
  function ValueOf(digits: seq<CodePoint>, radix: nat): nat
    requires forall k :: 0 <= k < |digits| ==> IsHexDigit(digits[k])
  {
    if digits == [] then 0
    else HexValue(digits[0]) * Power(radix, |digits| - 1) + ValueOf(digits[1..], radix)
  }

  lemma {:induction false} ValueOfSnoc(digits: seq<CodePoint>, d: CodePoint, radix: nat)
    requires IsHexDigit(d) && forall k :: 0 <= k < |digits| ==> IsHexDigit(digits[k])
    ensures ValueOf(digits + [d], radix) == ValueOf(digits, radix) * radix + HexValue(d)
  {
    var ds := digits + [d];
    if digits == [] {
      assert ds[1..] == [];
      assert Power(radix, 0) == 1;
    } else {
      var v, p, rest := HexValue(digits[0]), Power(radix, |digits| - 1), ValueOf(digits[1..], radix);
      assert ds[1..] == digits[1..] + [d];
      ValueOfSnoc(digits[1..], d, radix);
      assert Power(radix, |ds| - 1) == radix * p;
      assert ValueOf(ds, radix) == v * (radix * p) + (rest * radix + HexValue(d));
      Distribute(v, radix, p, rest);
      assert ValueOf(digits, radix) == v * p + rest;
    }
  }

  lemma Distribute(v: nat, radix: nat, p: nat, rest: nat)
    ensures v * (radix * p) + rest * radix == (v * p + rest) * radix
  {
    assert v * (radix * p) == v * p * radix;
  }
}
