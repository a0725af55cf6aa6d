/** Hexadecimal numerals and the decoding of concatenated strings. */
module Strings {

  const HEX_DIGITS := "0123456789abcdef"

  /** Lower-case hexadecimal without leading zeros. */
  function Hex(n: nat): (s: string)
    ensures |s| >= 1 && forall c :: c in s ==> c in HEX_DIGITS
  {
    if n < 16 then [HEX_DIGITS[n]] else Hex(n / 16) + [HEX_DIGITS[n % 16]]
  }

  /** The value of a digit, decimal or lower-case. */
  function DigitValue(c: char): nat {
    if '0' <= c <= '9' then c as nat - '0' as nat else if 'a' <= c <= 'f' then c as nat - 'a' as nat + 10 else 0
  }

  /** The number that a numeral stands for. */
  function Numeral(s: string, base: nat): nat {
    if s == "" then 0 else Numeral(s[..|s| - 1], base) * base + DigitValue(s[|s| - 1])
  }

  predicate IsHexNumeral(s: string) {
    && s != "" && (s[0] == '0' ==> s == "0")
    && forall c :: c in s ==> '0' <= c <= '9' || 'a' <= c <= 'f'
  }

  lemma DigitIs(d: nat)
    requires d < 16
    ensures DigitValue(HEX_DIGITS[d]) == d
    ensures '0' <= HEX_DIGITS[d] <= '9' || 'a' <= HEX_DIGITS[d] <= 'f'
    ensures d < 10 ==> '0' <= HEX_DIGITS[d] <= '9'
    ensures HEX_DIGITS[d] == '0' <==> d == 0
  {
  }

  /** The numeral of a number is the lower-case one, without leading zeros, that stands for it. */
  lemma {:induction false} HexIsNumeral(n: nat)
    ensures Numeral(Hex(n), 16) == n && IsHexNumeral(Hex(n)) && (Hex(n) == "0" <==> n == 0)
    decreases n
  {
    DigitIs(n % 16);
    if n < 16 {
      assert Hex(n)[..0] == "";
    } else {
      HexIsNumeral(n / 16);
      assert Hex(n)[..|Hex(n)| - 1] == Hex(n / 16);
    }
  }

  lemma DigitsDiffer(a: nat, b: nat)
    requires a < 16 && b < 16 && HEX_DIGITS[a] == HEX_DIGITS[b]
    ensures a == b
  {
  }

  lemma {:induction false} HexInjective(a: nat, b: nat)
    requires Hex(a) == Hex(b)
    ensures a == b
    decreases a
  {
    var la, lb := |Hex(a)|, |Hex(b)|;
    assert Hex(a)[la - 1] == Hex(b)[lb - 1];
    if a < 16 && b < 16 {
      DigitsDiffer(a, b);
    } else if a >= 16 && b >= 16 {
      assert Hex(a / 16) == Hex(a)[..la - 1] == Hex(b)[..lb - 1] == Hex(b / 16);
      HexInjective(a / 16, b / 16);
      DigitsDiffer(a % 16, b % 16);
    }
  }

  lemma {:induction false} HexLengthMonotone(a: nat, b: nat)
    requires a <= b
    ensures |Hex(a)| <= |Hex(b)|
    decreases b
  {
    if a >= 16 {
      HexLengthMonotone(a / 16, b / 16);
    }
  }

  /** Two strings that are split by the last character with a property. */
  lemma SplitAtLast(a: string, x: char, b: string, a': string, x': char, b': string, marks: set<char>)
    requires a + [x] + b == a' + [x'] + b' && x in marks && x' in marks
    requires (forall c :: c in b ==> c !in marks) && (forall c :: c in b' ==> c !in marks)
    ensures a == a' && x == x' && b == b'
  {
    var s := a + [x] + b;
    assert s[|a|] == x && s[|a'|] == x' by { assert s == a' + [x'] + b'; }
    assert |a| == |a'|;
    assert a == s[..|a|] == (a' + [x'] + b')[..|a'|] == a';
    assert b == s[|a| + 1..] == (a' + [x'] + b')[|a'| + 1..] == b';
  }

  /** Two strings that are split where a mark character first appears, if it does. */
  lemma SplitAtFirst(a: string, b: string, a': string, b': string, mark: char)
    requires a + b == a' + b' && mark !in a && mark !in a'
    requires (b != [] ==> b[0] == mark) && (b' != [] ==> b'[0] == mark)
    ensures a == a' && b == b'
  {
    var s := a + b;
    assert s == a' + b';
    assert b != [] ==> s[|a|] == mark;
    assert b' != [] ==> s[|a'|] == mark;
    assert |a| == |a'|;
    assert a == s[..|a|] == (a' + b')[..|a'|] == a';
    assert b == s[|a|..] == (a' + b')[|a'|..] == b';
  }
}
