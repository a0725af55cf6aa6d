/** The two readings of one template element: the cooked and the raw scan, as functions of the text ahead. */
module TemplateText {
  import opened Options
  import opened Digits

  const NUL := 0x00
  const BS := 0x08
  const TAB := 0x09
  const LF := 0x0A
  const VT := 0x0B
  const FF := 0x0C
  const CR := 0x0D
  const DOLLAR := 0x24
  const BACKSLASH := 0x5C
  const BACK_TICK := 0x60
  const LOWERCASE_B := 0x62
  const LOWERCASE_N := 0x6E
  const LOWERCASE_R := 0x72
  const LOWERCASE_T := 0x74
  const LOWERCASE_U := 0x75
  const LOWERCASE_V := 0x76
  const LOWERCASE_X := 0x78
  const LEFT_BRACE := 0x7B
  const RIGHT_BRACE := 0x7D
  const LS := 0x2028
  const PS := 0x2029
  const CODE_POINT_MAX := 0x10FFFF

  type Text = seq<CodePoint>

  /** What a scan found: its text, and how many code points it used up before it stopped. */
  datatype Scan = Scan(text: Text, used: nat)

  /** A scan that has read `n` code points as `prefix` and goes on with `r`. */
  function Then(prefix: Text, n: nat, r: Option<Scan>): Option<Scan> {
    if r == None then None else Some(Scan(prefix + r.value.text, n + r.value.used))
  }

  /** The scan stops in front of a back-tick or `${`. */
  predicate Stops(w: Text) {
    w != [] && (w[0] == BACK_TICK || (w[0] == DOLLAR && |w| > 1 && w[1] == LEFT_BRACE))
  }

  /** The length of the line terminator CR, CR LF or LF. */
  function Newline(w: Text): (n: nat)
    requires w != [] && w[0] in {CR, LF}
    ensures 1 <= n <= |w|
  {
    if w[0] == CR && |w| > 1 && w[1] == LF then 2 else 1
  }

  // ----- escapes

  /** Exactly `n` hexadecimal digits, most significant first; `code` is the value so far. */
  function HexEscape(w: Text, n: nat, code: nat): Option<nat>
    decreases n
  {
    if n == 0 then Some(code)
    else if w == [] || !IsHexDigit(w[0]) then None
    else HexEscape(w[1..], n - 1, code * 16 + HexValue(w[0]))
  }

  /** Hexadecimal digits up to a closing brace; the value and the number of code points read. */
  function CodePointEscape(w: Text, code: nat): (r: Option<(nat, nat)>)
    ensures r.Some? ==> 0 < r.value.1 <= |w|
    decreases |w|
  {
    if w == [] then None
    else if IsHexDigit(w[0]) then
      var next := code * 16 + HexValue(w[0]);
      if next > CODE_POINT_MAX then None
      else
        var r := CodePointEscape(w[1..], next);
        if r == None then None else Some((r.value.0, r.value.1 + 1))
    else if w[0] == RIGHT_BRACE then Some((code, 1))
    else None
  }

  function UnicodeEscape(w: Text): (r: Option<Scan>)
    requires w != [] && w[0] == LOWERCASE_U
    ensures r.Some? ==> 0 < r.value.used <= |w|
  {
    if |w| > 1 && w[1] == LEFT_BRACE then
      var r := CodePointEscape(w[2..], 0);
      if r == None then None else Some(Scan([r.value.0], 2 + r.value.1))
    else
      var r := HexEscape(w[1..], 4, 0);
      HexEscapeLength(w[1..], 4, 0);
      if r == None then None else Some(Scan([r.value], 5))
  }

  lemma HexEscapeLength(w: Text, n: nat, code: nat)
    ensures HexEscape(w, n, code).Some? ==> n <= |w| && forall k :: 0 <= k < n ==> IsHexDigit(w[k])
    decreases n
  {
    if n > 0 && w != [] && IsHexDigit(w[0]) {
      HexEscapeLength(w[1..], n - 1, code * 16 + HexValue(w[0]));
    }
  }

  function SingleEscape(c: CodePoint): CodePoint {
    if c == LOWERCASE_B then BS
    else if c == LOWERCASE_T then TAB
    else if c == LOWERCASE_N then LF
    else if c == LOWERCASE_V then VT
    else if c == LOWERCASE_F then FF
    else if c == LOWERCASE_R then CR
    else c
  }

  /** What a backslash in front of `w` stands for. */
  function Escape(w: Text): (r: Option<Scan>)
    ensures r.Some? ==> 0 < r.value.used <= |w|
  {
    if w == [] then None
    else if w[0] in {CR, LF} then Some(Scan([], Newline(w)))
    else if w[0] in {LS, PS} then Some(Scan([], 1))
    else if w[0] == LOWERCASE_X then
      HexEscapeLength(w[1..], 2, 0);
      var r := HexEscape(w[1..], 2, 0);
      if r == None then None else Some(Scan([r.value], 3))
    else if w[0] == LOWERCASE_U then UnicodeEscape(w)
    else if w[0] == CHAR_0 && (|w| == 1 || !IsDecimalDigit(w[1])) then Some(Scan([NUL], 1))
    else if IsDecimalDigit(w[0]) then None
    else Some(Scan([SingleEscape(w[0])], 1))
  }

  // ----- the two scans

  /** The cooked text of an untagged template element. */
  function Cook(w: Text): (r: Option<Scan>)
    ensures r.Some? ==> r.value.used < |w|
    decreases |w|
  {
    if w == [] then None
    else if Stops(w) then Some(Scan([], 0))
    else if w[0] in {CR, LF} then Then([LF], Newline(w), Cook(w[Newline(w)..]))
    else if w[0] == BACKSLASH then
      var e := Escape(w[1..]);
      if e == None then None else Then(e.value.text, 1 + e.value.used, Cook(w[1 + e.value.used..]))
    else Then([w[0]], 1, Cook(w[1..]))
  }

  /** The raw text of a template element. */
  function Raw(w: Text): (r: Option<Scan>)
    ensures r.Some? ==> r.value.used < |w|
    decreases |w|
  {
    if w == [] then None
    else if Stops(w) then Some(Scan([], 0))
    else if w[0] in {CR, LF} then Then([LF], Newline(w), Raw(w[Newline(w)..]))
    else if w[0] == BACKSLASH && |w| > 1 && w[1] in {BACK_TICK, BACKSLASH, DOLLAR} then Then(w[..2], 2, Raw(w[2..]))
    else Then([w[0]], 1, Raw(w[1..]))
  }

  /** The text with CR and CR LF turned into LF. */
  function Normalize(w: Text): Text
    decreases |w|
  {
    if w == [] then []
    else if w[0] in {CR, LF} then [LF] + Normalize(w[Newline(w)..])
    else [w[0]] + Normalize(w[1..])
  }
}
