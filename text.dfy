/**
 * The handful of Python string operations the modelled code relies on:
 * `str.find`, slicing with possibly negative bounds, `strip`/`lstrip`/`rstrip`,
 * `startswith`/`endswith`, and the syntax `float()` accepts.
 */
module Text {

  /** Python's `s.find(c)` for a single character: the first index of `c`, or -1. */
  function Find(s: string, c: char): (r: int)
    ensures -1 <= r < |s|
    ensures r == -1 <==> c !in s
    ensures r >= 0 ==> s[r] == c && c !in s[..r]
  {
    if |s| == 0 then -1
    else if s[0] == c then 0
    else
      var k := Find(s[1..], c);
      assert s[1..][..if k < 0 then 0 else k] == s[1..1 + (if k < 0 then 0 else k)];
      assert k < 0 ==> forall j | 0 <= j < |s| :: s[j] != c by {
        if k < 0 {
          forall j | 0 <= j < |s| ensures s[j] != c {
            if j > 0 { assert s[j] == s[1..][j - 1]; }
          }
        }
      }
      if k < 0 then -1 else k + 1
  }

  /** Python's `s[i:]`: a negative `i` counts from the end, out-of-range bounds are clamped. */
  function SliceFrom(s: string, i: int): (r: string)
    ensures 0 <= i <= |s| ==> r == s[i..]
    ensures i < 0 && -i <= |s| ==> r == s[|s| + i..]
    ensures i > |s| ==> r == ""
  {
    if i >= 0 then (if i <= |s| then s[i..] else "")
    else if |s| + i >= 0 then s[|s| + i..]
    else s
  }

  /** Python's `s[:i]`: a negative `i` counts from the end, out-of-range bounds are clamped. */
  function SliceTo(s: string, i: int): (r: string)
    ensures 0 <= i <= |s| ==> r == s[..i]
    ensures i == -1 && |s| > 0 ==> r == s[..|s| - 1]
    ensures i < 0 && |s| + i <= 0 ==> r == ""
    ensures i > |s| ==> r == s
  {
    if i >= 0 then (if i <= |s| then s[..i] else s)
    else if |s| + i >= 0 then s[..|s| + i]
    else ""
  }

  predicate StartsWith(s: string, prefix: string) {
    |prefix| <= |s| && s[..|prefix|] == prefix
  }

  predicate EndsWith(s: string, suffix: string) {
    |suffix| <= |s| && s[|s| - |suffix|..] == suffix
  }

  /** Python's `s.lstrip(chars)`: drops the longest prefix made only of `chars`. */
  function LStrip(s: string, chars: set<char>): (r: string)
    ensures |r| <= |s| && r == s[|s| - |r|..]
    ensures r != "" ==> r[0] !in chars
    ensures forall j | 0 <= j < |s| - |r| :: s[j] in chars
  {
    if |s| > 0 && s[0] in chars then
      var r := LStrip(s[1..], chars);
      assert forall j | 1 <= j < |s| - |r| :: s[j] == s[1..][j - 1];
      r
    else s
  }

  /** Python's `s.rstrip(chars)`: drops the longest suffix made only of `chars`. */
  function RStrip(s: string, chars: set<char>): (r: string)
    ensures |r| <= |s| && r == s[..|r|]
    ensures r != "" ==> r[|r| - 1] !in chars
    ensures forall j | |r| <= j < |s| :: s[j] in chars
  {
    if |s| > 0 && s[|s| - 1] in chars then
      var r := RStrip(s[..|s| - 1], chars);
      assert forall j | |r| <= j < |s| - 1 :: s[j] == s[..|s| - 1][j];
      r
    else s
  }

  /** The characters Python 2's `str.strip()` removes by default. */
  const Whitespace: set<char> := {' ', '\t', '\n', '\r', '\U{B}', '\U{C}'}

  function Strip(s: string): string {
    RStrip(LStrip(s, Whitespace), Whitespace)
  }

  predicate IsDigit(c: char) {
    '0' <= c <= '9'
  }

  predicate AllDigits(s: string) {
    forall j | 0 <= j < |s| :: IsDigit(s[j])
  }

  /** ASCII lower-casing, used for the case-insensitive `inf`/`nan` spellings. */
  function Lower(s: string): (r: string)
    ensures |r| == |s|
  {
    if s == "" then ""
    else
      var c := s[0];
      [if 'A' <= c <= 'Z' then (c as int + 32) as char else c] + Lower(s[1..])
  }

  /** Optional exponent: empty, or `e`/`E`, an optional sign and at least one digit. */
  predicate IsExponent(s: string) {
    s == "" ||
    (|s| >= 2 && (s[0] == 'e' || s[0] == 'E') &&
     var t := if s[1] == '+' || s[1] == '-' then s[2..] else s[1..];
     t != "" && AllDigits(t))
  }

  /** Digits with an optional fraction: `12`, `12.`, `12.5` or `.5`. */
  predicate IsMantissa(s: string) {
    var dot := Find(s, '.');
    if dot < 0 then s != "" && AllDigits(s)
    else AllDigits(s[..dot]) && AllDigits(s[dot + 1..]) && |s| >= 2
  }

  /** A decimal literal: a mantissa followed by an optional exponent. */
  predicate IsDecimal(s: string) {
    exists k | 0 <= k <= |s| :: IsMantissa(s[..k]) && IsExponent(s[k..])
  }

  /**
   * The strings Python 2's `float()` accepts: surrounding whitespace, an optional sign,
   * then a decimal literal or one of `inf`, `infinity`, `nan` in any letter case.
   */
  predicate IsFloatLiteral(s: string) {
    var t := Strip(s);
    var u := if t != "" && (t[0] == '+' || t[0] == '-') then t[1..] else t;
    IsDecimal(u) || Lower(u) in {"inf", "infinity", "nan"}
  }
}
