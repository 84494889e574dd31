/**
 * The few ECMAScript String operations that the previewers use, with the
 * semantics of String.prototype.indexOf, lastIndexOf, substring and replace
 * (string pattern, replacement without `$` patterns), plus the decimal form
 * of an integral Number and `${x}` applied to an optional string.
 */
module JsString {
  import opened Optional

  /** `pat` occurs in `s` starting at index `i`. */
  predicate OccursAt(s: string, pat: string, i: nat) {
    i + |pat| <= |s| && s[i..i + |pat|] == pat
  }

  predicate Contains(s: string, pat: string) {
    exists i :: 0 <= i <= |s| && OccursAt(s, pat, i)
  }

  predicate StartsWith(s: string, pat: string) {
    OccursAt(s, pat, 0)
  }

  /** The leftmost occurrence of `pat` at or after `k`, or -1. */
  function IndexFrom(s: string, pat: string, k: nat): (r: int)
    decreases |s| - k
    ensures r == -1 || (k <= r && OccursAt(s, pat, r))
    ensures r == -1 ==> forall i: nat :: k <= i ==> !OccursAt(s, pat, i)
    ensures r >= 0 ==> forall i: nat :: k <= i < r ==> !OccursAt(s, pat, i)
  {
    if k + |pat| > |s| then -1
    else if s[k..k + |pat|] == pat then k
    else IndexFrom(s, pat, k + 1)
  }

  /** A pattern whose first character does not occur in `s` does not occur in `s`. */
  lemma AbsentFirstChar(s: string, pat: string)
    requires |pat| > 0 && pat[0] !in s
    ensures !Contains(s, pat) && !StartsWith(s, pat)
  {
  }

  /** `s.indexOf(pat)`: the index of the leftmost occurrence, or -1 when there is none. */
  function IndexOf(s: string, pat: string): (r: int)
    ensures r >= -1
    ensures r == -1 <==> !Contains(s, pat)
    ensures r >= 0 ==> OccursAt(s, pat, r) && forall i: nat :: i < r ==> !OccursAt(s, pat, i)
  {
    IndexFrom(s, pat, 0)
  }

  /** `s.lastIndexOf(c)` for a one-character argument. */
  function LastIndexOf(s: string, c: char): (r: int)
    ensures -1 <= r < |s|
    ensures r == -1 <==> c !in s
    ensures r >= 0 ==> s[r] == c && c !in s[r + 1..]
  {
    if |s| == 0 then -1
    else if s[|s| - 1] == c then |s| - 1
    else
      var r := LastIndexOf(s[..|s| - 1], c);
      LastIndexOfStep(s, c, r);
      r
  }

  /** What holds of the string without its last character holds of the string, when that character is not `c`. */
  lemma LastIndexOfStep(s: string, c: char, r: int)
    requires |s| > 0 && s[|s| - 1] != c && -1 <= r < |s| - 1
    requires r == -1 <==> c !in s[..|s| - 1]
    requires r >= 0 ==> s[..|s| - 1][r] == c && c !in s[..|s| - 1][r + 1..]
    ensures r == -1 <==> c !in s
    ensures r >= 0 ==> s[r] == c && c !in s[r + 1..]
  {
    InDropLast(s, c, 0);
    if r >= 0 {
      assert s[r] == s[..|s| - 1][r];
      InDropLast(s, c, r + 1);
    }
  }

  /** Dropping a last character other than `c` from a suffix does not change whether `c` is in it. */
  lemma InDropLast(s: string, c: char, a: nat)
    requires a < |s| && s[|s| - 1] != c
    ensures c in s[a..] <==> c in s[..|s| - 1][a..]
  {
    assert s[a..] == s[..|s| - 1][a..] + [s[|s| - 1]];
  }

  /** An index argument of `substring`, clamped to `[0, n]`. */
  function Clamp(x: int, n: nat): nat {
    if x < 0 then 0 else if x > n then n else x
  }

  /** `s.substring(start, end)`: both arguments clamped, and swapped when out of order. */
  function Substring(s: string, start: int, end: int): (r: string)
    ensures |r| <= |s|
    ensures 0 <= start <= end <= |s| ==> r == s[start..end]
    ensures 0 <= end <= start <= |s| ==> r == s[end..start]
    ensures start <= 0 && |s| <= end ==> r == s
    ensures start <= 0 ==> r == s[..Clamp(end, |s|)]
    ensures end <= 0 ==> r == s[..Clamp(start, |s|)]
    ensures |s| <= start ==> r == s[Clamp(end, |s|)..]
    ensures |s| <= end ==> r == s[Clamp(start, |s|)..]
  {
    var a, b := Clamp(start, |s|), Clamp(end, |s|);
    if a <= b then s[a..b] else s[b..a]
  }

  /**
   * `s.replace(pat, rep)` with a string pattern: only the leftmost occurrence is
   * replaced. `rep` is used literally (the call sites pass no `$` patterns).
   */
  function ReplaceFirst(s: string, pat: string, rep: string): (r: string)
    ensures !Contains(s, pat) ==> r == s
    ensures Contains(s, pat) ==>
      exists i :: 0 <= i <= |s| && OccursAt(s, pat, i)
                  && (forall j: nat :: j < i ==> !OccursAt(s, pat, j))
                  && r == s[..i] + rep + s[i + |pat|..]
  {
    var i := IndexOf(s, pat);
    if i < 0 then s else s[..i] + rep + s[i + |pat|..]
  }

  /** The template-string form `${x}` of an optional string: `undefined` prints as "undefined". */
  function TemplateOf(x: Option<string>): (r: string)
    ensures x.Some? ==> r == x.value
    ensures x.None? ==> r == "undefined"
  {
    match x
    case Some(s) => s
    case None => "undefined"
  }

  // ---- Number::toString for integral values ----

  function Digit(d: nat): char
    requires d < 10
  {
    "0123456789"[d]
  }

  predicate IsDigit(c: char) {
    '0' <= c <= '9'
  }

  function DigitValue(c: char): nat
    requires IsDigit(c)
  {
    c as int - '0' as int
  }

  /** The decimal digits of `n`, without leading zeros. */
  function NatToString(n: nat): (r: string)
    ensures |r| > 0
    ensures forall i :: 0 <= i < |r| ==> IsDigit(r[i])
    ensures r[0] == '0' ==> n == 0
    ensures n == 0 ==> r == "0"
  {
    if n < 10 then [Digit(n)] else NatToString(n / 10) + [Digit(n % 10)]
  }

  /** `String(n)` for an integral Number `n` (see Left out in README for the exponent form). */
  function IntToString(n: int): (r: string)
    ensures |r| > 0 && ':' !in r
    ensures n >= 0 <==> r[0] != '-'
    ensures n >= 0 ==> (forall i :: 0 <= i < |r| ==> IsDigit(r[i])) && (r[0] == '0' ==> n == 0)
    ensures n == 0 ==> r == "0"
    ensures n < 0 ==> |r| > 1 && (forall i :: 1 <= i < |r| ==> IsDigit(r[i])) && r[1] != '0'
  {
    if n >= 0 then NatToString(n) else "-" + NatToString(-n)
  }

  /** The value of a non-empty digit string read left to right. */
  function DigitsValue(s: string): nat
    requires |s| > 0 && forall i :: 0 <= i < |s| ==> IsDigit(s[i])
  {
    if |s| == 1 then DigitValue(s[0])
    else DigitsValue(s[..|s| - 1]) * 10 + DigitValue(s[|s| - 1])
  }

  /** A decimal integer with an optional leading minus sign; the inverse of `IntToString`. */
  function ParseInt(s: string): Option<int> {
    if |s| > 0 && s[0] == '-' then
      var t := s[1..];
      if |t| > 0 && forall i :: 0 <= i < |t| ==> IsDigit(t[i]) then Some(0 - DigitsValue(t) as int) else None
    else if |s| > 0 && forall i :: 0 <= i < |s| ==> IsDigit(s[i]) then Some(DigitsValue(s))
    else None
  }

  lemma {:induction false} NatToStringValue(n: nat)
    ensures DigitsValue(NatToString(n)) == n
  {
    if n >= 10 {
      var p := NatToString(n / 10);
      NatToStringValue(n / 10);
      assert (p + [Digit(n % 10)])[..|p|] == p;
    }
  }

  /** Reading back a printed integer gives the integer. */
  lemma IntToStringRoundTrip(n: int)
    ensures ParseInt(IntToString(n)) == Some(n)
  {
    if n >= 0 {
      NatToStringValue(n);
    } else {
      NatToStringValue(-n);
      assert ("-" + NatToString(-n))[1..] == NatToString(-n);
    }
  }
}
