/**
 * Character classes, runs and literals: the vocabulary in which the hand-written
 * pattern matchers of the request-ID rules and the season guard are stated.
 */
module Text {

  /** PCRE `\d` (ASCII digits). */
  predicate IsDigit(c: char) { '0' <= c <= '9' }

  /** PCRE `\s` in non-UTF mode: space, tab, line feed, vertical tab, form feed, carriage return. */
  predicate IsSpace(c: char) { c == ' ' || '\t' <= c <= '\r' }

  /** ASCII lower-casing, as PCRE's `/i` flag compares letters. */
  function Lower(c: char): char {
    if 'A' <= c <= 'Z' then (c as int + 32) as char else c
  }

  /** Every position in `s[lo..hi]` satisfies `p`. */
  predicate AllIn(p: char -> bool, s: string, lo: int, hi: int)
    requires 0 <= lo <= hi <= |s|
  {
    forall k | lo <= k < hi :: p(s[k])
  }

  /** A string made of decimal digits only (what `(\d+)` can capture). */
  type DigitString = s: string | forall k | 0 <= k < |s| :: IsDigit(s[k])

  /** The length of the maximal run of characters satisfying `p` that starts at `i`. */
  function Run(p: char -> bool, s: string, i: nat): (n: nat)
    requires i <= |s|
    ensures i + n <= |s|
    ensures AllIn(p, s, i, i + n)
    ensures i + n == |s| || !p(s[i + n])
    decreases |s| - i
  {
    if i < |s| && p(s[i]) then 1 + Run(p, s, i + 1) else 0
  }

  /** A run is determined by where it stops: any stretch of `p` that cannot be extended is the run. */
  lemma RunUnique(p: char -> bool, s: string, i: nat, q: nat)
    requires i <= q <= |s|
    requires AllIn(p, s, i, q)
    requires q == |s| || !p(s[q])
    ensures Run(p, s, i) == q - i
  {
  }

  /** The character at position `j` of `s` is `c`. */
  predicate CharAt(s: string, j: nat, c: char) {
    j < |s| && s[j] == c
  }

  /** `t` occurs in `s` at position `j` (case-sensitive). */
  predicate LitAt(s: string, j: nat, t: string) {
    j + |t| <= |s| && forall k | 0 <= k < |t| :: s[j + k] == t[k]
  }

  lemma LitAtHead(s: string, j: nat, t: string)
    requires LitAt(s, j, t) && |t| > 0
    ensures s[j] == t[0]
  {
    assert s[j + 0] == t[0];
  }

  /** `t`, given in lower case, occurs in `s` at position `j` ignoring ASCII case. */
  predicate LitAtCi(s: string, j: nat, t: string) {
    j + |t| <= |s| && forall k | 0 <= k < |t| :: Lower(s[j + k]) == t[k]
  }

  /** The position after an optional character `c` at `j` (PCRE `c?`, greedy). */
  function Opt(s: string, j: nat, c: char): (k: nat)
    ensures k == j + 1 <==> j < |s| && s[j] == c
    ensures k == j || k == j + 1
  {
    if j < |s| && s[j] == c then j + 1 else j
  }

  /** `strpos($haystack, $needle) !== false`: the needle occurs somewhere, case-sensitively. */
  predicate Contains(haystack: string, needle: string) {
    exists j | 0 <= j <= |haystack| - |needle| :: LitAt(haystack, j, needle)
  }

  function DigitValue(c: char): nat
    requires IsDigit(c)
  {
    c as int - '0' as int
  }

  /** The decimal value of a digit string, as PHP's `(int)` cast reads it (leading zeros allowed). */
  function DecimalValue(d: DigitString): (v: nat)
    ensures v > 0 <==> exists k | 0 <= k < |d| :: d[k] != '0'
    decreases |d|
  {
    if |d| == 0 then 0
    else
      var front: DigitString := d[..|d| - 1];
      var v := 10 * DecimalValue(front) + DigitValue(d[|d| - 1]);
      assert forall k | 0 <= k < |front| :: front[k] == d[k];
      v
  }
}
