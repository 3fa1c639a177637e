/**
 * Character classes and string searches used to state the anchored
 * regular expressions of the format validators and the code alphabet.
 */
module Patterns {
  predicate IsDigit(c: char) { '0' <= c <= '9' }

  function DigitValue(c: char): int { c as int - '0' as int }

  predicate AllDigits(s: string) {
    forall i :: 0 <= i < |s| ==> IsDigit(s[i])
  }

  /** [a-zA-Z] without the IGNORECASE or the LOCALE flag: ASCII letters only. */
  predicate IsAsciiLetter(c: char) { 'a' <= c <= 'z' || 'A' <= c <= 'Z' }

  /**
   * The text a pattern ending in `$` has to match with re.match: `$`
   * matches at the end or just before one final newline, and no pattern
   * here can match a newline itself.
   */
  function WithoutFinalNewline(s: string): (t: string)
    ensures s == t || s == t + ['\n']
    ensures |s| > 0 && s[|s| - 1] == '\n' ==> |t| == |s| - 1
  {
    if |s| > 0 && s[|s| - 1] == '\n' then s[..|s| - 1] else s
  }

  /** The first position of c in s, or |s| when there is none. */
  function FirstIndex(s: string, c: char): (k: nat)
    ensures k <= |s|
    ensures k < |s| ==> s[k] == c
    ensures forall i :: 0 <= i < k ==> s[i] != c
  {
    if s == [] then 0
    else if s[0] == c then 0
    else 1 + FirstIndex(s[1..], c)
  }

  /** The last position of c in s, or -1 when there is none. */
  function LastIndex(s: string, c: char): (k: int)
    ensures -1 <= k < |s|
    ensures k >= 0 ==> s[k] == c
    ensures forall i :: k < i < |s| ==> s[i] != c
  {
    if s == [] then -1
    else if s[|s| - 1] == c then |s| - 1
    else LastIndex(s[..|s| - 1], c)
  }
}
