/** Character classes used by the three detection patterns.
    `\d`, `\w` and `\s` are read with their ASCII meaning (see README). */
module CharClasses {

  /** `\d`: an ASCII decimal digit. */
  predicate IsDigit(c: char) {
    '0' <= c <= '9'
  }

  /** `[A-Z]`. */
  predicate IsUpper(c: char) {
    'A' <= c <= 'Z'
  }

  /** `\w`: letters, digits and the underscore. */
  predicate IsWordChar(c: char) {
    IsDigit(c) || IsUpper(c) || ('a' <= c <= 'z') || c == '_'
  }

  /** `\s`: space, tab, line feed, vertical tab, form feed, carriage return. */
  predicate IsSpace(c: char) {
    c == ' ' || ('\t' <= c <= '\r')
  }

  /** A word character at index `k`; indexes outside `s` count as non-word,
      which is how `\b` treats the two ends of the string. */
  predicate IsWordAt(s: string, k: int) {
    0 <= k < |s| && IsWordChar(s[k])
  }

  /** `\b` at position `p`: exactly one of the characters around `p` is a word character. */
  predicate Boundary(s: string, p: int) {
    IsWordAt(s, p - 1) != IsWordAt(s, p)
  }

  /** Every index in `[lo, hi)` holds a digit. */
  predicate DigitsBetween(s: string, lo: int, hi: int)
    requires 0 <= lo && hi <= |s|
  {
    forall k :: lo <= k < hi ==> IsDigit(s[k])
  }

  /** Every index in `[lo, hi)` holds an upper-case letter. */
  predicate UppersBetween(s: string, lo: int, hi: int)
    requires 0 <= lo && hi <= |s|
  {
    forall k :: lo <= k < hi ==> IsUpper(s[k])
  }

  /** Length of the longest run of digits starting at `p`. */
  function DigitRun(s: string, p: nat): (n: nat)
    requires p <= |s|
    ensures p + n <= |s| && DigitsBetween(s, p, p + n)
    ensures p + n == |s| || !IsDigit(s[p + n])
    decreases |s| - p
  {
    if p < |s| && IsDigit(s[p]) then 1 + DigitRun(s, p + 1) else 0
  }

  /** Length of the longest run of upper-case letters starting at `p`. */
  function UpperRun(s: string, p: nat): (n: nat)
    requires p <= |s|
    ensures p + n <= |s| && UppersBetween(s, p, p + n)
    ensures p + n == |s| || !IsUpper(s[p + n])
    decreases |s| - p
  {
    if p < |s| && IsUpper(s[p]) then 1 + UpperRun(s, p + 1) else 0
  }

  function Min(a: nat, b: nat): nat {
    if a <= b then a else b
  }
}
