/** The patterns as app.py:31-33 spells them: the account and ID patterns in full, and
    the head of the amount pattern, which makes it unmatchable. They are raw strings with
    doubled backslashes, so the regular-expression engine reads every `\\` as one
    literal backslash character:

      r"\\b\\d{12,16}\\b"          backslash, 'b', backslash, 12-16 'd's, backslash, 'b'
      r"\\b[A-Z]{1,2}\\d{6,8}\\b"   backslash, 'b', 1-2 capitals, backslash, 6-8 'd's, backslash, 'b'
      r"\\$\\s?\\d+..."             backslash, end of text, backslash, ...

    Greedy counts backtrack one item at a time, as for the intended patterns. */
module LiteralPatterns {
  import opened CharClasses
  import opened Options

  /** `w` occurs in `s` at position `p`. */
  predicate HasAt(s: string, p: nat, w: string) {
    p + |w| <= |s| && s[p..p + |w|] == w
  }

  /** Length of the run of 'd' characters starting at `p`. */
  function DRun(s: string, p: nat): (n: nat)
    requires p <= |s|
    ensures p + n <= |s|
    decreases |s| - p
  {
    if p < |s| && s[p] == 'd' then 1 + DRun(s, p + 1) else 0
  }

  /** `d{lo,hi}` followed by the text `tail` (here always a backslash and a 'b'), from `p`:
      the greedy count first, then one 'd' fewer at a time. The result counts the tail. */
  function DsThen(s: string, p: nat, lo: nat, k: nat, tail: string): (r: Option<nat>)
    requires p + k <= |s|
    ensures r.Some? ==> 1 <= r.value && p + r.value <= |s|
    decreases k
  {
    if k < lo then None
    else if HasAt(s, p + k, tail) && k + |tail| >= 1 then Some(k + |tail|)
    else if k == 0 then None
    else DsThen(s, p, lo, k - 1, tail)
  }

  /** r"\\b\\d{12,16}\\b" tried at `i`. */
  function LiteralAccountAt(s: string, i: nat): (r: Option<nat>)
    requires i <= |s|
    ensures r.Some? ==> 1 <= r.value && i + r.value <= |s|
    ensures r.Some? ==> s[i] == '\\'
  {
    if HasAt(s, i, "\\b\\") then
      match DsThen(s, i + 3, 12, Min(DRun(s, i + 3), 16), "\\b")
      case Some(n) => Some(3 + n)
      case None => None
    else None
  }

  /** r"\\b[A-Z]{1,2}\\d{6,8}\\b" tried at `i`. */
  function LiteralIdAt(s: string, i: nat): (r: Option<nat>)
    requires i <= |s|
    ensures r.Some? ==> 1 <= r.value && i + r.value <= |s|
    ensures r.Some? ==> s[i] == '\\'
  {
    if HasAt(s, i, "\\b") then
      match LiteralLetters(s, i + 2, Min(UpperRun(s, i + 2), 2))
      case Some(n) => Some(2 + n)
      case None => None
    else None
  }

  /** `[A-Z]{1,2}` having taken `m` capitals at `p`, then a backslash, 6-8 'd's and the
      closing backslash and 'b'; on failure one capital is given back. */
  function LiteralLetters(s: string, p: nat, m: nat): (r: Option<nat>)
    requires p + m <= |s|
    ensures r.Some? ==> 1 <= r.value && p + r.value <= |s|
    decreases m
  {
    if m == 0 then None
    else if HasAt(s, p + m, "\\") then
      match DsThen(s, p + m + 1, 6, Min(DRun(s, p + m + 1), 8), "\\b")
      case Some(n) => Some(m + 1 + n)
      case None => LiteralLetters(s, p, m - 1)
    else LiteralLetters(s, p, m - 1)
  }

  /** `$` without the MULTILINE flag: the end of the text, or just before a final line feed. */
  predicate EndAnchor(s: string, k: nat) {
    k == |s| || (k + 1 == |s| && s[k] == '\n')
  }

  /** The first three items of r"\\$\\s?\\d+(?:,\\d{3})*(?:\\.\\d{2})?" at `i`: a backslash,
      the end anchor right after it, and a second backslash. */
  predicate LiteralAmountHead(s: string, i: nat) {
    i + 2 <= |s| && s[i] == '\\' && EndAnchor(s, i + 1) && s[i + 1] == '\\'
  }

  /** The anchor leaves room for nothing but a line feed, so no text ever gets past the
      head and the amount pattern, as written, never matches. */
  lemma LiteralAmountHeadNeverHolds(s: string, i: nat)
    ensures !LiteralAmountHead(s, i)
  {
  }
}
