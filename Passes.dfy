/** One pass of `mask_sensitive_text` (app.py:36-37): the substitution of one detection
    pattern, and what it does to text pieces that no pattern can reach into. */
module Passes {
  import opened CharClasses
  import opened Options
  import opened Patterns
  import opened Substitution

  /** Pattern `p` as the matcher `re.sub` drives. */
  function PatternMatcher(p: Pattern): (m: Matcher)
    ensures Sound(m)
  {
    (s: string, i: nat) => if i <= |s| then MatchAt(p, s, i) else None
  }

  /** `re.sub(p, replacement, s)`. */
  function Pass(p: Pattern, replacement: string, s: string): string {
    Sub(PatternMatcher(p), replacement, s)
  }

  /** The pass from position `i` on. */
  function PassFrom(p: Pattern, replacement: string, s: string, i: nat): string
    requires i <= |s|
  {
    SubFrom(PatternMatcher(p), replacement, s, i)
  }

  /** Where pattern `p` matches nowhere in `s`, its pass returns `s` unchanged. */
  lemma PassNoMatch(p: Pattern, replacement: string, s: string)
    requires forall q: nat :: q < |s| ==> MatchAt(p, s, q) == None
    ensures Pass(p, replacement, s) == s
  {
    SubNoMatch(PatternMatcher(p), replacement, s);
  }

  /** Text after a sealing character is substituted on its own: no match reads across it. */
  lemma PassSplitsAtSeal(p: Pattern, replacement: string, a: string, b: string)
    requires Intended(p) && b != [] && Seals(a, b[0])
    ensures PassFrom(p, replacement, a + b, 0) == Pass(p, replacement, a) + PassFrom(p, replacement, a + b, |a|)
  {
    var t := a + b;
    forall q: nat | q < |a| ensures t[q] == a[q] && PatternMatcher(p)(t, q) == PatternMatcher(p)(a, q) {
      MatchAtLeft(p, a, b, q);
    }
    SubFromSplit(PatternMatcher(p), replacement, t, a, 0);
  }

  /** Text before a non-word character does not affect the substitution after it. */
  lemma PassShiftsPastNonWord(p: Pattern, replacement: string, a: string, b: string)
    requires Intended(p) && (a == [] || !IsWordChar(a[|a| - 1]))
    ensures PassFrom(p, replacement, a + b, |a|) == Pass(p, replacement, b)
  {
    var t := a + b;
    assert t[|a|..] == b;
    assert a != [] ==> t[|a| - 1] == a[|a| - 1];
    PassFromSuffix(p, replacement, t, |a|);
  }

  /** From a position after a non-word character, the pass is that of the suffix. */
  lemma PassFromSuffix(p: Pattern, replacement: string, t: string, d: nat)
    requires Intended(p) && d <= |t| && (d == 0 || !IsWordChar(t[d - 1]))
    ensures PassFrom(p, replacement, t, d) == Pass(p, replacement, t[d..])
  {
    MatcherShifts(p, t, d);
    SubAfterPrefix(PatternMatcher(p), replacement, t, d);
  }

  lemma MatcherShifts(p: Pattern, t: string, d: nat)
    requires Intended(p) && d <= |t| && (d == 0 || !IsWordChar(t[d - 1]))
    ensures forall q: nat :: q < |t| - d ==> PatternMatcher(p)(t, d + q) == PatternMatcher(p)(t[d..], q)
  {
    forall q: nat | q < |t| - d ensures PatternMatcher(p)(t, d + q) == PatternMatcher(p)(t[d..], q) {
      MatcherShiftsAt(p, t, d, q);
    }
  }

  lemma MatcherShiftsAt(p: Pattern, t: string, d: nat, q: nat)
    requires Intended(p) && d + q <= |t| && (d == 0 || !IsWordChar(t[d - 1]))
    ensures PatternMatcher(p)(t, d + q) == PatternMatcher(p)(t[d..], q)
  {
    MatchAtRight(p, t, d, q);
  }

  /** A text piece no intended pattern can match into: it holds no digit and starts and
      ends with a character that stops every match. The placeholders are such pieces. */
  predicate Inert(w: string) {
    && |w| >= 1
    && Stops(w[0])
    && Stops(w[|w| - 1])
    && forall k :: 0 <= k < |w| ==> !IsDigit(w[k])
  }

  /** No match of an intended pattern starts inside an inert piece: a match holds a digit
      and cannot reach past the piece's last character. */
  lemma NoMatchInInert(p: Pattern, t: string, lo: nat, w: string, k: nat)
    requires Intended(p) && Inert(w) && lo + |w| <= |t| && t[lo..lo + |w|] == w
    requires lo <= k < lo + |w|
    ensures MatchAt(p, t, k) == None
  {
    MatchCharsIfAny(p, t, k);
    assert forall d :: lo <= d < lo + |w| ==> t[d] == w[d - lo];
    assert !MatchChar(t[lo + |w| - 1]);
  }

  lemma MatchCharsIfAny(p: Pattern, s: string, i: nat)
    requires Intended(p) && i <= |s|
    ensures MatchAt(p, s, i).Some? ==>
              && i + MatchAt(p, s, i).value <= |s|
              && (forall k :: i <= k < i + MatchAt(p, s, i).value ==> MatchChar(s[k]))
              && (exists k :: i <= k < i + MatchAt(p, s, i).value && IsDigit(s[k]))
  {
    if MatchAt(p, s, i).Some? {
      MatchChars(p, s, i, MatchAt(p, s, i).value);
    }
  }

  /** The pass copies an inert piece through unchanged. */
  lemma PassCopiesInert(p: Pattern, replacement: string, t: string, lo: nat, w: string)
    requires Intended(p) && Inert(w) && lo + |w| <= |t| && t[lo..lo + |w|] == w
    ensures PassFrom(p, replacement, t, lo) == w + PassFrom(p, replacement, t, lo + |w|)
  {
    forall q: nat | lo <= q < lo + |w| ensures PatternMatcher(p)(t, q) == None {
      NoMatchInInert(p, t, lo, w, q);
    }
    SubFromCopies(PatternMatcher(p), replacement, t, lo, lo + |w|);
  }

  /** An inert piece splits the pass: the text on each side is substituted on its own and
      the piece itself comes through unchanged. */
  lemma PassAroundInert(p: Pattern, replacement: string, pre: string, w: string, post: string)
    requires Intended(p) && Inert(w)
    ensures Pass(p, replacement, pre + w + post) == Pass(p, replacement, pre) + w + Pass(p, replacement, post)
  {
    var t := pre + w + post;
    assert t == pre + (w + post);
    PassSplitsAtSeal(p, replacement, pre, w + post);
    assert t[|pre|..|pre| + |w|] == w;
    PassCopiesInert(p, replacement, t, |pre|, w);
    assert t == (pre + w) + post;
    PassShiftsPastNonWord(p, replacement, pre + w, post);
  }
  /** No match of an intended pattern starts at a character that is no digit, no capital
      and no `$`. */
  lemma NoMatchAtOther(p: Pattern, t: string, k: nat)
    requires Intended(p) && k < |t| && !IsDigit(t[k]) && !IsUpper(t[k]) && t[k] != '$'
    ensures MatchAt(p, t, k) == None
  {
    if MatchAt(p, t, k).Some? {
      MatchChars(p, t, k, MatchAt(p, t, k).value);
    }
  }

  /** The pass copies a character at which no match starts. */
  lemma PassCopiesOther(p: Pattern, replacement: string, t: string, k: nat)
    requires Intended(p) && k < |t| && !IsDigit(t[k]) && !IsUpper(t[k]) && t[k] != '$'
    ensures PassFrom(p, replacement, t, k) == [t[k]] + PassFrom(p, replacement, t, k + 1)
  {
    NoMatchAtOther(p, t, k);
  }

  /** `c` right after `x` separates the text: it seals `x` and starts no match itself. */
  predicate Separates(x: string, c: char) {
    Seals(x, c) && c != '$'
  }

  /** A separating character splits the pass: the text on each side is substituted on its
      own and the character itself comes through unchanged. */
  lemma PassAroundSeparator(p: Pattern, replacement: string, x: string, c: char, y: string)
    requires Intended(p) && Separates(x, c)
    ensures Pass(p, replacement, x + [c] + y) == Pass(p, replacement, x) + [c] + Pass(p, replacement, y)
  {
    var t := x + [c] + y;
    assert t == x + ([c] + y);
    PassSplitsAtSeal(p, replacement, x, [c] + y);
    PassCopiesOther(p, replacement, t, |x|);
    assert t == (x + [c]) + y;
    PassShiftsPastNonWord(p, replacement, x + [c], y);
  }

  /** A pass whose replacement does not end in `$` keeps a separator separating. */
  lemma PassKeepsSeparator(p: Pattern, replacement: string, x: string, c: char)
    requires Separates(x, c) && replacement != [] && replacement[|replacement| - 1] != '$'
    ensures Separates(Pass(p, replacement, x), c)
  {
    if x != [] {
      SubFromLast(PatternMatcher(p), replacement, x, 0);
    }
  }
}
