/** One `re.sub(pattern, replacement, text)` call of `mask_sensitive_text` (app.py:37):
    scan left to right, replace each match by the replacement and resume right after
    it, copy the character and move on where nothing matches. None of the patterns
    can match the empty string, so the engine's empty-match rule never applies. */
module Substitution {
  import opened Options

  /** A compiled pattern: `m(s, i)` is the length of its match at position `i` of `s`,
      if any. The scan below needs only that a match is non-empty and fits in `s`. */
  type Matcher = (string, nat) -> Option<nat>

  ghost predicate Sound(m: Matcher) {
    forall s: string, i: nat :: m(s, i).Some? ==> 1 <= m(s, i).value && i + m(s, i).value <= |s|
  }

  /** The substitution of `m` in `s`, from position `i` on. */
  function SubFrom(m: Matcher, replacement: string, s: string, i: nat): string
    requires Sound(m) && i <= |s|
    decreases |s| - i
  {
    if i == |s| then []
    else
      match m(s, i)
      case Some(n) => replacement + SubFrom(m, replacement, s, i + n)
      case None => [s[i]] + SubFrom(m, replacement, s, i + 1)
  }

  /** `re.sub(m, replacement, s)`. */
  function Sub(m: Matcher, replacement: string, s: string): string
    requires Sound(m)
  {
    SubFrom(m, replacement, s, 0)
  }

  // ---------------------------------------------------------------------------
  // Leftmost, non-overlapping matches, stated without the scan
  // ---------------------------------------------------------------------------

  datatype Span = Span(start: nat, len: nat) {
    function End(): nat { start + len }
  }

  /** The spans lie within `[lo, hi)`, in increasing order, and do not overlap. */
  predicate Ordered(spans: seq<Span>, lo: nat, hi: nat)
    decreases |spans|
  {
    spans == [] || (lo <= spans[0].start && spans[0].End() <= hi && Ordered(spans[1..], spans[0].End(), hi))
  }

  /** No match of `m` starts in `[lo, hi)`. */
  ghost predicate NoMatchBetween(m: Matcher, s: string, lo: nat, hi: nat) {
    forall q: nat :: lo <= q < hi ==> m(s, q) == None
  }

  /** `spans` are the matches `re.sub` replaces in `s` from `lo` on: each span is a match
      of `m` where it starts, and no match starts in the gap before it or after the last
      one. Matches starting inside a replaced span are skipped. */
  ghost predicate IsLeftmostScan(m: Matcher, s: string, lo: nat, spans: seq<Span>)
    decreases |spans|
  {
    if spans == [] then lo <= |s| && NoMatchBetween(m, s, lo, |s|)
    else
      && lo <= spans[0].start
      && spans[0].End() <= |s|
      && NoMatchBetween(m, s, lo, spans[0].start)
      && m(s, spans[0].start) == Some(spans[0].len)
      && IsLeftmostScan(m, s, spans[0].End(), spans[1..])
  }

  lemma {:induction false} ScanIsOrdered(m: Matcher, s: string, lo: nat, spans: seq<Span>)
    requires IsLeftmostScan(m, s, lo, spans)
    ensures lo <= |s| && Ordered(spans, lo, |s|)
    decreases |spans|
  {
    if spans != [] {
      ScanIsOrdered(m, s, spans[0].End(), spans[1..]);
    }
  }

  /** `s` from `lo` with every span replaced by `replacement` and everything else kept in order. */
  function Splice(s: string, lo: nat, spans: seq<Span>, replacement: string): string
    requires lo <= |s| && Ordered(spans, lo, |s|)
    decreases |spans|
  {
    if spans == [] then s[lo..]
    else s[lo..spans[0].start] + (replacement + Splice(s, spans[0].End(), spans[1..], replacement))
  }

  /** The matches the scan finds, from `lo` on. */
  function MatchSpans(m: Matcher, s: string, lo: nat): seq<Span>
    requires Sound(m) && lo <= |s|
    decreases |s| - lo
  {
    if lo == |s| then []
    else
      match m(s, lo)
      case Some(n) => [Span(lo, n)] + MatchSpans(m, s, lo + n)
      case None => MatchSpans(m, s, lo + 1)
  }

  /** The scan's matches are leftmost and non-overlapping. */
  lemma {:induction false} MatchSpansAreLeftmost(m: Matcher, s: string, lo: nat)
    requires Sound(m) && lo <= |s|
    ensures IsLeftmostScan(m, s, lo, MatchSpans(m, s, lo))
    decreases |s| - lo
  {
    if lo < |s| {
      match m(s, lo)
      case Some(n) =>
        MatchSpansAreLeftmost(m, s, lo + n);
        var spans := [Span(lo, n)] + MatchSpans(m, s, lo + n);
        assert spans[1..] == MatchSpans(m, s, lo + n);
      case None =>
        MatchSpansAreLeftmost(m, s, lo + 1);
        var spans := MatchSpans(m, s, lo + 1);
        if spans == [] {
          assert NoMatchBetween(m, s, lo, |s|);
        } else {
          assert NoMatchBetween(m, s, lo, spans[0].start);
        }
    }
  }

  /** Any leftmost scan of `s` is the one the scan finds. */
  lemma {:induction false} LeftmostScanUnique(m: Matcher, s: string, lo: nat, spans: seq<Span>)
    requires Sound(m) && IsLeftmostScan(m, s, lo, spans)
    ensures spans == MatchSpans(m, s, lo)
    decreases |s| - lo
  {
    ScanIsOrdered(m, s, lo, spans);
    if lo == |s| {
      // A span would be a non-empty match starting at the end of the text.
    } else if spans != [] && spans[0].start == lo {
      LeftmostScanUnique(m, s, spans[0].End(), spans[1..]);
      assert spans == [spans[0]] + spans[1..];
    } else {
      assert m(s, lo) == None;
      assert IsLeftmostScan(m, s, lo + 1, spans);
      LeftmostScanUnique(m, s, lo + 1, spans);
    }
  }

  /** One substitution keeps every character outside the leftmost matches, in order, and
      puts one copy of the replacement in place of each match. */
  lemma {:induction false} SubIsSplice(m: Matcher, replacement: string, s: string, lo: nat, spans: seq<Span>)
    requires Sound(m) && IsLeftmostScan(m, s, lo, spans)
    ensures lo <= |s| && Ordered(spans, lo, |s|)
    ensures SubFrom(m, replacement, s, lo) == Splice(s, lo, spans, replacement)
    decreases |s| - lo
  {
    ScanIsOrdered(m, s, lo, spans);
    if lo == |s| {
      // A span would be a non-empty match starting at the end of the text.
    } else if spans != [] && spans[0].start == lo {
      SubIsSplice(m, replacement, s, spans[0].End(), spans[1..]);
      SpliceAtSpan(s, lo, spans, replacement);
    } else {
      assert m(s, lo) == None;
      assert IsLeftmostScan(m, s, lo + 1, spans);
      SubIsSplice(m, replacement, s, lo + 1, spans);
      SpliceKeepsChar(s, lo, spans, replacement);
    }
  }

  /** A splice starting at a span begins with the replacement. */
  lemma SpliceAtSpan(s: string, lo: nat, spans: seq<Span>, replacement: string)
    requires lo <= |s| && Ordered(spans, lo, |s|) && spans != [] && spans[0].start == lo
    ensures Splice(s, lo, spans, replacement) == replacement + Splice(s, spans[0].End(), spans[1..], replacement)
  {
    assert s[lo..lo] == [];
  }

  /** A splice starting before its first span begins with the character there. */
  lemma SpliceKeepsChar(s: string, lo: nat, spans: seq<Span>, replacement: string)
    requires lo < |s| && Ordered(spans, lo + 1, |s|)
    ensures Ordered(spans, lo, |s|)
    ensures Splice(s, lo, spans, replacement) == [s[lo]] + Splice(s, lo + 1, spans, replacement)
  {
    if spans != [] {
      var rest := replacement + Splice(s, spans[0].End(), spans[1..], replacement);
      Reassociate([s[lo]], s[lo + 1..spans[0].start], rest);
      assert [s[lo]] + s[lo + 1..spans[0].start] == s[lo..spans[0].start];
    } else {
      assert [s[lo]] + s[lo + 1..] == s[lo..];
    }
  }

  /** Where the pattern matches nowhere, the substitution returns the text unchanged. */
  lemma SubNoMatch(m: Matcher, replacement: string, s: string)
    requires Sound(m) && forall q: nat :: q < |s| ==> m(s, q) == None
    ensures Sub(m, replacement, s) == s
  {
    SubIsSplice(m, replacement, s, 0, []);
  }
  // ---------------------------------------------------------------------------
  // Substituting piece by piece
  // ---------------------------------------------------------------------------

  /** When `t` starts with `a` and every match before `|a|` is the same in `t` as in `a`
      alone, the substitution of `t` is that of `a` followed by that of the rest. */
  lemma {:induction false} SubFromSplit(m: Matcher, replacement: string, t: string, a: string, i: nat)
    requires Sound(m) && i <= |a| <= |t|
    requires forall q: nat :: i <= q < |a| ==> t[q] == a[q] && m(t, q) == m(a, q)
    ensures SubFrom(m, replacement, t, i) == SubFrom(m, replacement, a, i) + SubFrom(m, replacement, t, |a|)
    decreases |a| - i
  {
    if i < |a| {
      assert t[i] == a[i] && m(t, i) == m(a, i);
      match m(a, i)
      case Some(n) =>
        SubFromSplit(m, replacement, t, a, i + n);
        assert SubFrom(m, replacement, t, i) == replacement + SubFrom(m, replacement, t, i + n);
        assert SubFrom(m, replacement, a, i) == replacement + SubFrom(m, replacement, a, i + n);
        Reassociate(replacement, SubFrom(m, replacement, a, i + n), SubFrom(m, replacement, t, |a|));
      case None =>
        SubFromSplit(m, replacement, t, a, i + 1);
        assert SubFrom(m, replacement, t, i) == [a[i]] + SubFrom(m, replacement, t, i + 1);
        assert SubFrom(m, replacement, a, i) == [a[i]] + SubFrom(m, replacement, a, i + 1);
        Reassociate([a[i]], SubFrom(m, replacement, a, i + 1), SubFrom(m, replacement, t, |a|));
    }
  }

  lemma Reassociate(x: string, y: string, z: string)
    ensures x + (y + z) == (x + y) + z
  {
  }

  /** When `t` ends in `b` from `d` on and every match from `d + j` on is the same in `t`
      as in `b` alone, the substitution of `t` from there is that of `b` from `j`. */
  lemma {:induction false} SubFromShift(m: Matcher, replacement: string, t: string, d: nat, b: string, j: nat)
    requires Sound(m) && d + |b| == |t| && j <= |b|
    requires forall q: nat :: j <= q < |b| ==> t[d + q] == b[q] && m(t, d + q) == m(b, q)
    ensures SubFrom(m, replacement, t, d + j) == SubFrom(m, replacement, b, j)
    decreases |b| - j
  {
    if j < |b| {
      assert t[d + j] == b[j] && m(t, d + j) == m(b, j);
      match m(b, j)
      case Some(n) =>
        SubFromShift(m, replacement, t, d, b, j + n);
        assert SubFrom(m, replacement, t, d + j) == replacement + SubFrom(m, replacement, t, d + (j + n));
      case None =>
        SubFromShift(m, replacement, t, d, b, j + 1);
        assert SubFrom(m, replacement, t, d + j) == [b[j]] + SubFrom(m, replacement, t, d + (j + 1));
    }
  }

  /** When every match in the suffix `t[d..]` is the same in `t`, the substitution of `t`
      from `d` on is that of the suffix. */
  lemma SubAfterPrefix(m: Matcher, replacement: string, t: string, d: nat)
    requires Sound(m) && d <= |t|
    requires forall q: nat :: q < |t| - d ==> m(t, d + q) == m(t[d..], q)
    ensures SubFrom(m, replacement, t, d) == Sub(m, replacement, t[d..])
  {
    SubFromShift(m, replacement, t, d, t[d..], 0);
  }

  /** Where no match starts in `[k, hi)`, the substitution copies that stretch. */
  lemma {:induction false} SubFromCopies(m: Matcher, replacement: string, s: string, k: nat, hi: nat)
    requires Sound(m) && k <= hi <= |s|
    requires NoMatchBetween(m, s, k, hi)
    ensures SubFrom(m, replacement, s, k) == s[k..hi] + SubFrom(m, replacement, s, hi)
    decreases hi - k
  {
    if k < hi {
      SubFromCopies(m, replacement, s, k + 1, hi);
      assert m(s, k) == None;
      calc {
        SubFrom(m, replacement, s, k);
        [s[k]] + SubFrom(m, replacement, s, k + 1);
        [s[k]] + (s[k + 1..hi] + SubFrom(m, replacement, s, hi));
        ([s[k]] + s[k + 1..hi]) + SubFrom(m, replacement, s, hi);
        { assert [s[k]] + s[k + 1..hi] == s[k..hi]; }
        s[k..hi] + SubFrom(m, replacement, s, hi);
      }
    }
  }
  /** A text with exactly one match: the substitution replaces it and keeps both sides. */
  lemma SubOneMatch(m: Matcher, replacement: string, s: string, lo: nat, n: nat)
    requires Sound(m) && lo + n <= |s| && m(s, lo) == Some(n)
    requires NoMatchBetween(m, s, 0, lo) && NoMatchBetween(m, s, lo + n, |s|)
    ensures Sub(m, replacement, s) == s[..lo] + replacement + s[lo + n..]
  {
    SubFromCopies(m, replacement, s, 0, lo);
    SubFromCopies(m, replacement, s, lo + n, |s|);
    var after := SubFrom(m, replacement, s, lo + n);
    assert after == s[lo + n..] + [] by {
      assert s[lo + n..|s|] == s[lo + n..];
    }
    calc {
      Sub(m, replacement, s);
      s[0..lo] + SubFrom(m, replacement, s, lo);
      { assert s[0..lo] == s[..lo]; }
      s[..lo] + (replacement + after);
      { Reassociate(s[..lo], replacement, after); }
      s[..lo] + replacement + s[lo + n..];
    }
  }

  /** The substitution of a non-empty text ends with the text's last character or with
      the replacement's last character. */
  lemma {:induction false} SubFromLast(m: Matcher, replacement: string, s: string, i: nat)
    requires Sound(m) && i < |s| && replacement != []
    ensures var r := SubFrom(m, replacement, s, i);
              r != [] && (r[|r| - 1] == s[|s| - 1] || r[|r| - 1] == replacement[|replacement| - 1])
    decreases |s| - i
  {
    var rest := SubFrom(m, replacement, s, i);
    match m(s, i)
    case Some(n) =>
      if i + n < |s| {
        SubFromLast(m, replacement, s, i + n);
      }
      assert rest == replacement + SubFrom(m, replacement, s, i + n);
    case None =>
      if i + 1 < |s| {
        SubFromLast(m, replacement, s, i + 1);
      }
      assert rest == [s[i]] + SubFrom(m, replacement, s, i + 1);
  }
}
