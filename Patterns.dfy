/** Hand-written recognisers for the three detection patterns of `mask_sensitive_text`
    (app.py:31-33), read with their evident meaning:

      account  `\b\d{12,16}\b`
      ID       `\b[A-Z]{1,2}\d{6,8}\b`
      amount   `\$\s?\d+(?:,\d{3})*(?:\.\d{2})?`

    `MatchAt(p, s, i)` is what Python's regular-expression engine answers when it tries
    pattern `p` at position `i` of `s`: `Some(n)` for a match of length `n`, `None` otherwise.
    Greedy repetition is tried longest first and backtracks one item at a time, as the
    engine does. The patterns as literally written in app.py (with doubled backslashes)
    are modelled in module LiteralPatterns. */
module Patterns {
  import opened CharClasses
  import opened Options
  import LiteralPatterns

  /** The three patterns as intended, and the account and ID patterns as literally spelled. */
  datatype Pattern = AccountNumber | IdCode | CurrencyAmount | LiteralAccount | LiteralId | LiteralAmount

  predicate Intended(p: Pattern) {
    p.AccountNumber? || p.IdCode? || p.CurrencyAmount?
  }

  function MatchAt(p: Pattern, s: string, i: nat): (r: Option<nat>)
    requires i <= |s|
    ensures r.Some? ==> 1 <= r.value && i + r.value <= |s|
  {
    match p
    case AccountNumber => AccountAt(s, i)
    case IdCode => IdAt(s, i)
    case CurrencyAmount => AmountAt(s, i)
    case LiteralAccount => LiteralPatterns.LiteralAccountAt(s, i)
    case LiteralId => LiteralPatterns.LiteralIdAt(s, i)
    case LiteralAmount => None  // never matches: see LiteralPatterns.LiteralAmountHeadNeverHolds
  }

  // ---------------------------------------------------------------------------
  // Runs of characters
  // ---------------------------------------------------------------------------

  /** A digit run is determined by where it starts: any stretch of digits from `p`
      that is not followed by a digit is the longest run. */
  lemma DigitRunUnique(s: string, p: nat, k: nat)
    requires p + k <= |s| && DigitsBetween(s, p, p + k)
    requires p + k == |s| || !IsDigit(s[p + k])
    ensures k == DigitRun(s, p)
  {
  }

  /** A stretch of `k` digits from `p` lies within the digit run at `p`. */
  lemma DigitRunCovers(s: string, p: nat, k: nat)
    requires p + k <= |s| && DigitsBetween(s, p, p + k)
    ensures k <= DigitRun(s, p)
  {
  }

  /** The digit run at `q` is the same in a suffix of `s` that still contains `q`. */
  lemma DigitRunShift(s: string, d: nat, q: nat)
    requires d <= q <= |s|
    ensures DigitRun(s, q) == DigitRun(s[d..], q - d)
  {
    var t := s[d..];
    var n := DigitRun(t, q - d);
    assert forall k :: q <= k < q + n ==> s[k] == t[k - d];
    assert q + n < |s| ==> s[q + n] == t[q - d + n];
    DigitRunUnique(s, q, n);
  }

  /** `k` digits from `p` and no word character right after them. */
  predicate DigitsThenBoundary(s: string, p: nat, k: nat) {
    p + k <= |s| && DigitsBetween(s, p, p + k) && !IsWordAt(s, p + k)
  }

  // ---------------------------------------------------------------------------
  // `\d{lo,hi}\b`, shared by the account and ID patterns
  // ---------------------------------------------------------------------------

  /** `\d{lo,hi}\b` at `p`: take as many digits as allowed (at most `hi`), then give
      them back one at a time until `\b` holds or fewer than `lo` remain. */
  function CountedDigits(s: string, p: nat, lo: nat, hi: nat): Option<nat>
    requires p <= |s| && 1 <= lo
  {
    BacktrackDigits(s, p, lo, Min(DigitRun(s, p), hi))
  }

  function BacktrackDigits(s: string, p: nat, lo: nat, k: nat): Option<nat>
    requires p + k <= |s| && 1 <= lo
    decreases k
  {
    if k < lo then None
    else if Boundary(s, p + k) then Some(k)
    else BacktrackDigits(s, p, lo, k - 1)
  }

  /** Backtracking below the full run never helps: the character after a shorter
      stretch is a digit, so `\b` cannot hold there. */
  lemma {:induction false} BacktrackDigitsResult(s: string, p: nat, lo: nat, k: nat)
    requires p + k <= |s| && 1 <= lo && k <= DigitRun(s, p)
    ensures BacktrackDigits(s, p, lo, k)
         == if k == DigitRun(s, p) && lo <= k && !IsWordAt(s, p + k) then Some(k) else None
  {
    var n := DigitRun(s, p);
    if k < lo {
    } else {
      assert IsWordAt(s, p + k - 1);
      if k < n {
        assert IsDigit(s[p + k]);
        BacktrackDigitsResult(s, p, lo, k - 1);
      } else if !Boundary(s, p + k) {
        BacktrackDigitsResult(s, p, lo, k - 1);
      }
    }
  }

  /** `\d{lo,hi}\b` matches `k` digits exactly when those are the whole digit run at `p`,
      its length is in range and no word character follows. */
  lemma CountedDigitsSpec(s: string, p: nat, lo: nat, hi: nat)
    requires p <= |s| && 1 <= lo
    ensures forall k :: CountedDigits(s, p, lo, hi) == Some(k) <==> lo <= k <= hi && DigitsThenBoundary(s, p, k)
  {
    var n := DigitRun(s, p);
    BacktrackDigitsResult(s, p, lo, Min(n, hi));
    forall k | lo <= k <= hi && DigitsThenBoundary(s, p, k)
      ensures k == n
    {
      DigitRunUnique(s, p, k);
    }
  }

  // ---------------------------------------------------------------------------
  // Account pattern `\b\d{12,16}\b`
  // ---------------------------------------------------------------------------

  function AccountAt(s: string, i: nat): (r: Option<nat>)
    requires i <= |s|
    ensures r.Some? ==> 1 <= r.value && i + r.value <= |s|
  {
    CountedDigitsSpec(s, i, 12, 16);
    if Boundary(s, i) then CountedDigits(s, i, 12, 16) else None
  }

  /** The account pattern matches `s[i..i+n]`: 12 to 16 digits with no word
      character on either side. */
  predicate IsAccountNumber(s: string, i: nat, n: nat) {
    && 12 <= n <= 16 && i + n <= |s|
    && DigitsBetween(s, i, i + n)
    && !IsWordAt(s, i - 1) && !IsWordAt(s, i + n)
  }

  lemma AccountAtSpec(s: string, i: nat)
    requires i <= |s|
    ensures forall n: nat :: AccountAt(s, i) == Some(n) <==> IsAccountNumber(s, i, n)
  {
    CountedDigitsSpec(s, i, 12, 16);
    forall n | IsAccountNumber(s, i, n) ensures Boundary(s, i) {
      assert IsWordAt(s, i);
    }
    if AccountAt(s, i).Some? {
      assert IsWordAt(s, i);
    }
  }

  // ---------------------------------------------------------------------------
  // ID pattern `\b[A-Z]{1,2}\d{6,8}\b`
  // ---------------------------------------------------------------------------

  function IdAt(s: string, i: nat): (r: Option<nat>)
    requires i <= |s|
    ensures r.Some? ==> 1 <= r.value && i + r.value <= |s|
  {
    if Boundary(s, i) then LettersThenDigits(s, i, Min(UpperRun(s, i), 2)) else None
  }

  /** `[A-Z]{1,2}` having taken `m` letters, followed by `\d{6,8}\b`; on failure one
      letter is given back. */
  function LettersThenDigits(s: string, i: nat, m: nat): (r: Option<nat>)
    requires i + m <= |s|
    ensures r.Some? ==> 1 <= r.value && i + r.value <= |s|
    decreases m
  {
    if m == 0 then None
    else
      CountedDigitsSpec(s, i + m, 6, 8);
      match CountedDigits(s, i + m, 6, 8)
      case Some(d) => Some(m + d)
      case None => LettersThenDigits(s, i, m - 1)
  }

  /** `s[i..i+n]` is `m` upper-case letters followed by 6 to 8 digits. */
  predicate IdSplit(s: string, i: nat, m: nat, n: nat) {
    && m + 6 <= n <= m + 8 && i + n <= |s|
    && UppersBetween(s, i, i + m) && DigitsBetween(s, i + m, i + n)
  }

  /** The ID pattern matches `s[i..i+n]`: one or two upper-case letters, 6 to 8 digits,
      and no word character on either side. */
  predicate IsIdCode(s: string, i: nat, n: nat) {
    && i + n <= |s|
    && (IdSplit(s, i, 1, n) || IdSplit(s, i, 2, n))
    && !IsWordAt(s, i - 1) && !IsWordAt(s, i + n)
  }

  lemma IdAtSpec(s: string, i: nat)
    requires i <= |s|
    ensures forall n: nat :: IdAt(s, i) == Some(n) <==> IsIdCode(s, i, n)
  {
    var u := UpperRun(s, i);
    if u >= 2 {
      assert IsWordAt(s, i);
      IdWithTwoLetters(s, i);
    } else if u == 1 {
      assert IsWordAt(s, i);
      IdWithOneLetter(s, i);
    } else {
      assert forall n :: !IdSplit(s, i, 1, n) && !IdSplit(s, i, 2, n);
    }
  }

  /** Two capitals at `i`: the ID takes both, since giving one back leaves a capital
      where a digit is needed. */
  lemma IdWithTwoLetters(s: string, i: nat)
    requires i + 2 <= |s| && IsUpper(s[i]) && IsUpper(s[i + 1])
    ensures forall n: nat :: LettersThenDigits(s, i, 2) == Some(n) <==> IdSplit(s, i, 2, n) && !IsWordAt(s, i + n)
    ensures forall n :: !IdSplit(s, i, 1, n)
  {
    CountedDigitsSpec(s, i + 2, 6, 8);
    assert DigitRun(s, i + 1) == 0;
    assert LettersThenDigits(s, i, 1) == None;
  }

  /** One capital at `i`, not followed by another. */
  lemma IdWithOneLetter(s: string, i: nat)
    requires i + 1 <= |s| && IsUpper(s[i]) && (i + 1 == |s| || !IsUpper(s[i + 1]))
    ensures forall n: nat :: LettersThenDigits(s, i, 1) == Some(n) <==> IdSplit(s, i, 1, n) && !IsWordAt(s, i + n)
    ensures forall n :: !IdSplit(s, i, 2, n)
  {
    CountedDigitsSpec(s, i + 1, 6, 8);
  }

  // ---------------------------------------------------------------------------
  // Amount pattern `\$\s?\d+(?:,\d{3})*(?:\.\d{2})?`
  // ---------------------------------------------------------------------------

  /** `,\d{3}` at `q`. */
  predicate GroupAt(s: string, q: nat) {
    q + 4 <= |s| && s[q] == ',' && IsDigit(s[q + 1]) && IsDigit(s[q + 2]) && IsDigit(s[q + 3])
  }

  /** `\.\d{2}` at `q`. */
  predicate FractionAt(s: string, q: nat) {
    q + 3 <= |s| && s[q] == '.' && IsDigit(s[q + 1]) && IsDigit(s[q + 2])
  }

  /** Characters an amount is made of. */
  predicate AmountChar(c: char) {
    c == '$' || IsSpace(c) || IsDigit(c) || c == ',' || c == '.'
  }

  /** `(?:,\d{3})*` taken greedily from `q`: the end of the last thousands group. */
  function GroupsEnd(s: string, q: nat): (e: nat)
    requires q <= |s|
    ensures q <= e <= |s| && !GroupAt(s, e)
    ensures forall k :: q <= k < e ==> s[k] == ',' || IsDigit(s[k])
    decreases |s| - q
  {
    if GroupAt(s, q) then GroupsEnd(s, q + 4) else q
  }

  /** `(?:\.\d{2})?` taken greedily at `q`. */
  function FractionEnd(s: string, q: nat): (e: nat)
    requires q <= |s|
    ensures e == (if FractionAt(s, q) then q + 3 else q) && e <= |s|
  {
    if FractionAt(s, q) then q + 3 else q
  }

  /** `\d+(?:,\d{3})*(?:\.\d{2})?` from a digit at `p`. Every part after `\d+` may match
      nothing, so the first (greedy) attempt always succeeds and nothing backtracks. */
  function NumberEnd(s: string, p: nat): (e: nat)
    requires p < |s| && IsDigit(s[p])
    ensures p < e <= |s|
    ensures forall k :: p <= k < e ==> IsDigit(s[k]) || s[k] == ',' || s[k] == '.'
  {
    FractionEnd(s, GroupsEnd(s, p + DigitRun(s, p)))
  }

  function AmountAt(s: string, i: nat): (r: Option<nat>)
    requires i <= |s|
    ensures r.Some? ==> 1 <= r.value && i + r.value <= |s|
  {
    if i < |s| && s[i] == '$' then
      if i + 2 < |s| && IsSpace(s[i + 1]) && IsDigit(s[i + 2]) then
        Some(NumberEnd(s, i + 2) - i)         // `\s?` takes the whitespace
      else if i + 1 < |s| && IsDigit(s[i + 1]) then
        Some(NumberEnd(s, i + 1) - i)         // `\s?` takes nothing, or gave its whitespace back
      else None
    else None
  }

  /** Where the number of amount `a` begins: after the `$` and the optional whitespace. */
  function NumberStart(a: string): (f: nat)
    requires AmountText(a)
    ensures f < |a| && NumberText(a[f..]) && IsDigit(a[f])
    ensures f == 1 || (f == 2 && IsSpace(a[1]))
  {
    if NumberText(a[1..]) then 1 else 2
  }

  /** Within a tail `(?:,\d{3})*(?:\.\d{2})?`, a digit run that follows a non-word
      character is a thousands group or a fraction: at most three digits. */
  lemma {:induction false} TailRunsShort(t: string, q: nat)
    requires TailText(t) && 0 < q <= |t| && !IsWordChar(t[q - 1])
    ensures DigitRun(t, q) <= 3
    decreases |t|
  {
    if |t| >= 4 && t[0] == ',' && IsDigit(t[1]) && IsDigit(t[2]) && IsDigit(t[3]) && TailText(t[4..]) {
      if q == 1 {
        assert t[4..] != [] ==> t[4..][0] == t[4];
        assert 4 < |t| ==> !IsDigit(t[4]);
      } else {
        assert q >= 5;
        assert t[4..][q - 5] == t[q - 1];
        TailRunsShort(t[4..], q - 4);
        DigitRunShift(t, 4, q);
      }
    }
  }

  /** Within a number `\d+(?:,\d{3})*(?:\.\d{2})?`, a digit run that follows a non-word
      character is at most three digits: only the leading run can be longer. */
  lemma {:induction false} NumberRunsShort(t: string, q: nat)
    requires NumberText(t) && 0 < q <= |t| && !IsWordChar(t[q - 1])
    ensures DigitRun(t, q) <= 3
    decreases |t|
  {
    assert q >= 2;
    assert t[1..][q - 2] == t[q - 1];
    if NumberText(t[1..]) {
      NumberRunsShort(t[1..], q - 1);
    } else {
      TailRunsShort(t[1..], q - 1);
    }
    DigitRunShift(t, 1, q);
  }

  /** The language of the amount pattern, as a grammar over whole strings. */
  predicate AmountText(t: string) {
    |t| >= 2 && t[0] == '$' && (NumberText(t[1..]) || (IsSpace(t[1]) && NumberText(t[2..])))
  }

  /** `\d+(?:,\d{3})*(?:\.\d{2})?` */
  predicate NumberText(t: string)
    decreases |t|
  {
    |t| >= 1 && IsDigit(t[0]) && (NumberText(t[1..]) || TailText(t[1..]))
  }

  /** `(?:,\d{3})*(?:\.\d{2})?` */
  predicate TailText(t: string)
    decreases |t|
  {
    || t == []
    || (|t| == 3 && t[0] == '.' && IsDigit(t[1]) && IsDigit(t[2]))
    || (|t| >= 4 && t[0] == ',' && IsDigit(t[1]) && IsDigit(t[2]) && IsDigit(t[3]) && TailText(t[4..]))
  }

  /** From `q`, the greedy groups and fraction form the longest prefix in the tail language. */
  lemma {:induction false} TailLongest(s: string, q: nat)
    requires q <= |s|
    ensures TailText(s[q..FractionEnd(s, GroupsEnd(s, q))])
    ensures forall e :: q <= e <= |s| && TailText(s[q..e]) ==> e <= FractionEnd(s, GroupsEnd(s, q))
    decreases |s| - q
  {
    var g := GroupsEnd(s, q);
    var f := FractionEnd(s, g);
    if GroupAt(s, q) {
      TailLongest(s, q + 4);
      assert s[q..f][4..] == s[q + 4..f];
      forall e | q <= e <= |s| && TailText(s[q..e]) ensures e <= f {
        if e > q {
          assert s[q..e][4..] == s[q + 4..e];
        }
      }
    } else {
      forall e | q <= e <= |s| && TailText(s[q..e]) ensures e <= f {
        if e > q {
          assert s[q..e][0] == s[q];
        }
      }
    }
  }

  /** From a digit at `p`, the greedy number is the longest prefix in the number language. */
  lemma NumberLongest(s: string, p: nat)
    requires p < |s| && IsDigit(s[p])
    ensures NumberText(s[p..NumberEnd(s, p)])
    ensures forall e :: p <= e <= |s| && NumberText(s[p..e]) ==> e <= NumberEnd(s, p)
  {
    NumberSound(s, p);
    forall e | p <= e <= |s| && NumberText(s[p..e]) ensures e <= NumberEnd(s, p) {
      NumberMaximal(s, p, e);
    }
  }

  lemma {:induction false} NumberSound(s: string, p: nat)
    requires p < |s| && IsDigit(s[p])
    ensures NumberText(s[p..NumberEnd(s, p)])
    decreases |s| - p
  {
    var e0 := NumberEnd(s, p);
    assert s[p..e0][0] == s[p];
    assert s[p..e0][1..] == s[p + 1..e0];
    if p + 1 < |s| && IsDigit(s[p + 1]) {
      NumberSound(s, p + 1);
      assert DigitRun(s, p) == 1 + DigitRun(s, p + 1);
      assert e0 == NumberEnd(s, p + 1);
      assert NumberText(s[p + 1..e0]);
    } else {
      TailLongest(s, p + 1);
      assert DigitRun(s, p) == 1;
      assert TailText(s[p + 1..e0]);
    }
  }

  lemma {:induction false} NumberMaximal(s: string, p: nat, e: nat)
    requires p <= e <= |s| && NumberText(s[p..e])
    ensures e <= NumberEnd(s, p)
    decreases e - p
  {
    assert s[p..e][0] == s[p];
    assert s[p..e][1..] == s[p + 1..e];
    if NumberText(s[p + 1..e]) {
      assert s[p + 1..e][0] == s[p + 1];
      NumberMaximal(s, p + 1, e);
      assert DigitRun(s, p) == 1 + DigitRun(s, p + 1);
    } else if p + 1 < |s| && IsDigit(s[p + 1]) {
      // the tail after the first digit cannot start with a digit, so it is empty
      assert e > p + 1 ==> s[p + 1..e][0] == s[p + 1];
    } else {
      TailLongest(s, p + 1);
      assert DigitRun(s, p) == 1;
    }
  }

  /** A match of the amount recogniser is an amount. */
  lemma AmountAtSound(s: string, i: nat)
    requires i <= |s| && AmountAt(s, i).Some?
    ensures AmountText(s[i..i + AmountAt(s, i).value])
  {
    var e := i + AmountAt(s, i).value;
    assert s[i..e][0] == '$';
    if i + 2 < |s| && IsSpace(s[i + 1]) && IsDigit(s[i + 2]) {
      assert e == NumberEnd(s, i + 2);
      NumberSound(s, i + 2);
      assert s[i..e][1] == s[i + 1];
      assert s[i..e][2..] == s[i + 2..e];
    } else {
      assert e == NumberEnd(s, i + 1);
      NumberSound(s, i + 1);
      assert s[i..e][1..] == s[i + 1..e];
    }
  }

  /** No amount starting at `i` is longer than the recogniser's match. */
  lemma AmountAtMaximal(s: string, i: nat, e: nat)
    requires i <= e <= |s| && AmountText(s[i..e])
    ensures AmountAt(s, i).Some? && e <= i + AmountAt(s, i).value
  {
    assert s[i..e][1..] == s[i + 1..e];
    assert s[i..e][2..] == s[i + 2..e];
    if NumberText(s[i + 1..e]) {
      assert s[i + 1..e][0] == s[i + 1];
      NumberLongest(s, i + 1);
    } else {
      assert s[i + 2..e][0] == s[i + 2];
      NumberLongest(s, i + 2);
    }
  }

  /** The amount recogniser returns the longest prefix of `s[i..]` in the amount
      language, and fails only when no prefix is in it. */
  lemma AmountAtLongest(s: string, i: nat)
    requires i <= |s|
    ensures forall n: nat :: AmountAt(s, i) == Some(n) ==> AmountText(s[i..i + n])
    ensures forall e :: i <= e <= |s| && AmountText(s[i..e]) ==>
              AmountAt(s, i).Some? && e <= i + AmountAt(s, i).value
  {
    if AmountAt(s, i).Some? {
      AmountAtSound(s, i);
    }
    forall e | i <= e <= |s| && AmountText(s[i..e])
      ensures AmountAt(s, i).Some? && e <= i + AmountAt(s, i).value
    {
      AmountAtMaximal(s, i, e);
    }
  }

  // ---------------------------------------------------------------------------
  // What a match is made of, and how far a recogniser looks
  // ---------------------------------------------------------------------------

  /** A character of the number part of an amount: `\d`, `,` or `.`. */
  predicate NumeralChar(c: char) {
    IsDigit(c) || c == ',' || c == '.'
  }

  lemma {:induction false} TailTextChars(t: string)
    requires TailText(t)
    ensures forall k :: 0 <= k < |t| ==> NumeralChar(t[k])
    decreases |t|
  {
    if |t| >= 4 && t[0] == ',' && TailText(t[4..]) {
      TailTextChars(t[4..]);
      assert forall k :: 4 <= k < |t| ==> t[k] == t[4..][k - 4];
    }
  }

  lemma {:induction false} NumberTextChars(t: string)
    requires NumberText(t)
    ensures forall k :: 0 <= k < |t| ==> NumeralChar(t[k])
    decreases |t|
  {
    if NumberText(t[1..]) {
      NumberTextChars(t[1..]);
    } else {
      TailTextChars(t[1..]);
    }
    assert forall k :: 1 <= k < |t| ==> t[k] == t[1..][k - 1];
  }

  /** An amount is a `$`, then a digit or one whitespace character, then digits, commas
      and points only. */
  lemma AmountTextChars(t: string)
    requires AmountText(t)
    ensures t[0] == '$' && (IsDigit(t[1]) || IsSpace(t[1]))
    ensures forall k :: 2 <= k < |t| ==> NumeralChar(t[k])
    ensures forall k :: 0 <= k < |t| ==> AmountChar(t[k])
  {
    if NumberText(t[1..]) {
      NumberTextChars(t[1..]);
      assert forall k :: 1 <= k < |t| ==> t[k] == t[1..][k - 1];
    } else {
      NumberTextChars(t[2..]);
      assert forall k :: 2 <= k < |t| ==> t[k] == t[2..][k - 2];
    }
  }

  /** A character some intended pattern can consume. */
  predicate MatchChar(c: char) {
    AmountChar(c) || IsUpper(c)
  }

  /** Every match of an intended pattern consists of pattern characters and holds a digit. */
  lemma MatchChars(p: Pattern, s: string, i: nat, n: nat)
    requires Intended(p) && i <= |s| && MatchAt(p, s, i) == Some(n)
    ensures i + n <= |s|
    ensures forall k :: i <= k < i + n ==> MatchChar(s[k])
    ensures exists k :: i <= k < i + n && IsDigit(s[k])
    ensures IsDigit(s[i]) || IsUpper(s[i]) || s[i] == '$'
  {
    match p
    case AccountNumber =>
      AccountAtSpec(s, i);
      assert IsDigit(s[i]);
    case IdCode =>
      IdAtSpec(s, i);
      assert IsDigit(s[i + n - 1]);
    case CurrencyAmount =>
      AmountAtSound(s, i);
      var t := s[i..i + n];
      AmountTextChars(t);
      assert forall k :: i <= k < i + n ==> s[k] == t[k - i];
      if IsDigit(t[1]) {
        assert IsDigit(s[i + 1]);
      } else {
        assert t[2..][0] == t[2];
        assert IsDigit(s[i + 2]);
      }
  }

  /** Two options agree when they hold the same values. */
  lemma SameOption(x: Option<nat>, y: Option<nat>)
    requires forall n: nat :: x == Some(n) <==> y == Some(n)
    ensures x == y
  {
    assert x.Some? ==> y == Some(x.value);
    assert y.Some? ==> x == Some(y.value);
  }

  /** A character that ends any match: no intended pattern can read past it, and
      `\b` treats it like the end of the text. */
  predicate Stops(c: char) {
    !IsWordChar(c) && !AmountChar(c)
  }

  /** Character `c`, placed right after `a`, ends every match that starts in `a`: it is no
      word character (so no digit run or capital run goes on and `\b` holds before it),
      no `,` or `.` (so no amount's number goes on), and whitespace only when `a` does
      not end in `$`, the one place an amount takes whitespace. */
  predicate Seals(a: string, c: char) {
    !IsWordChar(c) && c != ',' && c != '.' && (IsSpace(c) ==> a == [] || a[|a| - 1] != '$')
  }

  /** Text after a sealing character does not change what matches before it. */
  lemma MatchAtLeft(p: Pattern, a: string, b: string, q: nat)
    requires Intended(p) && q < |a| && b != [] && Seals(a, b[0])
    ensures MatchAt(p, a + b, q) == MatchAt(p, a, q)
  {
    match p
    case AccountNumber => AccountAtLeft(a, b, q);
    case IdCode => IdAtLeft(a, b, q);
    case CurrencyAmount => AmountAtLeft(a, b, q);
  }

  lemma AccountAtLeft(a: string, b: string, q: nat)
    requires q <= |a| && b != [] && !IsWordChar(b[0])
    ensures AccountAt(a + b, q) == AccountAt(a, q)
  {
    var t := a + b;
    assert forall k :: 0 <= k < |a| ==> t[k] == a[k];
    assert t[|a|] == b[0] && !IsWordChar(t[|a|]);
    AccountAtSpec(t, q);
    AccountAtSpec(a, q);
    forall n: nat ensures IsAccountNumber(t, q, n) == IsAccountNumber(a, q, n) {
      if q + n <= |a| {
        assert IsWordAt(t, q + n) == IsWordAt(a, q + n);
        assert IsWordAt(t, q - 1) == IsWordAt(a, q - 1);
        assert DigitsBetween(t, q, q + n) == DigitsBetween(a, q, q + n);
      }
    }
    SameOption(AccountAt(t, q), AccountAt(a, q));
  }

  lemma IdAtLeft(a: string, b: string, q: nat)
    requires q <= |a| && b != [] && !IsWordChar(b[0])
    ensures IdAt(a + b, q) == IdAt(a, q)
  {
    var t := a + b;
    assert forall k :: 0 <= k < |a| ==> t[k] == a[k];
    assert t[|a|] == b[0] && !IsWordChar(t[|a|]);
    IdAtSpec(t, q);
    IdAtSpec(a, q);
    forall n: nat ensures IsIdCode(t, q, n) == IsIdCode(a, q, n) {
      if q + n <= |a| {
        assert IsWordAt(t, q + n) == IsWordAt(a, q + n);
        assert IsWordAt(t, q - 1) == IsWordAt(a, q - 1);
        assert IdSplit(t, q, 1, n) == IdSplit(a, q, 1, n);
        assert IdSplit(t, q, 2, n) == IdSplit(a, q, 2, n);
      }
    }
    SameOption(IdAt(t, q), IdAt(a, q));
  }

  lemma AmountAtLeft(a: string, b: string, q: nat)
    requires q < |a| && b != [] && Seals(a, b[0])
    ensures AmountAt(a + b, q) == AmountAt(a, q)
  {
    AmountAtRestricts(a, b, q);
    AmountAtExtends(a, b, q);
  }

  /** An amount in `a + b` before a sealing character is an amount of `a`. */
  lemma AmountAtRestricts(a: string, b: string, q: nat)
    requires q < |a| && b != [] && Seals(a, b[0])
    ensures AmountAt(a + b, q).Some? ==> AmountAt(a, q).Some? && AmountAt(a + b, q).value <= AmountAt(a, q).value
  {
    if AmountAt(a + b, q).Some? {
      AmountInsideSeal(a, b, q);
      AmountAtMaximal(a, q, q + AmountAt(a + b, q).value);
    }
  }

  /** An amount in `a` stays an amount when text is appended. */
  lemma AmountAtExtends(a: string, b: string, q: nat)
    requires q < |a|
    ensures AmountAt(a, q).Some? ==> AmountAt(a + b, q).Some? && AmountAt(a, q).value <= AmountAt(a + b, q).value
  {
    if AmountAt(a, q).Some? {
      var e := q + AmountAt(a, q).value;
      AmountAtSound(a, q);
      assert (a + b)[q..e] == a[q..e];
      AmountAtMaximal(a + b, q, e);
    }
  }

  /** An amount found in `a + b` before a sealing character ends before it. */
  lemma AmountInsideSeal(a: string, b: string, q: nat)
    requires q < |a| && b != [] && Seals(a, b[0]) && AmountAt(a + b, q).Some?
    ensures q + AmountAt(a + b, q).value <= |a|
    ensures AmountText(a[q..q + AmountAt(a + b, q).value])
  {
    var t := a + b;
    var e := q + AmountAt(t, q).value;
    AmountAtSound(t, q);
    AmountTextChars(t[q..e]);
    assert forall k :: q <= k < e ==> t[k] == t[q..e][k - q];
    assert t[|a|] == b[0] && t[|a| - 1] == a[|a| - 1];
    assert e <= |a|;
    assert t[q..e] == a[q..e];
  }

  /** Text before a non-word character does not change what matches after it: a match
      at `d + j` of `t` is the match at `j` of the suffix `t[d..]`. */
  lemma MatchAtRight(p: Pattern, t: string, d: nat, j: nat)
    requires Intended(p) && d + j <= |t| && (d == 0 || !IsWordChar(t[d - 1]))
    ensures MatchAt(p, t, d + j) == MatchAt(p, t[d..], j)
  {
    match p
    case AccountNumber => AccountAtRight(t, d, j);
    case IdCode => IdAtRight(t, d, j);
    case CurrencyAmount => AmountAtRight(t, d, j);
  }

  /** The characters around position `d + k` of `t` are those around `k` of `t[d..]`, with
      a non-word character (or the start) before `d`. */
  lemma WordAtRight(t: string, d: nat, k: nat)
    requires d + k <= |t| && (d == 0 || !IsWordChar(t[d - 1]))
    ensures IsWordAt(t, d + k) == IsWordAt(t[d..], k)
    ensures IsWordAt(t, d + k - 1) == IsWordAt(t[d..], k - 1)
  {
  }

  lemma AccountAtRight(t: string, d: nat, j: nat)
    requires d + j <= |t| && (d == 0 || !IsWordChar(t[d - 1]))
    ensures AccountAt(t, d + j) == AccountAt(t[d..], j)
  {
    var b, q := t[d..], d + j;
    AccountAtSpec(t, q);
    AccountAtSpec(b, j);
    forall n: nat ensures IsAccountNumber(t, q, n) == IsAccountNumber(b, j, n) {
      WordAtRight(t, d, j);
      if j + n <= |b| {
        WordAtRight(t, d, j + n);
        DigitsRight(t, d, j, j + n);
      }
    }
    SameOption(AccountAt(t, q), AccountAt(b, j));
  }

  lemma DigitsRight(t: string, d: nat, lo: nat, hi: nat)
    requires lo <= hi && d + hi <= |t|
    ensures DigitsBetween(t, d + lo, d + hi) == DigitsBetween(t[d..], lo, hi)
    ensures UppersBetween(t, d + lo, d + hi) == UppersBetween(t[d..], lo, hi)
  {
    assert forall k :: lo <= k < hi ==> t[d..][k] == t[d + k];
  }

  lemma IdAtRight(t: string, d: nat, j: nat)
    requires d + j <= |t| && (d == 0 || !IsWordChar(t[d - 1]))
    ensures IdAt(t, d + j) == IdAt(t[d..], j)
  {
    var b, q := t[d..], d + j;
    IdAtSpec(t, q);
    IdAtSpec(b, j);
    forall n: nat ensures IsIdCode(t, q, n) == IsIdCode(b, j, n) {
      IsIdCodeRight(t, d, j, n);
    }
    SameOption(IdAt(t, q), IdAt(b, j));
  }

  lemma IsIdCodeRight(t: string, d: nat, j: nat, n: nat)
    requires d + j <= |t| && (d == 0 || !IsWordChar(t[d - 1]))
    ensures IsIdCode(t, d + j, n) == IsIdCode(t[d..], j, n)
  {
    WordAtRight(t, d, j);
    if d + j + n <= |t| {
      WordAtRight(t, d, j + n);
      IdSplitRight(t, d, j, 1, n);
      IdSplitRight(t, d, j, 2, n);
    }
  }

  /** Whether `s[i..i+n]` splits into capitals and digits depends only on those characters. */
  lemma IdSplitRight(t: string, d: nat, j: nat, m: nat, n: nat)
    requires d + j + n <= |t|
    ensures IdSplit(t, d + j, m, n) == IdSplit(t[d..], j, m, n)
  {
    if m + 6 <= n <= m + 8 {
      DigitsRight(t, d, j, j + m);
      DigitsRight(t, d, j + m, j + n);
    }
  }

  lemma AmountAtRight(t: string, d: nat, j: nat)
    requires d + j <= |t|
    ensures AmountAt(t, d + j) == AmountAt(t[d..], j)
  {
    assert t[d + j..] == t[d..][j..];
    AmountAtSameSuffix(t, d + j, t[d..], j);
  }

  /** The amount pattern has no look-behind: only the text from `i` on matters. */
  lemma AmountAtSameSuffix(s: string, i: nat, u: string, j: nat)
    requires i <= |s| && j <= |u| && s[i..] == u[j..]
    ensures AmountAt(s, i) == AmountAt(u, j)
  {
    AmountAtSuffixCovers(s, i, u, j);
    AmountAtSuffixCovers(u, j, s, i);
    OptionsMeet(AmountAt(s, i), AmountAt(u, j));
  }

  /** Two options that each hold a value no larger than the other's are equal. */
  lemma OptionsMeet(x: Option<nat>, y: Option<nat>)
    requires x.Some? ==> y.Some? && x.value <= y.value
    requires y.Some? ==> x.Some? && y.value <= x.value
    ensures x == y
  {
  }

  /** An amount at `i` of `s` is one at `j` of any `u` with the same suffix there. */
  lemma AmountAtSuffixCovers(s: string, i: nat, u: string, j: nat)
    requires i <= |s| && j <= |u| && s[i..] == u[j..]
    ensures AmountAt(s, i).Some? ==> AmountAt(u, j).Some? && AmountAt(s, i).value <= AmountAt(u, j).value
  {
    if AmountAt(s, i).Some? {
      var n := AmountAt(s, i).value;
      AmountAtSound(s, i);
      assert s[i..i + n] == s[i..][..n] == u[j..][..n] == u[j..j + n];
      AmountAtMaximal(u, j, j + n);
    }
  }
}
