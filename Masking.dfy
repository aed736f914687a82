/** `mask_sensitive_text` (app.py:28-38): a table of three rules, each a pattern and the
    placeholder that replaces its matches, applied one after the other in table order,
    each to the previous rule's output. */
module Masking {
  import opened CharClasses
  import opened Options
  import opened Patterns
  import opened Substitution
  import opened Passes

  /** One entry of the rule table. */
  datatype Rule = Rule(pattern: Pattern, replacement: string)

  const AccountPlaceholder: string := "[MASKED_ACCOUNT]"
  const IdPlaceholder: string := "[MASKED_ID]"
  const AmountPlaceholder: string := "[MASKED_AMOUNT]"

  /** The table of app.py:30-34 in its iteration order, the patterns read as intended. */
  const DetectionRules: seq<Rule> :=
    [Rule(AccountNumber, AccountPlaceholder), Rule(IdCode, IdPlaceholder), Rule(CurrencyAmount, AmountPlaceholder)]

  /** The same table with the patterns as literally spelled in app.py:31-33. */
  const LiteralRules: seq<Rule> :=
    [Rule(LiteralAccount, AccountPlaceholder), Rule(LiteralId, IdPlaceholder), Rule(LiteralAmount, AmountPlaceholder)]

  /** The rules applied in order, each to the output of the ones before it. */
  function ApplyRules(rules: seq<Rule>, text: string): string
    decreases |rules|
  {
    if rules == [] then text
    else ApplyRules(rules[1..], Pass(rules[0].pattern, rules[0].replacement, text))
  }

  /** What `mask_sensitive_text` returns. */
  function Mask(text: string): string {
    ApplyRules(DetectionRules, text)
  }

  /** What `mask_sensitive_text` returns with its patterns as literally spelled. */
  function MaskAsWritten(text: string): string {
    ApplyRules(LiteralRules, text)
  }

  /** The loop of app.py:35-38. */
  method MaskSensitiveText(text: string) returns (masked: string)
    ensures masked == Mask(text)
  {
    masked := text;
    for k := 0 to |DetectionRules|
      invariant ApplyRules(DetectionRules[k..], masked) == Mask(text)
    {
      var rule := DetectionRules[k];
      assert DetectionRules[k..][1..] == DetectionRules[k + 1..];
      masked := Pass(rule.pattern, rule.replacement, masked);
    }
  }

  // ---------------------------------------------------------------------------
  // The table
  // ---------------------------------------------------------------------------

  /** Masking is the account pass, then the ID pass on its output, then the amount pass. */
  lemma MaskIsThreePasses(text: string)
    ensures Mask(text)
         == Pass(CurrencyAmount, AmountPlaceholder, Pass(IdCode, IdPlaceholder, Pass(AccountNumber, AccountPlaceholder, text)))
  {
    var r := DetectionRules;
    var s1 := Pass(AccountNumber, AccountPlaceholder, text);
    var s2 := Pass(IdCode, IdPlaceholder, s1);
    assert r[1..] == [r[1], r[2]] && r[1..][1..] == [r[2]] && r[1..][1..][1..] == [];
    assert ApplyRules(r, text) == ApplyRules(r[1..], s1);
    assert ApplyRules(r[1..], s1) == ApplyRules(r[1..][1..], s2);
  }

  /** Rules whose patterns are the intended ones and whose placeholders end in `]`. */
  predicate WellFormed(rules: seq<Rule>) {
    forall k :: 0 <= k < |rules| ==>
      Intended(rules[k].pattern) && rules[k].replacement != [] && rules[k].replacement[|rules[k].replacement| - 1] == ']'
  }

  lemma DetectionRulesWellFormed()
    ensures WellFormed(DetectionRules)
  {
  }

  /** Each placeholder is inert: no pattern of the table matches into it. */
  lemma PlaceholdersInert()
    ensures Inert(AccountPlaceholder) && Inert(IdPlaceholder) && Inert(AmountPlaceholder)
  {
    assert forall k :: 0 <= k < |AccountPlaceholder| ==> !IsDigit(AccountPlaceholder[k]);
    assert forall k :: 0 <= k < |IdPlaceholder| ==> !IsDigit(IdPlaceholder[k]);
    assert forall k :: 0 <= k < |AmountPlaceholder| ==> !IsDigit(AmountPlaceholder[k]);
  }

  lemma {:induction false} ApplyRulesEmpty(rules: seq<Rule>)
    ensures ApplyRules(rules, []) == []
    decreases |rules|
  {
    if rules != [] {
      var m := PatternMatcher(rules[0].pattern);
      assert SubFrom(m, rules[0].replacement, [], 0) == [];
      ApplyRulesEmpty(rules[1..]);
    }
  }

  // ---------------------------------------------------------------------------
  // What the passes leave alone
  // ---------------------------------------------------------------------------

  /** An inert piece (such as a placeholder) comes through all the rules unchanged, and the
      text on each side of it is masked on its own. */
  lemma {:induction false} ApplyRulesAroundInert(rules: seq<Rule>, pre: string, w: string, post: string)
    requires WellFormed(rules) && Inert(w)
    ensures ApplyRules(rules, pre + w + post) == ApplyRules(rules, pre) + w + ApplyRules(rules, post)
    decreases |rules|
  {
    if rules != [] {
      var p, r := rules[0].pattern, rules[0].replacement;
      PassAroundInert(p, r, pre, w, post);
      ApplyRulesAroundInert(rules[1..], Pass(p, r, pre), w, Pass(p, r, post));
    }
  }

  /** A separating character comes through all the rules unchanged, and the text on each
      side of it is masked on its own. */
  lemma {:induction false} ApplyRulesAroundSeparator(rules: seq<Rule>, x: string, c: char, y: string)
    requires WellFormed(rules) && Separates(x, c)
    ensures ApplyRules(rules, x + [c] + y) == ApplyRules(rules, x) + [c] + ApplyRules(rules, y)
    decreases |rules|
  {
    if rules != [] {
      var p, r := rules[0].pattern, rules[0].replacement;
      PassAroundSeparator(p, r, x, c, y);
      PassKeepsSeparator(p, r, x, c);
      ApplyRulesAroundSeparator(rules[1..], Pass(p, r, x), c, Pass(p, r, y));
    }
  }

  /** Text without a digit passes through all the rules unchanged: every match holds a digit. */
  lemma {:induction false} ApplyRulesKeepsDigitFree(rules: seq<Rule>, s: string)
    requires WellFormed(rules) && forall k :: 0 <= k < |s| ==> !IsDigit(s[k])
    ensures ApplyRules(rules, s) == s
    decreases |rules|
  {
    if rules != [] {
      var p := rules[0].pattern;
      forall q: nat | q < |s| ensures MatchAt(p, s, q) == None {
        MatchCharsIfAny(p, s, q);
      }
      PassNoMatch(p, rules[0].replacement, s);
      ApplyRulesKeepsDigitFree(rules[1..], s);
    }
  }

  /** Placeholders survive masking: a placeholder already in the text comes out unchanged,
      and the text around it is masked as if it were on its own. */
  lemma MaskAroundPlaceholder(pre: string, w: string, post: string)
    requires w == AccountPlaceholder || w == IdPlaceholder || w == AmountPlaceholder
    ensures Mask(pre + w + post) == Mask(pre) + w + Mask(post)
  {
    PlaceholdersInert();
    DetectionRulesWellFormed();
    ApplyRulesAroundInert(DetectionRules, pre, w, post);
  }

  /** Masking splits at a separating character, such as a space that does not follow a `$`. */
  lemma MaskAroundSeparator(x: string, c: char, y: string)
    requires Separates(x, c)
    ensures Mask(x + [c] + y) == Mask(x) + [c] + Mask(y)
  {
    ApplyRulesAroundSeparator(DetectionRules, x, c, y);
  }

  /** Text without a digit is returned unchanged. */
  lemma MaskKeepsDigitFree(s: string)
    requires forall k :: 0 <= k < |s| ==> !IsDigit(s[k])
    ensures Mask(s) == s
  {
    ApplyRulesKeepsDigitFree(DetectionRules, s);
  }

  /** Text without a `$` and without a run of six or more digits is returned unchanged:
      an account number needs twelve digits in a row, an ID six, an amount a `$`. */
  lemma MaskKeepsPlainText(s: string)
    requires forall k :: 0 <= k < |s| ==> s[k] != '$'
    requires forall i :: 0 <= i <= |s| ==> DigitRun(s, i) < 6
    ensures Mask(s) == s
  {
    forall q: nat | q < |s| ensures MatchAt(AccountNumber, s, q) == None && MatchAt(IdCode, s, q) == None {
      NoMatchInShortRuns(s, q);
    }
    PassNoMatch(AccountNumber, AccountPlaceholder, s);
    PassNoMatch(IdCode, IdPlaceholder, s);
    PassNoMatch(CurrencyAmount, AmountPlaceholder, s);
    MaskIsThreePasses(s);
  }

  /** Where no digit run reaches six, neither an account number nor an ID starts. */
  lemma NoMatchInShortRuns(s: string, q: nat)
    requires q <= |s| && forall i :: 0 <= i <= |s| ==> DigitRun(s, i) < 6
    ensures MatchAt(AccountNumber, s, q) == None && MatchAt(IdCode, s, q) == None
  {
    AccountAtSpec(s, q);
    forall n: nat | IsAccountNumber(s, q, n) ensures false {
      DigitRunCovers(s, q, n);
    }
    IdAtSpec(s, q);
    forall n: nat | IsIdCode(s, q, n) ensures false {
      var m := if IdSplit(s, q, 1, n) then 1 else 2;
      DigitRunCovers(s, q + m, n - m);
    }
  }

  // ---------------------------------------------------------------------------
  // What gets masked
  // ---------------------------------------------------------------------------

  /** A pass over a text that its pattern matches whole is the replacement. */
  lemma PassWholeMatch(p: Pattern, replacement: string, s: string)
    requires MatchAt(p, s, 0) == Some(|s|) && |s| >= 1
    ensures Pass(p, replacement, s) == replacement
  {
    assert SubFrom(PatternMatcher(p), replacement, s, |s|) == [];
  }

  /** A later pass leaves a placeholder as it is. */
  lemma PassKeepsPlaceholder(p: Pattern, replacement: string, w: string)
    requires Intended(p) && (w == AccountPlaceholder || w == IdPlaceholder || w == AmountPlaceholder)
    ensures Pass(p, replacement, w) == w
  {
    PlaceholdersInert();
    PassAroundInert(p, replacement, [], w, []);
    assert SubFrom(PatternMatcher(p), replacement, [], 0) == [];
    assert [] + w + [] == w;
  }

  /** Twelve to sixteen digits on their own are an account number. */
  lemma MaskAccount(d: string)
    requires 12 <= |d| <= 16 && DigitsBetween(d, 0, |d|)
    ensures Mask(d) == AccountPlaceholder
  {
    MaskAccountPass(d);
    PassKeepsPlaceholder(IdCode, IdPlaceholder, AccountPlaceholder);
    PassKeepsPlaceholder(CurrencyAmount, AmountPlaceholder, AccountPlaceholder);
    MaskIsThreePasses(d);
  }

  /** One or two capitals followed by six to eight digits, on their own, are an ID. */
  lemma MaskId(u: string, d: string)
    requires 1 <= |u| <= 2 && UppersBetween(u, 0, |u|)
    requires 6 <= |d| <= 8 && DigitsBetween(d, 0, |d|)
    ensures Mask(u + d) == IdPlaceholder
  {
    var s := u + d;
    NoAccountInId(u, d);
    PassNoMatch(AccountNumber, AccountPlaceholder, s);
    IdWhole(u, d);
    PassWholeMatch(IdCode, IdPlaceholder, s);
    PassKeepsPlaceholder(CurrencyAmount, AmountPlaceholder, IdPlaceholder);
    MaskIsThreePasses(s);
  }

  /** No account number starts in an ID: its digits follow a capital. */
  lemma NoAccountInId(u: string, d: string)
    requires 1 <= |u| && UppersBetween(u, 0, |u|) && DigitsBetween(d, 0, |d|)
    ensures forall q: nat :: q < |u + d| ==> MatchAt(AccountNumber, u + d, q) == None
  {
    var s := u + d;
    assert forall k :: 0 <= k < |u| ==> s[k] == u[k];
    assert forall k :: |u| <= k < |s| ==> s[k] == d[k - |u|];
    forall q: nat | q < |s| ensures MatchAt(AccountNumber, s, q) == None {
      AccountAtSpec(s, q);
      if q > 0 {
        assert IsWordAt(s, q - 1);
      }
    }
  }

  /** The ID pattern matches an ID whole. */
  lemma IdWhole(u: string, d: string)
    requires 1 <= |u| <= 2 && UppersBetween(u, 0, |u|)
    requires 6 <= |d| <= 8 && DigitsBetween(d, 0, |d|)
    ensures MatchAt(IdCode, u + d, 0) == Some(|u + d|)
  {
    var s := u + d;
    assert forall k :: 0 <= k < |u| ==> s[k] == u[k];
    assert forall k :: |u| <= k < |s| ==> s[k] == d[k - |u|];
    IdAtSpec(s, 0);
    assert IdSplit(s, 0, |u|, |s|);
    assert IsIdCode(s, 0, |s|);
  }

  /** An amount on its own is masked, unless its leading digit run is 12 to 16 digits
      long: the account rule, applied first, then takes that run (see MaskAmountAsAccount). */
  lemma MaskAmount(a: string)
    requires AmountText(a)
    requires !(12 <= DigitRun(a, NumberStart(a)) <= 16)
    ensures Mask(a) == AmountPlaceholder
  {
    AmountPasses(a);
    MaskIsThreePasses(a);
  }

  /** The three passes on such an amount: the first two leave it alone, the third
      replaces it whole. */
  lemma AmountPasses(a: string)
    requires AmountText(a)
    requires !(12 <= DigitRun(a, NumberStart(a)) <= 16)
    ensures Pass(AccountNumber, AccountPlaceholder, a) == a
    ensures Pass(IdCode, IdPlaceholder, a) == a
    ensures Pass(CurrencyAmount, AmountPlaceholder, a) == AmountPlaceholder
  {
    NoAccountInAmount(a);
    PassNoMatch(AccountNumber, AccountPlaceholder, a);
    NoIdInAmount(a);
    PassNoMatch(IdCode, IdPlaceholder, a);
    AmountWhole(a);
    PassWholeMatch(CurrencyAmount, AmountPlaceholder, a);
  }

  /** The amount pattern matches an amount whole. */
  lemma AmountWhole(a: string)
    requires AmountText(a)
    ensures MatchAt(CurrencyAmount, a, 0) == Some(|a|)
  {
    assert a[0..|a|] == a;
    AmountAtMaximal(a, 0, |a|);
  }

  /** An amount holds no capital, so no ID starts in it. */
  lemma NoIdInAmount(a: string)
    requires AmountText(a)
    ensures forall q: nat :: q < |a| ==> MatchAt(IdCode, a, q) == None
  {
    AmountTextChars(a);
    NoIdWithoutCapital(a);
  }

  /** Without a capital, no ID starts anywhere. */
  lemma NoIdWithoutCapital(s: string)
    requires forall k :: 0 <= k < |s| ==> !IsUpper(s[k])
    ensures forall q: nat :: q < |s| ==> MatchAt(IdCode, s, q) == None
  {
    forall q: nat | q < |s| ensures MatchAt(IdCode, s, q) == None {
      IdAtSpec(s, q);
    }
  }

  /** The only digit run of an amount that the account pattern could take is the leading
      one: every later run follows a `,` or `.` and has at most three digits. */
  lemma NoAccountInAmount(a: string)
    requires AmountText(a)
    requires !(12 <= DigitRun(a, NumberStart(a)) <= 16)
    ensures forall q: nat :: q < |a| ==> MatchAt(AccountNumber, a, q) == None
  {
    forall q: nat | q < |a| ensures MatchAt(AccountNumber, a, q) == None {
      AccountAtSpec(a, q);
      forall n: nat | IsAccountNumber(a, q, n) ensures false {
        NotAccountInAmount(a, q, n);
      }
    }
  }

  lemma NotAccountInAmount(a: string, q: nat, n: nat)
    requires AmountText(a)
    requires !(12 <= DigitRun(a, NumberStart(a)) <= 16)
    ensures !IsAccountNumber(a, q, n)
  {
    var f := NumberStart(a);
    if IsAccountNumber(a, q, n) {
      if q <= f {
        DigitRunUnique(a, q, n);
      } else {
        LaterRunShort(a, q);
        DigitRunCovers(a, q, n);
      }
    }
  }

  /** Past the start of an amount's number, a digit run after a non-word character has at
      most three digits. */
  lemma LaterRunShort(a: string, q: nat)
    requires AmountText(a) && NumberStart(a) < q <= |a| && !IsWordChar(a[q - 1])
    ensures DigitRun(a, q) <= 3
  {
    var f := NumberStart(a);
    var t := a[f..];
    assert t[q - f - 1] == a[q - 1];
    NumberRunsShort(t, q - f);
    DigitRunShift(a, f, q);
  }

  /** An amount whose leading run is 12 to 16 digits is not masked as an amount: the
      account rule runs first and takes the run, and what is left around the account
      placeholder (the `$`, any whitespace, the groups and fraction) no later rule matches. */
  lemma MaskAmountAsAccount(a: string)
    requires AmountText(a)
    requires 12 <= DigitRun(a, NumberStart(a)) <= 16
    ensures Mask(a) == a[..NumberStart(a)] + AccountPlaceholder + a[NumberStart(a) + DigitRun(a, NumberStart(a))..]
  {
    var f := NumberStart(a);
    var pre, post := a[..f], a[f + DigitRun(a, f)..];
    AccountPassOnAmount(a);
    PlaceholdersInert();
    PassAroundInert(IdCode, IdPlaceholder, pre, AccountPlaceholder, post);
    PassAroundInert(CurrencyAmount, AmountPlaceholder, pre, AccountPlaceholder, post);
    AmountEdgesKept(a);
    MaskIsThreePasses(a);
  }

  /** The account pass on such an amount replaces its leading run by the placeholder. */
  lemma AccountPassOnAmount(a: string)
    requires AmountText(a)
    requires 12 <= DigitRun(a, NumberStart(a)) <= 16
    ensures Pass(AccountNumber, AccountPlaceholder, a)
         == a[..NumberStart(a)] + AccountPlaceholder + a[NumberStart(a) + DigitRun(a, NumberStart(a))..]
  {
    AccountsInAmount(a);
    SubOneMatch(PatternMatcher(AccountNumber), AccountPlaceholder, a, NumberStart(a), DigitRun(a, NumberStart(a)));
  }

  /** In an amount, the account pattern matches the leading run when that is 12 to 16
      digits long, and nowhere before or after it. */
  lemma AccountsInAmount(a: string)
    requires AmountText(a)
    requires 12 <= DigitRun(a, NumberStart(a)) <= 16
    ensures MatchAt(AccountNumber, a, NumberStart(a)) == Some(DigitRun(a, NumberStart(a)))
    ensures NoMatchBetween(PatternMatcher(AccountNumber), a, 0, NumberStart(a))
    ensures NoMatchBetween(PatternMatcher(AccountNumber), a, NumberStart(a) + DigitRun(a, NumberStart(a)), |a|)
  {
    var f := NumberStart(a);
    var n := DigitRun(a, f);
    AmountTextChars(a);
    assert f + n < |a| ==> !IsWordChar(a[f + n]);
    AccountAtSpec(a, f);
    assert IsAccountNumber(a, f, n);
    forall q: nat | q < f ensures MatchAt(AccountNumber, a, q) == None {
      AccountAtSpec(a, q);
      assert !IsDigit(a[q]);
    }
    forall q: nat | f + n <= q < |a| ensures MatchAt(AccountNumber, a, q) == None {
      NoAccountAfterRun(a, q);
    }
  }

  lemma NoAccountAfterRun(a: string, q: nat)
    requires AmountText(a)
    requires NumberStart(a) + DigitRun(a, NumberStart(a)) <= q < |a|
    ensures MatchAt(AccountNumber, a, q) == None
  {
    var f := NumberStart(a);
    AccountAtSpec(a, q);
    forall k: nat | IsAccountNumber(a, q, k) ensures false {
      if q > f + DigitRun(a, f) {
        LaterRunShort(a, q);
        DigitRunCovers(a, q, k);
      }
    }
  }

  /** The `$` with its whitespace, and the groups and fraction after the leading run, hold
      no capital and start no amount. */
  lemma AmountEdgesKept(a: string)
    requires AmountText(a)
    requires 12 <= DigitRun(a, NumberStart(a)) <= 16
    ensures Pass(IdCode, IdPlaceholder, a[..NumberStart(a)]) == a[..NumberStart(a)]
    ensures Pass(CurrencyAmount, AmountPlaceholder, a[..NumberStart(a)]) == a[..NumberStart(a)]
    ensures Pass(IdCode, IdPlaceholder, a[NumberStart(a) + DigitRun(a, NumberStart(a))..])
         == a[NumberStart(a) + DigitRun(a, NumberStart(a))..]
    ensures Pass(CurrencyAmount, AmountPlaceholder, a[NumberStart(a) + DigitRun(a, NumberStart(a))..])
         == a[NumberStart(a) + DigitRun(a, NumberStart(a))..]
  {
    var f := NumberStart(a);
    var e := f + DigitRun(a, f);
    var pre, post := a[..f], a[e..];
    AmountTextChars(a);
    assert forall k :: 0 <= k < |pre| ==> pre[k] == a[k];
    assert forall k :: 0 <= k < |post| ==> post[k] == a[e + k];
    NoIdWithoutCapital(pre);
    NoIdWithoutCapital(post);
    PassNoMatch(IdCode, IdPlaceholder, pre);
    PassNoMatch(IdCode, IdPlaceholder, post);
    assert forall q: nat :: q < |pre| ==> MatchAt(CurrencyAmount, pre, q) == None;
    assert forall q: nat :: q < |post| ==> MatchAt(CurrencyAmount, post, q) == None;
    PassNoMatch(CurrencyAmount, AmountPlaceholder, pre);
    PassNoMatch(CurrencyAmount, AmountPlaceholder, post);
  }

  /** The account pass replaces a lone account number by its placeholder. */
  lemma MaskAccountPass(d: string)
    requires 12 <= |d| <= 16 && DigitsBetween(d, 0, |d|)
    ensures Pass(AccountNumber, AccountPlaceholder, d) == AccountPlaceholder
  {
    AccountAtSpec(d, 0);
    assert IsAccountNumber(d, 0, |d|);
    PassWholeMatch(AccountNumber, AccountPlaceholder, d);
  }

  // ---------------------------------------------------------------------------
  // Sensitive items inside running text
  // ---------------------------------------------------------------------------

  /** A piece of text between two separators is masked on its own, and so is the text on
      either side. */
  lemma MaskBetweenSeparators(x: string, c1: char, w: string, c2: char, y: string)
    requires Separates(x, c1) && Separates(w, c2)
    ensures Mask(x + [c1] + w + [c2] + y) == Mask(x) + [c1] + Mask(w) + [c2] + Mask(y)
  {
    MaskAroundSeparator(x, c1, w + [c2] + y);
    MaskAroundSeparator(w, c2, y);
    assert x + [c1] + w + [c2] + y == x + [c1] + (w + [c2] + y);
  }

  /** An account number between two separators is replaced by its placeholder, and the
      text on either side is masked on its own. */
  lemma MaskAccountInText(x: string, c1: char, d: string, c2: char, y: string)
    requires Separates(x, c1) && Separates(d, c2)
    requires 12 <= |d| <= 16 && DigitsBetween(d, 0, |d|)
    ensures Mask(x + [c1] + d + [c2] + y) == Mask(x) + [c1] + AccountPlaceholder + [c2] + Mask(y)
  {
    MaskBetweenSeparators(x, c1, d, c2, y);
    MaskAccount(d);
  }

  /** An ID between two separators is replaced by its placeholder, and the text on either
      side is masked on its own. */
  lemma MaskIdInText(x: string, c1: char, u: string, d: string, c2: char, y: string)
    requires Separates(x, c1) && Separates(u + d, c2)
    requires 1 <= |u| <= 2 && UppersBetween(u, 0, |u|)
    requires 6 <= |d| <= 8 && DigitsBetween(d, 0, |d|)
    ensures Mask(x + [c1] + u + d + [c2] + y) == Mask(x) + [c1] + IdPlaceholder + [c2] + Mask(y)
  {
    MaskBetweenSeparators(x, c1, u + d, c2, y);
    MaskId(u, d);
    assert x + [c1] + u + d == x + [c1] + (u + d);
  }

  /** An amount between two separators is replaced by its placeholder, and the text on
      either side is masked on its own. */
  lemma MaskAmountInText(x: string, c1: char, a: string, c2: char, y: string)
    requires Separates(x, c1) && Separates(a, c2)
    requires AmountText(a)
    requires !(12 <= DigitRun(a, NumberStart(a)) <= 16)
    ensures Mask(x + [c1] + a + [c2] + y) == Mask(x) + [c1] + AmountPlaceholder + [c2] + Mask(y)
  {
    MaskBetweenSeparators(x, c1, a, c2, y);
    MaskAmount(a);
  }

  // ---------------------------------------------------------------------------
  // Masking twice
  // ---------------------------------------------------------------------------

  /** Masking is not idempotent. In `$1,` followed by a run of 17 to 19 digits, the run is
      too long for an account number, and the amount takes only its first three digits
      as a thousands group. The 14 to 16 digits left over stand alone after the amount
      placeholder, so masking again takes them as an account number. */
  lemma MaskNotIdempotent(d: string)
    requires 17 <= |d| <= 19 && DigitsBetween(d, 0, |d|)
    ensures Mask("$1," + d) == AmountPlaceholder + d[3..]
    ensures Mask(Mask("$1," + d)) == AmountPlaceholder + AccountPlaceholder
    ensures Mask(Mask("$1," + d)) != Mask("$1," + d)
  {
    var s := "$1," + d;
    LongRunNotMasked(d);
    PassNoMatch(AccountNumber, AccountPlaceholder, s);
    forall q: nat | q < |s| ensures MatchAt(IdCode, s, q) == None {
      IdAtSpec(s, q);
      assert !IsUpper(s[q]) by {
        if q >= 3 {
          assert s[q] == d[q - 3];
        }
      }
    }
    PassNoMatch(IdCode, IdPlaceholder, s);
    AmountTakesFirstGroup(d);
    MaskIsThreePasses(s);
    var t := AmountPlaceholder + d[3..];
    assert t == [] + AmountPlaceholder + d[3..];
    MaskAroundPlaceholder([], AmountPlaceholder, d[3..]);
    ApplyRulesEmpty(DetectionRules);
    MaskAccount(d[3..]);
    assert t[|AmountPlaceholder|] != (AmountPlaceholder + AccountPlaceholder)[|AmountPlaceholder|];
  }

  /** A run of more than sixteen digits after `$1,` holds no account number. */
  lemma LongRunNotMasked(d: string)
    requires 17 <= |d| && DigitsBetween(d, 0, |d|)
    ensures forall q: nat :: q < |"$1," + d| ==> MatchAt(AccountNumber, "$1," + d, q) == None
  {
    var s := "$1," + d;
    assert forall k :: 3 <= k < |s| ==> s[k] == d[k - 3];
    forall q: nat | q < |s| ensures MatchAt(AccountNumber, s, q) == None {
      AccountAtSpec(s, q);
      if q >= 4 {
        assert IsWordAt(s, q - 1);
      } else if q == 3 {
        assert forall k :: 3 <= k < |s| ==> IsWordAt(s, k);
      } else {
        assert !IsDigit(s[2]);
      }
    }
  }

  /** The amount pass on `$1,` and a long digit run takes `$1,` and three digits. */
  lemma AmountTakesFirstGroup(d: string)
    requires 4 <= |d| && DigitsBetween(d, 0, |d|)
    ensures Pass(CurrencyAmount, AmountPlaceholder, "$1," + d) == AmountPlaceholder + d[3..]
  {
    var s := "$1," + d;
    var m := PatternMatcher(CurrencyAmount);
    assert forall k :: 3 <= k < |s| ==> s[k] == d[k - 3];
    assert s[0] == '$' && s[1] == '1' && s[2] == ',';
    assert DigitRun(s, 2) == 0 && DigitRun(s, 1) == 1;
    assert GroupAt(s, 2) && !GroupAt(s, 6) && !FractionAt(s, 6);
    assert GroupsEnd(s, 2) == 6 && FractionEnd(s, 6) == 6;
    assert NumberEnd(s, 1) == 6;
    assert AmountAt(s, 0) == Some(6);
    forall q: nat | 6 <= q < |s| ensures m(s, q) == None {
      assert s[q] != '$';
    }
    SubFromCopies(m, AmountPlaceholder, s, 6, |s|);
    assert s[6..] == d[3..];
  }

  // ---------------------------------------------------------------------------
  // The patterns as literally spelled
  // ---------------------------------------------------------------------------

  /** Read literally, every pattern of the table needs a backslash where its match starts,
      so text without a backslash comes back unchanged. */
  lemma MaskAsWrittenKeepsPlainText(s: string)
    requires forall k :: 0 <= k < |s| ==> s[k] != '\\'
    ensures MaskAsWritten(s) == s
  {
    forall p: Pattern, q: nat | !Intended(p) && q < |s| ensures MatchAt(p, s, q) == None {
      if p.LiteralAmount? {
        LiteralPatterns.LiteralAmountHeadNeverHolds(s, q);
      }
    }
    var r := LiteralRules;
    PassNoMatch(LiteralAccount, AccountPlaceholder, s);
    PassNoMatch(LiteralId, IdPlaceholder, s);
    PassNoMatch(LiteralAmount, AmountPlaceholder, s);
    assert r[1..] == [r[1], r[2]] && r[1..][1..] == [r[2]] && r[1..][1..][1..] == [];
    assert ApplyRules(r, s) == ApplyRules(r[1..], s);
    assert ApplyRules(r[1..], s) == ApplyRules(r[1..][1..], s);
    assert ApplyRules(r[1..][1..], s) == ApplyRules(r[1..][1..][1..], s);
  }

  /** The discrepancy: an account number standing alone is masked under the evident
      reading of the patterns, and returned unchanged under the literal one. */
  lemma AsWrittenMissesAccount(d: string)
    requires 12 <= |d| <= 16 && DigitsBetween(d, 0, |d|)
    ensures MaskAsWritten(d) == d
    ensures Mask(d) == AccountPlaceholder != d
  {
    MaskAsWrittenKeepsPlainText(d);
    MaskAccount(d);
    assert d[0] != AccountPlaceholder[0];
  }
}
