# Dashboard Insight Assistant: masking and insight core

This project models the two transformation functions of the Dashboard Insight Assistant
(`app.py`). The rest of that file is a Streamlit page around them.

- `mask_sensitive_text` (app.py:28-38) applies a table of three detection rules in the
  table's iteration order. Each rule is one `re.sub` call on the output of the rule before it:
  - account numbers `\b\d{12,16}\b` become `[MASKED_ACCOUNT]`;
  - ID codes `\b[A-Z]{1,2}\d{6,8}\b` become `[MASKED_ID]`;
  - currency amounts `\$\s?\d+(?:,\d{3})*(?:\.\d{2})?` become `[MASKED_AMOUNT]`.
- `generate_insights` (app.py:46-54) returns a fixed dictionary of four narrative sections.
  The page reads them by key (app.py:76-85).

Modules:

- `CharClasses` defines `\d`, `[A-Z]`, `\w`, `\s` and `\b`, with their ASCII meaning.
- `Patterns` holds one hand-written recogniser per pattern.
  - Each recogniser follows the engine's greedy, backtracking order.
  - Each is proved equal to a declarative description of what it matches. For the amount
    pattern, the description is a grammar, and the recogniser's match is proved to be the
    longest prefix in that grammar.
  - It also proves locality facts: which neighbouring characters can change a match.
- `LiteralPatterns` models the patterns as app.py spells them (see Findings): the account and ID
  patterns exactly, and the head of the amount pattern, which makes it unmatchable.
- `Substitution` models `re.sub`.
  - It is a left-to-right scan over any matcher whose matches are non-empty.
  - It is proved to replace exactly the leftmost, non-overlapping matches. These are
    described without the scan (`IsLeftmostScan`, `Splice`).
- `Passes` instantiates that scan with one pattern and proves how text pieces behave
  under it: placeholders, separators, text without digits.
- `Masking` holds the rule table, `Mask`, the loop of app.py:35-38 as a method, and the
  end-to-end properties.
- `Insights` models the summary. The dictionary is kept as a sequence of entries in
  insertion order, which is the order a Python dictionary keeps.

Masking is not idempotent, although one might expect it to be.
`Masking.MaskNotIdempotent` gives a family of inputs on which masking twice differs from
masking once.

## Model

| member | source | states |
|---|---|---|
| Substitution.MatchSpansAreLeftmost | app.py:37 | The spans the `re.sub` scan replaces are leftmost and non-overlapping. Each is a match where it starts. No match starts in a gap between them or after the last one. |
| Substitution.LeftmostScanUnique | app.py:37 | Any sequence of spans that meets the leftmost, non-overlapping description is the one the scan finds. |
| Substitution.SubIsSplice | app.py:37 | One substitution keeps every character outside the leftmost matches, in order, and puts one copy of the replacement in place of each match. |
| Substitution.SubNoMatch | app.py:37 | Where the pattern matches nowhere, the substitution returns its input unchanged. |
| Substitution.SubFromLast | app.py:37 | A substituted non-empty text ends with the input's last character or the replacement's last character. |
| Patterns.CountedDigitsSpec | app.py:31-32 | `\d{lo,hi}\b` with backtracking matches `k` digits exactly when `k` is in range, those are the whole digit run, and no word character follows. |
| Patterns.AccountAtSpec | app.py:31 | The account pattern matches `n` characters at `i` if and only if they are 12 to 16 digits with no word character on either side. |
| Patterns.IdAtSpec | app.py:32 | The ID pattern matches `n` characters at `i` if and only if they are one or two capitals followed by 6 to 8 digits, with no word character on either side. |
| Patterns.AmountAtLongest | app.py:33 | The amount pattern's match at `i` is in the amount grammar, and no longer prefix is. It fails only when no prefix is an amount. |
| Patterns.MatchChars | app.py:31-33 | Every match consists of digits, capitals, `$`, whitespace, `,` and `.`. It contains a digit and starts with a digit, a capital or `$`. |
| Patterns.MatchAtLeft | app.py:31-33 | Text after a sealing character does not change any match that starts before it. |
| Patterns.MatchAtRight | app.py:31-33 | Text before a non-word character does not change any match that starts after it. |
| LiteralPatterns.LiteralAccountAt | app.py:31 | The account pattern as literally spelled matches only where the text has a backslash. |
| LiteralPatterns.LiteralIdAt | app.py:32 | The ID pattern as literally spelled matches only where the text has a backslash. |
| Passes.PassAroundInert | app.py:36-37 | A piece that holds no digit and is bounded by stopping characters passes through one rule unchanged. The text on each side is substituted on its own. |
| Passes.PassAroundSeparator | app.py:36-37 | A separating character passes through one rule unchanged. The text on each side is substituted on its own. |
| Passes.PassKeepsSeparator | app.py:36-37 | After one rule, a separator still separates, because every placeholder ends in `]`. |
| Masking.MaskSensitiveText | app.py:35-38 | The loop over the rule table returns `Mask(text)`, the rules applied in table order. |
| Masking.MaskIsThreePasses | app.py:30-37 | Masking is the account pass, then the ID pass on its output, then the amount pass on that. |
| Masking.ApplyRulesEmpty | app.py:35-38 | Masking the empty text gives the empty text. |
| Masking.PlaceholdersInert | app.py:31-33 | No rule of the table can match into any of the three placeholders. |
| Masking.MaskAroundPlaceholder | app.py:35-38 | A placeholder already in the text survives masking. The text on each side of it is masked as if on its own. |
| Masking.MaskAroundSeparator | app.py:35-38 | Masking splits at a separating character, such as a space that does not follow `$`. |
| Masking.MaskKeepsDigitFree | app.py:35-38 | Text without a digit is returned unchanged. |
| Masking.MaskKeepsPlainText | app.py:31-38 | Text with no `$` and no run of six or more digits, such as `Room 42`, is returned unchanged. |
| Masking.MaskAccount | app.py:31 | Twelve to sixteen digits on their own are masked to `[MASKED_ACCOUNT]`. |
| Masking.MaskId | app.py:32 | One or two capitals and six to eight digits, on their own, are masked to `[MASKED_ID]`. |
| Masking.MaskAmount | app.py:30-37 | An amount on its own is masked to `[MASKED_AMOUNT]` unless its leading digit run is 12 to 16 digits long. Leading runs of 17 or more digits are included. |
| Masking.NoAccountInAmount | app.py:31-33 | In an amount, the account pattern can only take the leading digit run. Every later run follows a `,` or `.` and has at most three digits. |
| Masking.MaskAmountAsAccount | app.py:30-37 | An amount whose leading run is 12 to 16 digits, the case `MaskAmount` leaves out, becomes its `$` and any whitespace, then `[MASKED_ACCOUNT]`, then its groups and fraction unchanged. The account rule runs first and takes the run. For example, `$` + 12 digits + `.50` becomes `$[MASKED_ACCOUNT].50`. |
| Substitution.SubOneMatch | app.py:37 | Where the pattern matches exactly once, the substitution keeps the text before and after the match and puts the replacement in between. |
| Patterns.NumberRunsShort | app.py:33 | In the number part of an amount, every digit run that follows a non-word character has at most three digits. |
| Masking.MaskAccountInText | app.py:31-38 | An account number between separators becomes its placeholder. The surrounding text is masked independently. |
| Masking.MaskIdInText | app.py:32-38 | An ID between separators becomes its placeholder. The surrounding text is masked independently. |
| Masking.MaskAmountInText | app.py:33-38 | An amount between separators becomes its placeholder, unless its leading run is 12 to 16 digits long. The surrounding text is masked independently. |
| Masking.MaskNotIdempotent | app.py:30-37 | For `$1,` followed by 17 to 19 digits, masking once leaves an account-length run after the amount placeholder. Masking again changes the result. |
| Masking.AmountTakesFirstGroup | app.py:33 | On `$1,` followed by a long digit run, the amount pass takes only `$1,` and the next three digits. |
| Masking.LongRunNotMasked | app.py:31 | A run of more than sixteen digits after `$1,` contains no account number: `\b` fails inside the run. |
| Masking.MaskAsWrittenKeepsPlainText | app.py:31-33 | With the patterns as literally spelled, text without a backslash comes back unchanged. |
| Masking.AsWrittenMissesAccount | app.py:31-33 | A lone 12-to-16-digit account number is returned unchanged by the literal patterns, but masked under the intended ones. |
| Insights.Lookup | app.py:76-85 | `insights[key]` yields a narrative exactly when some entry has that label. Otherwise it is the `KeyError` case. |
| Insights.LookupFinds | app.py:76-85 | With distinct labels, looking up an entry's label yields that entry's narrative. |
| Insights.InsightsShape | app.py:46-54 | Whatever the text, the result has exactly the labels Overview, Key Changes, Possible Drivers and Monitoring Recommendations, in that order. The labels are distinct and every narrative is non-empty. |
| Insights.InsightsIgnoreText | app.py:46-54 | The summary is the same whatever text it is given. |
| Insights.DisplayedLookupsSucceed | app.py:76-85 | Every key the page reads is present and yields a non-empty narrative. |

## Left out

- `extract_text_from_image` (app.py:41-43): OCR through `pytesseract`. This is a call into code outside the repository; its text is the input of `Mask`.
- The Streamlit page (app.py:17-22, 60-95): uploading, image display, buttons and layout. This is I/O. Only the page's dictionary reads (app.py:76-85) are modelled, through `Insights.Lookup`.
- Python's general regular-expression engine is not modelled. Only the three patterns of the table have recognisers, each written to follow the engine's greedy, backtracking order.
- `\d`, `\w` and `\s` are modelled with their ASCII meaning. Python's Unicode meaning, for example non-ASCII digits, is not modelled.
- Idempotence (`Mask(Mask(s)) == Mask(s)`) is not stated, because it is false for the code: see `Masking.MaskNotIdempotent`.
- Patterns.MatchAt for `LiteralAmount` returns no match directly. Under its literal spelling this pattern never matches (`LiteralPatterns.LiteralAmountHeadNeverHolds`), so the rest of it is not spelled out.

## Findings

| source | as written | input that shows it | evidently intended | confidence | as-written member | corrected member |
|---|---|---|---|---|---|---|
| app.py:31-33 | The patterns are raw strings with doubled backslashes. The engine reads each `\\` as a literal backslash, so `\\b\\d{12,16}\\b` needs a backslash, a `b` and a run of `d` letters. The amount pattern can never match at all. | `123456789012` is returned unchanged. | `123456789012` becomes `[MASKED_ACCOUNT]`. In general, `\b`, `\d`, `\s` and `\$` are meant as regex escapes. | high (not executed) | Masking.AsWrittenMissesAccount | Masking.MaskAccount |
