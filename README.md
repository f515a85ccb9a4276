# computeDiff: a verified model of the token-level text diff

`computeDiff(oldText, newText)` (client/src/diff.js) compares two versions of
a document and returns a list of `{ type, text }` segments, each `"equal"`,
`"added"` or `"removed"`. It runs in four steps:

1. Both texts are cut into tokens with `s.split(/(\s+)/)`, and empty pieces
   are dropped.
2. An (n+1)×(m+1) longest-common-subsequence table is filled from the
   bottom-right corner.
3. The table is walked from (0, 0). Matching heads become `equal`. On a
   mismatch the walk emits `added` when taking the new token first loses
   nothing, so ties go to `added`, and `removed` otherwise.
4. Neighbouring segments of the same type are merged.

The model follows the source's own form. `tokenize` is a pure function. The
fill is a method over a Dafny `array2<nat>` with nested decreasing loops. The
walk is a `while` loop over mutable indices that appends to a sequence. The
merge is a `for` loop that either appends a segment or extends the text of
the last merged one.

Modules:
- `Tokens` (tokens.dfy): JavaScript's `\s`, the split, the filter and
  `Tokenize`. Tokenising is proved to give the one split of a text into
  alternating maximal runs of whitespace and non-whitespace.
- `Lcs` (lcs.dfy): the table's recurrence as a function on suffixes. It is
  proved to be the length of a longest common subsequence: a witness attains
  it and no common subsequence exceeds it.
- `Segments` (segments.dfy): segments, what they spell on the old side
  (`equal` + `removed`) and on the new side (`equal` + `added`), and the
  merge pass as a left fold (`Coalesce`) with its properties.
- `Walk` (walk.dfy): the tie-break rule as a function `Choice` of the
  position (i, j), the walk's invariant and one lemma per branch showing
  that the branch keeps it, and a proof that the rule together with the
  round-trips determines the walk's output.
- `Diff` (diff.dfy): the imperative `FillTable`, `FillRow`, `Reconstruct`,
  `WalkStep`, `Merge` and `ComputeDiff`.

What is proved about `computeDiff` as a whole:
- The old-side segments spell `oldText` and the new-side segments spell
  `newText`.
- No two neighbouring segments have the same type, and every segment has
  text.
- Every segment of the walk has the kind `Choice` picks at the position
  reached so far. On a mismatch that is `added` exactly when
  `dp[i][j+1] >= dp[i+1][j]`, so ties go to `added`. Only one list of
  segments spells both token lists and follows this rule
  (`Walk.ChosenUnique`), and the merged output is the merge of that list.
- A `removed` segment is never directly followed by an `added` one.
- The `equal` tokens form a common subsequence of the two token lists, and
  it is a longest one.
- `computeDiff(s, s)` is `[]` for the empty text and a single `equal`
  segment holding `s` otherwise.
- The fallback branch of the walk (client/src/diff.js:34-44) is unreachable.

## Model

| member | source | states |
|---|---|---|
| Tokens.IsSpace | client/src/diff.js:4 | the characters JavaScript's `\s` matches: the ECMAScript WhiteSpace and LineTerminator code points (a predicate, no contract of its own) |
| Tokens.Split | client/src/diff.js:4 | `s.split(/(\s+)/)`: the leading field, the captured whitespace run, then the split of the rest (no contract of its own; SplitStep unfolds it and SplitShape states what it yields) |
| Tokens.RunLen | client/src/diff.js:4 | the greedy run at the start of a text: every character before the returned length is of the requested class (whitespace or not), and the next one, if any, is not |
| Tokens.NonEmpty | client/src/diff.js:4 | the filter of empty pieces returns a subsequence of the pieces themselves, kept whole and in their order, none of them empty, spelling the same text as the original pieces; together these leave exactly the non-empty pieces |
| Tokens.SplitStep | client/src/diff.js:4 | `split(/(\s+)/)` gives the leading field (possibly empty), the non-empty whitespace run after it, and the split of the remainder |
| Tokens.SplitShape | client/src/diff.js:4 | the pieces of `split` concatenate to the text, and they alternate: fields without whitespace at even positions, non-empty whitespace runs at odd ones |
| Tokens.ShapeCons | client/src/diff.js:4 | a field and a run put in front of alternating pieces spelling `t` give alternating pieces spelling `field + run + t` |
| Tokens.Tokenize | client/src/diff.js:4 | the tokens concatenate to the text and none is empty; TokenizeIsRunSplit and TokenizeIsTheRunSplit characterise the result completely as the maximal runs of the text |
| Tokens.SplitStepClasses | client/src/diff.js:4 | the leading field has no whitespace, the run is all whitespace, and the character after the run is not whitespace |
| Tokens.TokenizeStep | client/src/diff.js:4 | `tokenize` yields the leading field only when it is non-empty, then the run, then the tokens of the remainder |
| Tokens.RunSplitPrepend | client/src/diff.js:4 | a field and a run put in front of a maximal-run split of the rest give a maximal-run split of the whole text |
| Tokens.TokenizeIsRunSplit | client/src/diff.js:4 | tokenising loses nothing: the tokens concatenate to the text, each is a non-empty run of one class, and neighbouring tokens are of different classes |
| Tokens.RunSplitUnique | client/src/diff.js:4 | a text has only one split into maximal runs |
| Tokens.TokenizeIsTheRunSplit | client/src/diff.js:4 | any split into maximal runs is exactly `tokenize`'s result |
| Lcs.LcsLen | client/src/diff.js:14-15 | the table recurrence on suffixes is bounded by the length of each list |
| Lcs.LcsWitness | client/src/diff.js:11-17 | some common subsequence of both lists has length `LcsLen` |
| Lcs.LcsUpperBound | client/src/diff.js:11-17 | no common subsequence of both lists is longer than `LcsLen` |
| Lcs.LcsMonotone | client/src/diff.js:14-15 | dropping the first token of either list never increases the LCS length |
| Lcs.LcsSuffixStep | client/src/diff.js:14-15 | the entry for `(i, j)` is `1 + dp[i+1][j+1]` when `a[i] === b[j]`, and `max(dp[i+1][j], dp[i][j+1])` otherwise |
| Lcs.LcsSelf | client/src/diff.js:11-17 | the LCS of a list with itself is the whole list |
| Segments.AllKept | client/src/diff.js:25-43 | a kind filter keeps as many texts as there are segments exactly when every segment has a kind in the filter |
| Segments.TextsSubseq | client/src/diff.js:25-43 | the `equal` texts are a subsequence of the old-side texts and of the new-side texts |
| Segments.Coalesce | client/src/diff.js:48-54 | the merged list has no neighbours of the same type, is no longer than its input, is empty only for empty input, and ends with the input's last type |
| Segments.Absorb | client/src/diff.js:50-52 | one turn of the merge loop: the list grows by at most one segment, ends with the new segment's type and with its text, and every segment of `merged` except its last is unchanged |
| Segments.CoalesceStep | client/src/diff.js:49-53 | merging one more segment absorbs it into the merge of the ones before it, as each turn of the loop does |
| Segments.AbsorbRender | client/src/diff.js:50-52 | adding one segment, by `+=` on the last one or by `push`, adds its text to what every selection of types spells |
| Segments.CoalesceRender | client/src/diff.js:48-54 | merging leaves unchanged what every selection of types spells, in particular the old side and the new side |
| Segments.CoalesceAllText | client/src/diff.js:48-54 | merging keeps every segment's text non-empty |
| Segments.CoalesceAddedFirst | client/src/diff.js:48-54 | merging creates no `removed` segment directly before an `added` one |
| Segments.CoalesceNoRepeat | client/src/diff.js:48-54 | a list without same-type neighbours is left as it is |
| Segments.CoalesceIdempotent | client/src/diff.js:48-54 | merging twice gives the same list as merging once |
| Segments.CoalesceUniform | client/src/diff.js:48-54 | segments of a single type merge into one segment holding all their text |
| Segments.CoalesceAllEqual | client/src/diff.js:48-54 | all-`equal` segments merge into nothing (no input) or one `equal` segment holding the whole old text |
| Segments.CoalesceKeeps | client/src/diff.js:48-54 | merging keeps what every selection of types spells, non-empty texts, and the added-before-removed order |
| Walk.Choice | client/src/diff.js:24-33 | the step the walk takes at (i, j): `equal` on matching heads; `added` when only new tokens are left or when `dp[i][j+1] >= dp[i+1][j]`; `removed` otherwise (a function, no contract of its own) |
| Walk.TieGoesToAdded | client/src/diff.js:28 | comparing "p q" with "q p", both first steps keep an LCS of length 1, and the walk takes `added` |
| Walk.ChosenAt | client/src/diff.js:24-33 | in a walk built by the rule, the segment at every index has the kind `Choice` picks at the position its predecessors reach |
| Walk.ChosenPush | client/src/diff.js:25-32 | pushing the segment `Choice` picks keeps every step of the walk chosen by the rule |
| Walk.SegmentAt | client/src/diff.js:24-33 | in a walk built by the rule that spells both token lists, each segment is exactly the one `StepAt` gives: `Choice`'s kind with the token `a[i]` or `b[j]`, and that position lies inside the lists |
| Walk.CompleteIsDetermined | client/src/diff.js:20-45 | such a walk is determined segment by segment by what precedes it |
| Walk.SamePrefix | client/src/diff.js:20-45 | two walks determined this way agree on every common prefix |
| Walk.NothingAfterEnd | client/src/diff.js:23 | such a walk stops once both token lists are spelled, as the loop condition does |
| Walk.ChosenUnique | client/src/diff.js:20-45 | at most one list of segments spells both token lists with every step chosen by the tie-break rule, so the contract fixes the walk's output |
| Walk.RemovedIsNotFollowedByAdded | client/src/diff.js:28-33 | after a `removed` step, the next step cannot be `added`: either the heads match or `removed` is again strictly better |
| Walk.SpelledPush | client/src/diff.js:25-32 | pushing a segment extends the spelled old prefix (unless it is `added`) and new prefix (unless it is `removed`) by its token |
| Walk.EqualStep | client/src/diff.js:24-27 | the `equal` branch keeps the walk invariant at `(i+1, j+1)` |
| Walk.AddedStep | client/src/diff.js:28-30 | the `added` branch, taken on ties, keeps the walk invariant at `(i, j+1)` |
| Walk.RemovedStep | client/src/diff.js:31-33 | the `removed` branch keeps the walk invariant at `(i+1, j)` |
| Walk.WalkStart | client/src/diff.js:20-22 | the invariant holds at `(0, 0)` with no segments |
| Walk.WalkDone | client/src/diff.js:23 | at `(n, m)` the segments spell both token lists, every step followed the tie-break rule, and the `equal` tokens number `LcsLen(a, b)` |
| Diff.FillTable | client/src/diff.js:11-17 | every entry `dp[i][j]` is the LCS length of `a[i..]` and `b[j..]`, at most `n-i` and `m-j`; row `n` and column `m` are 0 |
| Diff.FillRow | client/src/diff.js:13-16 | the inner loop fills row `i` correctly from row `i+1` and leaves every other row unchanged |
| Diff.Reconstruct | client/src/diff.js:20-45 | the walk terminates; the old-side texts are `a` and the new-side texts are `b`; every segment has the kind the tie-break rule picks at its position; the `equal` tokens number `LcsLen(a, b)`; no `removed` directly precedes `added`; segments carry text when tokens do |
| Diff.WalkStep | client/src/diff.js:24-44 | one turn of the loop emits exactly the segment `StepAt` gives at (i, j), moves past the tokens it consumed, and keeps the walk invariant; the fallback branch is never reached |
| Diff.Merge | client/src/diff.js:48-54 | the loop computes `Coalesce` of its input, so no neighbours repeat a type, every selection of types spells the same text, and non-empty texts and the added-before-removed order are kept |
| Diff.ComputeDiff | client/src/diff.js:2-55 | the result spells `oldText` on the old side and `newText` on the new side; it is the merge of a walk that spells both token lists and follows the tie-break rule at every step, which fixes it uniquely; no same-type neighbours; every segment has text; no `removed` directly before `added`; the `equal` tokens are a longest common subsequence of the two token lists; equal inputs give `[]` or one `equal` segment holding the text |

## Left out

- Everything outside client/src/diff.js is not part of this model. That covers the history server, persistence, the WebSocket server, the cleanup and test scripts, the React UI, and the Yjs document layer. They are database, network, timer and UI code.
- Strings: JavaScript strings are sequences of UTF-16 code units, and `\s` is tested per code unit. The model's domain is strings of Unicode scalar values (Dafny `char`s), and `IsSpace` lists the code points `\s` matches, each of them a single UTF-16 unit. A JavaScript string holding an unpaired surrogate has no counterpart in the model.
- Diff.WalkStep: the fallback branch (client/src/diff.js:34-44) has no model. It is proved unreachable: lines 28 and 31 together cover every state with `i < n || j < m`.
- Diff.Merge: `merged[merged.length - 1].text += seg.text` mutates an object that `merged` owns, because `{ ...seg }` copied it at push time. Segments are modelled as values, with a sequence update of the last element, so the aliasing is not modelled. Since the copy leaves `result`'s segments unshared, no caller sees any difference.
- Diff.ComputeDiff: the `walk` and `common` out-parameters are ghost. `walk` is the segment list before the merge, which the source keeps in a local `result`. `common` is the token sequence of its `equal` segments. They let the contract state the tie-break rule and optimality; the source returns neither.
