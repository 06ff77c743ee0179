# LaTeX-to-Unicode replacer, modelled in Dafny

The LatexEditor composable `useLatexReplacer` is an autocorrect-while-typing
rule. When the text just before the cursor ends with a known LaTeX escape
sequence, the rule replaces that sequence with its Unicode character.
Given the text buffer and the cursor offset, it does three things:

- It scans the candidate sequences longest first and takes the first one
  that the text before the cursor ends with (`findSequenceBeforeCursor`).
- It splices that candidate's replacement into the text in its place.
- It reports the new text, the new cursor offset and a `{ from, to }` record
  (`tryReplace`).

It also exposes the mapping table (`getAllMappings`) and a membership test
(`isValidSequence`).

The model has four parts:

- `utf16.dfy` (module `Utf16`): JS strings as sequences of UTF-16 code units.
  `length`, `slice` and `endsWith` count code units, so a character outside
  the Basic Multilingual Plane has length 2. This file also defines
  `EndsWith` and the facts about nested suffixes.
- `latex_mappings.dfy` (module `LatexMappings`): the imported `latexMappings`
  table and `sortedSequences` order, as one `Table` value. The data file that
  defines them, src/data/latexMappings.js, is not part of this model. What
  the replacer relies on it to guarantee is stated as predicates:
  - every candidate has an entry in the table;
  - every key is a candidate;
  - no candidate appears twice;
  - no candidate is empty;
  - the order is sorted by non-increasing length.
  It also states the weaker ordering that longest-match-wins really needs:
  a candidate that is a proper suffix of another comes after it.
- `latex_replacer.dfy` (module `LatexReplacer`): the four operations, with the
  table passed explicitly in place of the closure over the import.
- `latex_replacer_properties.dfy` and `latex_replacer_examples.dfy`:
  - longest-match-wins, and agreement with a reference definition of "the
    longest matching candidate";
  - the undo round trip of the `{ from, to }` record;
  - membership;
  - worked examples.

The cursor is an `int` and the model requires `0 <= cursorPos <= |text|`.
Outside that range JS `slice` does not simply clamp. An index above the
length is clamped, but a negative index counts from the end of the string.
`startIndex` is computed from the raw cursor, so it can be negative too. The
model only covers cursors in range.

## Model

| member | source | states |
|---|---|---|
| LatexReplacer.FirstMatchFrom | src/composables/useLatexReplacer.js:18-25 | The scan from a position on returns the first candidate the text before the cursor ends with: that candidate matches and no earlier one does. It returns the end of the list when nothing matches. |
| LatexReplacer.FindSequenceBeforeCursor | src/composables/useLatexReplacer.js:13-28 | Returns null exactly when no candidate is a suffix of the text before the cursor. Otherwise it returns a candidate that is such a suffix, and no candidate before its position in the order is one. `startIndex` is non-negative, plus the sequence's length it equals `cursorPos`, and `text[startIndex..cursorPos]` spells the sequence. |
| LatexReplacer.TryReplace | src/composables/useLatexReplacer.js:36-61 | Returns null exactly when no match is found. Otherwise `from` is the match, `to` is its table entry, and `from` is a valid sequence. The new text is the old text with `to` spliced in for the span of `from`'s length that ends at the cursor: the code units before it and after the cursor are kept in place. The cursor lands right after the replacement, inside the new text. |
| LatexReplacer.IsValidSequence | src/composables/useLatexReplacer.js:76-78 | For a table whose candidates all have entries and whose keys are all candidates, a sequence is valid exactly when it is one of the candidates the scan tries. This is the corrected membership test: own keys only. |
| LatexReplacer.IsValidSequenceAsWritten | src/composables/useLatexReplacer.js:76-78 | The JS `in` test as written accepts every key of the table. Anything else it accepts is an inherited name. |
| LatexReplacer.GetAllMappings | src/composables/useLatexReplacer.js:67-69 | The snapshot has exactly the names `isValidSequence` accepts as keys, and each entry equals the table's entry. |
| Utf16.SuffixesNest | src/composables/useLatexReplacer.js:19 | If a string ends with two sequences, the longer of the two ends with the shorter. |
| Utf16.EndsWithBeforeCursor | src/composables/useLatexReplacer.js:15-22 | The text before the cursor ends with `s` exactly when the code units just before the cursor, as many as `s` has, spell `s`. |
| LatexMappings.SortedByLengthPutsLongerSuffixFirst | src/composables/useLatexReplacer.js:17 | A longest-first order always puts a candidate before its proper suffixes. |
| LatexReplacerProperties.LongestMatchWins | src/composables/useLatexReplacer.js:17-24 | If longer suffixes come first, every candidate that ends at the cursor is no longer than the match. Every such candidate is also a suffix of the match. |
| LatexReplacerProperties.FindIsLongestMatch | src/composables/useLatexReplacer.js:17-24 | If longer suffixes come first, the match satisfies the reference definition of "longest matching candidate". Whenever a longest matching candidate exists, the scan returns exactly it, so ties in the order cannot change the answer. |
| LatexReplacerProperties.LongestMatchIsFound | src/composables/useLatexReplacer.js:17-24 | A candidate that satisfies the reference definition of "longest match" is what the scan returns, starting that many code units before the cursor. |
| LatexReplacerProperties.LongestAmongMappings | src/composables/useLatexReplacer.js:1-24 | With a table that meets all the data file's guarantees, any key of the table ending at the cursor makes the scan succeed. The match is at least as long as that key. |
| LatexReplacerProperties.MatchIsNonEmpty | src/composables/useLatexReplacer.js:19-23 | With no empty candidate, a match starts strictly before the cursor. |
| LatexReplacerProperties.FindIgnoresTextAfterCursor | src/composables/useLatexReplacer.js:15 | Two buffers that agree up to the cursor get the same match, so only the text before the cursor matters. |
| LatexReplacerProperties.UndoRestoresTextAndCursor | src/composables/useLatexReplacer.js:43-59 | Reverting a result from its own fields gives back the original text and cursor. To revert, put `from` back in place of `to`, just before the new cursor. |
| LatexReplacerProperties.SplicedIsConcatenation | src/composables/useLatexReplacer.js:47-48 | The splice description (prefix kept, insert in place, suffix kept, length adjusted) holds of exactly one text: `text.slice(0, start) + insert + text.slice(end)`. |
| LatexReplacerProperties.PutBack | src/composables/useLatexReplacer.js:47-48 | Putting the removed span back between the kept prefix and suffix rebuilds the original text. |
| LatexReplacerProperties.CandidatesAreValidSequences | src/composables/useLatexReplacer.js:67-78 | Every candidate in the order is a valid sequence, and its snapshot entry is its table entry. |
| LatexReplacerProperties.InheritedNamesAreTheOnlyDifference | src/composables/useLatexReplacer.js:76-78 | The JS `in` test and plain key membership differ exactly on inherited names that are not keys of the table. |
| LatexReplacerExamples.LongestCandidateIsReplaced | src/composables/useLatexReplacer.js:36-61 | With `"ab"`→α and `"b"`→β, text `"xab"` and cursor 3 give `"xα"`, cursor 2 and `{ from: "ab", to: "α" }`. |
| LatexReplacerExamples.ShortestFirstOrderPicksShorterMatch | src/composables/useLatexReplacer.js:17-24 | Listed shortest first, the same candidates match `"b"` although `"ab"` also ends at the cursor. |
| LatexReplacerExamples.CursorLandsAfterReplacement | src/composables/useLatexReplacer.js:51 | With `"pi"`→π, text `"pi"` and cursor 2 give `"π"` with cursor 1. |
| LatexReplacerExamples.TextAfterCursorIsKept | src/composables/useLatexReplacer.js:47-48 | With `"pi"`→π, text `"pix"` and cursor 2 give `"πx"` with cursor 1. |
| LatexReplacerExamples.NoCandidateNoReplacement | src/composables/useLatexReplacer.js:37-41 | Text `"xp"` with cursor 2 matches nothing, so the result is null. |
| LatexReplacerExamples.InheritedNameCounterexample | src/composables/useLatexReplacer.js:76-78 | For a table without that key, the JS `in` test accepts `"constructor"`. Plain membership and the snapshot's own keys do not. |

## Left out

- The Vue composable closure and the module import: the table is an explicit `Table` parameter.
- The mapping data file src/data/latexMappings.js is not part of this model. What it must guarantee is stated as the predicates in `LatexMappings` and required where needed.
- Out-of-range cursors. JS `slice` clamps an index above the length, but a negative index counts from the end of the string. So `text.slice(0, -1)` drops the last code unit, and the negative `startIndex` that follows does the same at the splice. For example, text `"xpix"` with cursor -1 and `"pi"`→π gives `"xπx"` with cursor -2. The model requires `0 <= cursorPos <= |text|`.
- The defensive copy in `getAllMappings` (`{ ...latexMappings }`): a Dafny map is an immutable value, so the snapshot is the table itself and aliasing cannot arise. The copy is again a plain object, so it also inherits `Object.prototype`'s names; the model describes only its own keys.
- A candidate without a table entry. In JS the lookup gives `undefined`, and `unicodeChar.length` on line 51 then throws a `TypeError`, so `tryReplace` fails instead of returning. The model requires every candidate to have an entry (`CandidatesMapped`), as the data file guarantees.
- The editor and UI that call the rule on each keystroke.
- Object semantics beyond key membership: `IsValidSequenceAsWritten` takes the inherited names as a parameter rather than listing `Object.prototype`.

## Findings

| source | as written | input that shows it | evidently intended | confidence | as-written member | corrected member |
|---|---|---|---|---|---|---|
| src/composables/useLatexReplacer.js:77 | `sequence in latexMappings` also sees names a plain object inherits through its prototype chain | `isValidSequence("constructor")` is true although `"constructor"` is not an escape sequence of the table | true exactly for keys of the mapping table (an own-property test) | medium: assumes the data file exports a plain object literal, which is not part of this model; not executed | LatexReplacer.IsValidSequenceAsWritten (shown by LatexReplacerExamples.InheritedNameCounterexample) | LatexReplacer.IsValidSequence (proved by LatexReplacerProperties.CandidatesAreValidSequences and LatexReplacer.GetAllMappings) |
