/** The LaTeX-to-Unicode replacer: the four operations the composable
    `useLatexReplacer` returns, with the imported table passed explicitly.

    Given the text buffer and the cursor offset, the replacer looks for a
    known escape sequence ending exactly at the cursor, trying candidates in
    the table's longest-first order and taking the first hit, and splices the
    sequence's replacement into the text in its place.
 */
module LatexReplacer {
  import opened Utf16
  import opened LatexMappings

  /** JS `null` or a value. */
  datatype Option<T> = None | Some(value: T)

  /** `{ sequence, startIndex }`: the matched candidate and where it starts. */
  datatype Match = Match(sequence: Text, startIndex: int)

  /** `{ from, to }`: the audit record of one replacement. */
  datatype Replaced = Replaced(from: Text, to: Text)

  /** `{ newText, newCursorPos, replaced }`. */
  datatype Replacement = Replacement(newText: Text, newCursorPos: int, replaced: Replaced)

  /** The `for ... of` scan from position `i` on: the index of the first
      candidate at or after `i` that `before` ends with, or `|order|` when
      there is none. */
  function FirstMatchFrom(order: seq<Text>, before: Text, i: nat): (k: nat)
    requires i <= |order|
    ensures i <= k <= |order|
    ensures k < |order| ==> EndsWith(before, order[k])
    ensures forall j :: i <= j < k ==> !EndsWith(before, order[j])
    decreases |order| - i
  {
    if i == |order| then i
    else if EndsWith(before, order[i]) then i
    else FirstMatchFrom(order, before, i + 1)
  }

  /** The position of the first occurrence of `s` in `order`, or `|order|`
      when `s` does not occur. */
  function IndexOf(order: seq<Text>, s: Text): (i: nat)
    ensures i <= |order|
    ensures i < |order| <==> s in order
    ensures i < |order| ==> order[i] == s
    ensures forall j :: 0 <= j < i ==> order[j] != s
  {
    if |order| == 0 then 0
    else if order[0] == s then 0
    else 1 + IndexOf(order[1..], s)
  }

  /** A position holding `s` with no earlier occurrence is `IndexOf`'s answer. */
  lemma IndexOfFirstOccurrence(order: seq<Text>, k: nat)
    requires k < |order|
    requires forall j :: 0 <= j < k ==> order[j] != order[k]
    ensures IndexOf(order, order[k]) == k
  {
  }

  /** `findSequenceBeforeCursor(text, cursorPos)`. */
  function FindSequenceBeforeCursor(t: Table, text: Text, cursorPos: int): (r: Option<Match>)
    requires 0 <= cursorPos <= |text|
    // null exactly when no candidate is a suffix of the text before the cursor
    ensures r.None? <==>
      forall k :: 0 <= k < |t.sorted| ==> !EndsWith(text[..cursorPos], t.sorted[k])
    // the match is a candidate that the text before the cursor ends with ...
    ensures r.Some? ==>
      && r.value.sequence in t.sorted
      && EndsWith(text[..cursorPos], r.value.sequence)
    // ... and it is the first such candidate: none before its position matches
    ensures r.Some? ==>
      forall k :: 0 <= k < IndexOf(t.sorted, r.value.sequence) ==>
        !EndsWith(text[..cursorPos], t.sorted[k])
    // the match sits in the text, ending exactly at the cursor
    ensures r.Some? ==>
      && 0 <= r.value.startIndex
      && r.value.startIndex + |r.value.sequence| == cursorPos
      && text[r.value.startIndex..cursorPos] == r.value.sequence
  {
    var before := text[..cursorPos];
    var k := FirstMatchFrom(t.sorted, before, 0);
    if k == |t.sorted| then None
    else
      var sequence := t.sorted[k];
      IndexOfFirstOccurrence(t.sorted, k);
      EndsWithBeforeCursor(text, cursorPos, sequence);
      Some(Match(sequence, cursorPos - |sequence|))
  }

  /** `newText` is `text` with the span `[start, end)` replaced by `insert`:
      the code units before `start` and from `end` on are kept, in place and
      in order, and `insert` sits between them. */
  predicate Spliced(text: Text, start: int, end: int, insert: Text, newText: Text) {
    && 0 <= start <= end <= |text|
    && |newText| == |text| - (end - start) + |insert|
    && newText[..start] == text[..start]
    && newText[start..start + |insert|] == insert
    && newText[start + |insert|..] == text[end..]
  }

  /** `tryReplace(text, cursorPos)`. The table lookup at the match cannot
      miss because every candidate has an entry. */
  function TryReplace(t: Table, text: Text, cursorPos: int): (r: Option<Replacement>)
    requires 0 <= cursorPos <= |text|
    requires CandidatesMapped(t)
    // null exactly when nothing was found before the cursor
    ensures r.None? <==> FindSequenceBeforeCursor(t, text, cursorPos).None?
    // the audit record names the matched sequence and its table entry
    ensures r.Some? ==>
      && FindSequenceBeforeCursor(t, text, cursorPos)
         == Some(Match(r.value.replaced.from, cursorPos - |r.value.replaced.from|))
      && r.value.replaced.from in t.mappings
      && r.value.replaced.to == t.mappings[r.value.replaced.from]
      && IsValidSequence(t, r.value.replaced.from)
    // the splice: the text before the sequence and after the cursor is kept,
    // the sequence is replaced, and the cursor lands right after the replacement
    ensures r.Some? ==>
      && Spliced(text, cursorPos - |r.value.replaced.from|, cursorPos,
                 r.value.replaced.to, r.value.newText)
      && r.value.newCursorPos == cursorPos - |r.value.replaced.from| + |r.value.replaced.to|
      && 0 <= r.value.newCursorPos <= |r.value.newText|
  {
    match FindSequenceBeforeCursor(t, text, cursorPos)
    case None => None
    case Some(found) =>
      var sequence, startIndex := found.sequence, found.startIndex;
      var unicodeChar := t.mappings[sequence];
      var newText := text[..startIndex] + unicodeChar + text[cursorPos..];
      var newCursorPos := startIndex + |unicodeChar|;
      assert newText[..startIndex] == text[..startIndex];
      assert newText[startIndex..newCursorPos] == unicodeChar;
      assert newText[newCursorPos..] == text[cursorPos..];
      Some(Replacement(newText, newCursorPos, Replaced(sequence, unicodeChar)))
  }

  /** `getAllMappings()`: a snapshot of the table. A Dafny map is an
      immutable value, so the snapshot is the table itself and no caller can
      change it. */
  function GetAllMappings(t: Table): (r: map<Text, Text>)
    ensures forall s :: s in r <==> IsValidSequence(t, s)
    ensures forall s :: IsValidSequence(t, s) ==> r[s] == t.mappings[s]
  {
    t.mappings
  }

  /** `isValidSequence(sequence)`: whether `sequence` is a key of the table.
      With a table whose keys are exactly its candidates, that is the same as
      being one of the sequences the scan tries. */
  function IsValidSequence(t: Table, sequence: Text): (b: bool)
    ensures CandidatesMapped(t) && KeysListed(t) ==> (b <==> sequence in t.sorted)
  {
    sequence in t.mappings
  }

  /** `sequence in latexMappings` as JS evaluates it on a plain object: the
      `in` operator also reports names inherited through the prototype
      chain (`constructor`, `toString`, ...), given here as `inherited`.
      It accepts every key, and anything else it accepts is inherited. */
  function IsValidSequenceAsWritten(t: Table, inherited: set<Text>, sequence: Text): (b: bool)
    ensures IsValidSequence(t, sequence) ==> b
    ensures b && sequence !in inherited ==> IsValidSequence(t, sequence)
  {
    sequence in t.mappings || sequence in inherited
  }
}
