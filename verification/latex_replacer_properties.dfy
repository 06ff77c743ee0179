/** Properties of the replacer that relate several calls or need the
    table's guarantees: longest-match-wins, the reference definition of the
    match, the undo round trip of the audit record, and membership.
 */
module LatexReplacerProperties {
  import opened Utf16
  import opened LatexMappings
  import opened LatexReplacer

  /** Reference definition of the intended match: `s` is a candidate that
      the text before the cursor ends with, and no such candidate is longer. */
  ghost predicate IsLongestMatch(order: seq<Text>, before: Text, s: Text) {
    && s in order
    && EndsWith(before, s)
    && forall k :: 0 <= k < |order| && EndsWith(before, order[k]) ==> |order[k]| <= |s|
  }

  /** Longest-match-wins: when a candidate that is a proper suffix of
      another always comes after it, the first hit covers every other hit,
      so no matching candidate is longer than the one chosen. */
  lemma LongestMatchWins(t: Table, text: Text, cursorPos: int)
    requires 0 <= cursorPos <= |text|
    requires LongerSuffixFirst(t.sorted)
    ensures FindSequenceBeforeCursor(t, text, cursorPos).Some? ==>
      var s := FindSequenceBeforeCursor(t, text, cursorPos).value.sequence;
      forall k :: 0 <= k < |t.sorted| && EndsWith(text[..cursorPos], t.sorted[k]) ==>
        && |t.sorted[k]| <= |s|
        && EndsWith(s, t.sorted[k])
  {
    var before := text[..cursorPos];
    var r := FindSequenceBeforeCursor(t, text, cursorPos);
    if r.Some? {
      var s := r.value.sequence;
      forall k | 0 <= k < |t.sorted| && EndsWith(before, t.sorted[k])
        ensures |t.sorted[k]| <= |s| && EndsWith(s, t.sorted[k])
      {
        var i := IndexOf(t.sorted, s);
        assert i <= k;
        if |s| < |t.sorted[k]| {
          SuffixesNest(before, s, t.sorted[k]);
          assert i < k && ProperSuffix(t.sorted[i], t.sorted[k]);
          assert false;
        }
        SuffixesNest(before, t.sorted[k], s);
      }
    }
  }

  /** The first hit in the scan is exactly the reference longest match:
      when there is a longest match the scan finds it, and any two longest
      matches are the same string, so ties in the order cannot matter. */
  lemma FindIsLongestMatch(t: Table, text: Text, cursorPos: int)
    requires 0 <= cursorPos <= |text|
    requires LongerSuffixFirst(t.sorted)
    ensures FindSequenceBeforeCursor(t, text, cursorPos).Some? ==>
      IsLongestMatch(t.sorted, text[..cursorPos],
                     FindSequenceBeforeCursor(t, text, cursorPos).value.sequence)
    ensures forall s :: IsLongestMatch(t.sorted, text[..cursorPos], s) ==>
      FindSequenceBeforeCursor(t, text, cursorPos) == Some(Match(s, cursorPos - |s|))
  {
    LongestMatchWins(t, text, cursorPos);
    forall s | IsLongestMatch(t.sorted, text[..cursorPos], s)
      ensures FindSequenceBeforeCursor(t, text, cursorPos) == Some(Match(s, cursorPos - |s|))
    {
      LongestMatchIsFound(t, text, cursorPos, s);
    }
  }

  /** One longest match is the scan's answer. */
  lemma LongestMatchIsFound(t: Table, text: Text, cursorPos: int, s: Text)
    requires 0 <= cursorPos <= |text|
    requires LongerSuffixFirst(t.sorted)
    requires IsLongestMatch(t.sorted, text[..cursorPos], s)
    ensures FindSequenceBeforeCursor(t, text, cursorPos) == Some(Match(s, cursorPos - |s|))
  {
    var before := text[..cursorPos];
    var i := IndexOf(t.sorted, s);
    var r := FindSequenceBeforeCursor(t, text, cursorPos);
    assert r.Some? by {
      assert EndsWith(before, t.sorted[i]);
    }
    var found := r.value.sequence;
    var j := IndexOf(t.sorted, found);
    assert |found| <= |s| by {
      assert EndsWith(before, t.sorted[j]);
    }
    assert |s| <= |found| by {
      LongestMatchWins(t, text, cursorPos);
      assert EndsWith(before, t.sorted[i]);
    }
    SuffixOfLengthIsUnique(before, found, s);
  }

  /** With a table meeting the data file's guarantees, the match is at
      least as long as every key of the table that ends at the cursor, and
      some key ending at the cursor is enough for a match. */
  lemma LongestAmongMappings(t: Table, text: Text, cursorPos: int)
    requires 0 <= cursorPos <= |text|
    requires ValidTable(t)
    ensures forall key :: key in t.mappings && EndsWith(text[..cursorPos], key) ==>
      && FindSequenceBeforeCursor(t, text, cursorPos).Some?
      && |key| <= |FindSequenceBeforeCursor(t, text, cursorPos).value.sequence|
  {
    SortedByLengthPutsLongerSuffixFirst(t.sorted);
    LongestMatchWins(t, text, cursorPos);
    forall key | key in t.mappings && EndsWith(text[..cursorPos], key)
      ensures FindSequenceBeforeCursor(t, text, cursorPos).Some?
      ensures |key| <= |FindSequenceBeforeCursor(t, text, cursorPos).value.sequence|
    {
      var k :| 0 <= k < |t.sorted| && t.sorted[k] == key;
    }
  }

  /** With no empty candidate, a match always consumes at least one code
      unit before the cursor. */
  lemma MatchIsNonEmpty(t: Table, text: Text, cursorPos: int)
    requires 0 <= cursorPos <= |text|
    requires NonEmpty(t.sorted)
    ensures FindSequenceBeforeCursor(t, text, cursorPos).Some? ==>
      FindSequenceBeforeCursor(t, text, cursorPos).value.startIndex < cursorPos
  {
    var r := FindSequenceBeforeCursor(t, text, cursorPos);
    if r.Some? {
      var i :| 0 <= i < |t.sorted| && t.sorted[i] == r.value.sequence;
    }
  }

  /** Only the text before the cursor is consulted: two buffers that agree
      up to the cursor get the same match. */
  lemma FindIgnoresTextAfterCursor(t: Table, text: Text, other: Text, cursorPos: int)
    requires 0 <= cursorPos <= |text| && cursorPos <= |other|
    requires text[..cursorPos] == other[..cursorPos]
    ensures FindSequenceBeforeCursor(t, text, cursorPos)
         == FindSequenceBeforeCursor(t, other, cursorPos)
  {
  }

  /** The splice description pins the new text down: it holds of exactly
      one text, the concatenation `tryReplace` builds. */
  lemma SplicedIsConcatenation(text: Text, start: int, end: int, insert: Text, newText: Text)
    requires 0 <= start <= end <= |text|
    ensures Spliced(text, start, end, insert, newText)
        <==> newText == text[..start] + insert + text[end..]
  {
    if Spliced(text, start, end, insert, newText) {
      assert newText == newText[..start] + newText[start..start + |insert|] + newText[start + |insert|..];
    }
  }

  /** Reverting a replacement from its result alone: put `from` back in
      place of `to` just before the new cursor. */
  function Undo(r: Replacement): (u: (Text, int))
    requires 0 <= r.newCursorPos - |r.replaced.to|
    requires r.newCursorPos <= |r.newText|
  {
    var start := r.newCursorPos - |r.replaced.to|;
    (r.newText[..start] + r.replaced.from + r.newText[r.newCursorPos..],
     start + |r.replaced.from|)
  }

  /** The result of `tryReplace` carries enough to undo it: reverting it
      restores the original text and cursor. */
  lemma UndoRestoresTextAndCursor(t: Table, text: Text, cursorPos: int)
    requires 0 <= cursorPos <= |text|
    requires CandidatesMapped(t)
    ensures TryReplace(t, text, cursorPos).Some? ==>
      Undo(TryReplace(t, text, cursorPos).value) == (text, cursorPos)
  {
    var r := TryReplace(t, text, cursorPos);
    if r.Some? {
      var res := r.value;
      var start := cursorPos - |res.replaced.from|;
      PutBack(text, start, cursorPos, res.newText, res.newCursorPos);
    }
  }

  /** Putting the cut-out span `text[start..cursorPos]` back between the
      kept prefix and suffix rebuilds the text. */
  lemma PutBack(text: Text, start: int, cursorPos: int, newText: Text, newCursorPos: int)
    requires 0 <= start <= cursorPos <= |text|
    requires start <= newCursorPos <= |newText|
    requires newText[..start] == text[..start]
    requires newText[newCursorPos..] == text[cursorPos..]
    ensures newText[..start] + text[start..cursorPos] + newText[newCursorPos..] == text
  {
    assert text[..cursorPos] == text[..start] + text[start..cursorPos];
    assert text == text[..cursorPos] + text[cursorPos..];
  }

  /** Every candidate is a valid sequence and its entry in the mappings
      snapshot is its table entry. */
  lemma CandidatesAreValidSequences(t: Table)
    requires CandidatesMapped(t)
    ensures forall i :: 0 <= i < |t.sorted| ==>
      && IsValidSequence(t, t.sorted[i])
      && GetAllMappings(t)[t.sorted[i]] == t.mappings[t.sorted[i]]
  {
  }

  /** The plain-membership `IsValidSequence` and the JS `in` test agree on
      every name the prototype chain does not supply, and differ exactly on
      inherited names that are not keys of the table. */
  lemma InheritedNamesAreTheOnlyDifference(t: Table, inherited: set<Text>, s: Text)
    ensures IsValidSequenceAsWritten(t, inherited, s) != IsValidSequence(t, s)
        <==> s in inherited && s !in t.mappings
  {
  }
}
