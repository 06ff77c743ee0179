/** Worked examples of the replacer on small tables, written as UTF-16 code
    units: `a` 0x61, `b` 0x62, `i` 0x69, `p` 0x70, `x` 0x78, `α` 0x3B1,
    `β` 0x3B2, `π` 0x3C0.
 */
module LatexReplacerExamples {
  import opened Utf16
  import opened LatexMappings
  import opened LatexReplacer

  const Ab: Text := [0x61, 0x62]
  const B: Text := [0x62]
  const Alpha: Text := [0x3B1]
  const Beta: Text := [0x3B2]
  const Pi: Text := [0x70, 0x69]
  const PiSign: Text := [0x3C0]

  /** `"ab"` to α and `"b"` to β, longest first. */
  const Greek := Table(map[Ab := Alpha, B := Beta], [Ab, B])

  /** `"pi"` to π. */
  const PiTable := Table(map[Pi := PiSign], [Pi])

  /** `"constructor"`, a name every plain JS object inherits. */
  const Constructor: Text :=
    [0x63, 0x6F, 0x6E, 0x73, 0x74, 0x72, 0x75, 0x63, 0x74, 0x6F, 0x72]

  /** Text `"xab"` with the cursor at the end: `"ab"` wins over `"b"`. */
  lemma LongestCandidateIsReplaced()
    ensures TryReplace(Greek, [0x78, 0x61, 0x62], 3)
         == Some(Replacement([0x78, 0x3B1], 2, Replaced(Ab, Alpha)))
  {
    var text: Text := [0x78, 0x61, 0x62];
    assert EndsWith(text[..3], Ab);
    assert FindSequenceBeforeCursor(Greek, text, 3) == Some(Match(Ab, 1));
    assert Greek.mappings[Ab] == Alpha;
    assert text[..1] + Alpha + text[3..] == [0x78, 0x3B1];
  }

  /** The same candidates listed shortest first: the scan stops at `"b"`
      although the longer `"ab"` also ends at the cursor, which is why the
      table must list longer suffixes first. */
  lemma ShortestFirstOrderPicksShorterMatch()
    ensures FindSequenceBeforeCursor(Table(Greek.mappings, [B, Ab]), [0x78, 0x61, 0x62], 3)
         == Some(Match(B, 2))
    ensures EndsWith([0x78, 0x61, 0x62], Ab) && |B| < |Ab|
  {
    var text: Text := [0x78, 0x61, 0x62];
    assert EndsWith(text[..3], B);
    assert EndsWith(text, Ab);
  }

  /** Text `"pi"`, cursor 2: the cursor moves back to just after π. */
  lemma CursorLandsAfterReplacement()
    ensures TryReplace(PiTable, Pi, 2) == Some(Replacement(PiSign, 1, Replaced(Pi, PiSign)))
  {
    assert EndsWith(Pi[..2], Pi);
    assert FindSequenceBeforeCursor(PiTable, Pi, 2) == Some(Match(Pi, 0));
    assert Pi[..0] + PiSign + Pi[2..] == PiSign;
  }

  /** Text `"pix"`, cursor 2: the `"x"` after the cursor is kept. */
  lemma TextAfterCursorIsKept()
    ensures TryReplace(PiTable, [0x70, 0x69, 0x78], 2)
         == Some(Replacement([0x3C0, 0x78], 1, Replaced(Pi, PiSign)))
  {
    var text: Text := [0x70, 0x69, 0x78];
    assert EndsWith(text[..2], Pi);
    assert FindSequenceBeforeCursor(PiTable, text, 2) == Some(Match(Pi, 0));
    assert text[..0] + PiSign + text[2..] == [0x3C0, 0x78];
  }

  /** Text `"xp"`, cursor 2: no candidate ends at the cursor. */
  lemma NoCandidateNoReplacement()
    ensures TryReplace(PiTable, [0x78, 0x70], 2) == None
  {
    var text: Text := [0x78, 0x70];
    assert text[..2][0] != Pi[0];
  }

  /** JS `in` reports the inherited name `"constructor"` as a valid
      sequence of a table that has no such key; plain membership and the
      snapshot's own keys do not. */
  lemma InheritedNameCounterexample()
    ensures IsValidSequenceAsWritten(Greek, {Constructor}, Constructor)
    ensures !IsValidSequence(Greek, Constructor)
    ensures Constructor !in GetAllMappings(Greek)
  {
  }
}
