/** JavaScript strings as sequences of UTF-16 code units.

    A JS string's `length`, `slice` and `endsWith` all count UTF-16 code
    units, not Unicode scalar values, so a replacement outside the Basic
    Multilingual Plane has length 2. The model therefore works on code
    units rather than on Dafny's `char`.
 */
module Utf16 {

  /** One UTF-16 code unit. */
  newtype CodeUnit = x: int | 0 <= x < 0x1_0000

  /** A JS string value. */
  type Text = seq<CodeUnit>

  /** `t.endsWith(s)` with the default end position `t.length`:
      the last `|s|` code units of `t` are exactly `s`. The empty string
      is a suffix of every string. */
  predicate EndsWith(t: Text, s: Text) {
    |s| <= |t| && t[|t| - |s|..] == s
  }

  /** `s` is a suffix of `t` and strictly shorter than it. */
  predicate ProperSuffix(s: Text, t: Text) {
    |s| < |t| && EndsWith(t, s)
  }

  /** Two suffixes of one string are nested: the shorter is a suffix of the
      longer. This is what makes "first hit in longest-first order" the
      same as "longest hit". */
  lemma SuffixesNest(t: Text, a: Text, b: Text)
    requires EndsWith(t, a) && EndsWith(t, b)
    requires |a| <= |b|
    ensures EndsWith(b, a)
  {
    var i := |b| - |a|;
    forall j | 0 <= j < |a|
      ensures b[i + j] == a[j]
    {
      assert b[i + j] == t[|t| - |b| + i + j];
      assert a[j] == t[|t| - |a| + j];
    }
    assert b[i..] == a;
  }

  /** Two suffixes of one string with the same length are the same string. */
  lemma SuffixOfLengthIsUnique(t: Text, a: Text, b: Text)
    requires EndsWith(t, a) && EndsWith(t, b)
    requires |a| == |b|
    ensures a == b
  {
    SuffixesNest(t, a, b);
  }

  /** `text.slice(0, cursorPos)` ends with `s` exactly when the code units
      just before the cursor, `text.slice(cursorPos - s.length, cursorPos)`,
      spell `s`. */
  lemma EndsWithBeforeCursor(text: Text, cursorPos: int, s: Text)
    requires 0 <= cursorPos <= |text|
    ensures EndsWith(text[..cursorPos], s)
        <==> |s| <= cursorPos && text[cursorPos - |s|..cursorPos] == s
  {
    if |s| <= cursorPos {
      assert text[..cursorPos][cursorPos - |s|..] == text[cursorPos - |s|..cursorPos];
    }
  }
}
