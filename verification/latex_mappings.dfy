/** The mapping table the replacer imports: `latexMappings` (escape
    sequence to replacement) and `sortedSequences` (its keys, longest
    first). The data file itself, src/data/latexMappings.js, is not part of
    this model; only what the replacer relies on it to guarantee is stated
    here, as predicates the operations and lemmas require.
 */
module LatexMappings {
  import opened Utf16

  /** The pair of values the replacer imports from the data file. */
  datatype Table = Table(mappings: map<Text, Text>, sorted: seq<Text>)

  /** Every candidate in the scan order has an entry in the table, so the
      lookup after a match never misses. */
  predicate CandidatesMapped(t: Table) {
    forall i :: 0 <= i < |t.sorted| ==> t.sorted[i] in t.mappings
  }

  /** Every key of the table is a candidate of the scan order. */
  predicate KeysListed(t: Table) {
    forall key :: key in t.mappings ==> key in t.sorted
  }

  /** No candidate appears twice in the scan order. */
  predicate Distinct(order: seq<Text>) {
    forall i, j :: 0 <= i < j < |order| ==> order[i] != order[j]
  }

  /** No candidate is the empty string (which would match everywhere). */
  predicate NonEmpty(order: seq<Text>) {
    forall i :: 0 <= i < |order| ==> |order[i]| > 0
  }

  /** The scan order is sorted by non-increasing length. */
  predicate SortedByLength(order: seq<Text>) {
    forall i, j :: 0 <= i < j < |order| ==> |order[j]| <= |order[i]|
  }

  /** The weaker ordering that longest-match-wins actually needs: when one
      candidate is a proper suffix of another, the longer one comes first. */
  predicate LongerSuffixFirst(order: seq<Text>) {
    forall i, j :: 0 <= i < j < |order| ==> !ProperSuffix(order[i], order[j])
  }

  /** Everything the data file is expected to guarantee. */
  predicate ValidTable(t: Table) {
    && CandidatesMapped(t)
    && KeysListed(t)
    && Distinct(t.sorted)
    && NonEmpty(t.sorted)
    && SortedByLength(t.sorted)
  }

  /** Sorting by non-increasing length is one way to meet the ordering
      longest-match-wins needs. */
  lemma SortedByLengthPutsLongerSuffixFirst(order: seq<Text>)
    requires SortedByLength(order)
    ensures LongerSuffixFirst(order)
  {
    forall i, j | 0 <= i < j < |order|
      ensures !ProperSuffix(order[i], order[j])
    {
      assert |order[j]| <= |order[i]|;
    }
  }
}
