/**
 * The instrumented naive matcher (naive_string_matching_instrumented): try
 * every offset 0..n-m in increasing order, compare left to right stopping at
 * the first mismatch, and emit one step record per offset.
 */
module Naive {
  import opened Matching

  /**
   * One step record of the naive trace. detailLines counts the display lines
   * the Python matcher writes for the step (one per character examined); timing and
   * memory fields are not modelled.
   */
  datatype NaiveStep = NaiveStep(index: nat, matched: bool, comparisons: nat, detailLines: nat)

  /**
   * Compare pattern[j] with text[i+j] for j = 0, 1, ..., stopping at the first
   * mismatch. Shared by both matchers (the same inner loop appears in each).
   */
  method CompareWindow(text: string, pattern: string, i: nat) returns (matched: bool, comparisons: nat)
    requires i + |pattern| <= |text|
    ensures matched <==> OccursAt(text, pattern, i)
    ensures comparisons == ComparisonCount(text, pattern, i)
  {
    comparisons, matched := 0, true;
    var j := 0;
    while j < |pattern|
      invariant 0 <= j <= |pattern|
      invariant comparisons == j
      invariant forall k :: 0 <= k < j ==> text[i + k] == pattern[k]
      invariant PrefixFrom(text, pattern, i, j) == CommonPrefixLength(text, pattern, i)
    {
      comparisons := comparisons + 1;
      if text[i + j] != pattern[j] {
        matched := false;
        assert text[i..i + |pattern|][j] != pattern[j];
        break;
      }
      j := j + 1;
    }
    if matched {
      assert text[i..i + |pattern|] == pattern;
    }
  }

  /**
   * Returns the match offsets and one record per offset tried. Works for any
   * inputs: an empty pattern matches at every offset 0..n with no
   * comparisons, a pattern longer than the text tries no offset.
   */
  method NaiveMatch(text: string, pattern: string) returns (matches: seq<nat>, iterations: seq<NaiveStep>)
    ensures matches == Occurrences(text, pattern)
    ensures forall p :: p in matches <==> OccursAt(text, pattern, p)
    ensures StrictlyIncreasing(matches)
    ensures |iterations| == OffsetCount(text, pattern)
    ensures forall k :: 0 <= k < |iterations| ==>
      iterations[k].index == k &&
      (iterations[k].matched <==> OccursAt(text, pattern, k)) &&
      iterations[k].comparisons == ComparisonCount(text, pattern, k) &&
      iterations[k].detailLines == iterations[k].comparisons
  {
    matches, iterations := [], [];
    for i := 0 to OffsetCount(text, pattern)
      invariant matches == OccurrencesBelow(text, pattern, i)
      invariant |iterations| == i
      invariant forall k :: 0 <= k < i ==>
        iterations[k].index == k &&
        (iterations[k].matched <==> OccursAt(text, pattern, k)) &&
        iterations[k].comparisons == ComparisonCount(text, pattern, k) &&
        iterations[k].detailLines == iterations[k].comparisons
    {
      var matched, comparisons := CompareWindow(text, pattern, i);
      if matched {
        matches := matches + [i];
      }
      iterations := iterations + [NaiveStep(i, matched, comparisons, comparisons)];
    }
    OccurrencesSpec(text, pattern);
  }
}
