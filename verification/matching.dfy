/**
 * What both matchers are measured against: where the pattern occurs in the
 * text, and how many character comparisons a left-to-right scan that stops
 * at the first mismatch spends at one offset.
 */
module Matching {

  /** The pattern occurs in the text at offset i: text[i..i+m) == pattern. */
  predicate OccursAt(text: string, pattern: string, i: int) {
    0 <= i && i + |pattern| <= |text| && text[i..i + |pattern|] == pattern
  }

  /** Number of offsets a matcher tries: 0, 1, ..., n-m (none when m > n). */
  function OffsetCount(text: string, pattern: string): (c: nat)
    ensures forall i :: OccursAt(text, pattern, i) ==> i < c
    ensures |pattern| <= |text| ==> c == |text| - |pattern| + 1
    ensures |pattern| > |text| ==> c == 0
  {
    if |pattern| <= |text| then |text| - |pattern| + 1 else 0
  }

  /** Occurrence offsets below k, in increasing order. */
  function OccurrencesBelow(text: string, pattern: string, k: nat): seq<nat>
  {
    if k == 0 then []
    else OccurrencesBelow(text, pattern, k - 1) + (if OccursAt(text, pattern, k - 1) then [k - 1] else [])
  }

  /** All occurrence offsets, in increasing order. */
  function Occurrences(text: string, pattern: string): seq<nat> {
    OccurrencesBelow(text, pattern, OffsetCount(text, pattern))
  }

  predicate StrictlyIncreasing(s: seq<nat>) {
    forall a, b :: 0 <= a < b < |s| ==> s[a] < s[b]
  }

  lemma {:induction false} OccurrencesBelowSpec(text: string, pattern: string, k: nat)
    ensures forall p :: p in OccurrencesBelow(text, pattern, k) <==> p < k && OccursAt(text, pattern, p)
    ensures StrictlyIncreasing(OccurrencesBelow(text, pattern, k))
  {
    if k > 0 {
      OccurrencesBelowSpec(text, pattern, k - 1);
      var prev := OccurrencesBelow(text, pattern, k - 1);
      var last: seq<nat> := if OccursAt(text, pattern, k - 1) then [k - 1] else [];
      assert OccurrencesBelow(text, pattern, k) == prev + last;
      forall a, b | 0 <= a < b < |prev + last|
        ensures (prev + last)[a] < (prev + last)[b]
      {
        if b < |prev| {
          assert (prev + last)[a] == prev[a] && (prev + last)[b] == prev[b];
        } else {
          assert (prev + last)[a] == prev[a] && prev[a] in prev;
        }
      }
    }
  }

  /** Occurrences lists exactly the offsets where the pattern occurs, each once, in increasing order, all within [0, n-m]. */
  lemma OccurrencesSpec(text: string, pattern: string)
    ensures forall p :: p in Occurrences(text, pattern) <==> OccursAt(text, pattern, p)
    ensures StrictlyIncreasing(Occurrences(text, pattern))
    ensures forall p :: p in Occurrences(text, pattern) ==> p + |pattern| <= |text|
  {
    OccurrencesBelowSpec(text, pattern, OffsetCount(text, pattern));
  }

  /**
   * Length of the common prefix of text[i+j..] and pattern[j..], added to j,
   * capped at m: the scan starting at pattern index j stops there.
   */
  function PrefixFrom(text: string, pattern: string, i: nat, j: nat): (r: nat)
    requires i + |pattern| <= |text| && j <= |pattern|
    ensures j <= r <= |pattern|
    decreases |pattern| - j
  {
    if j == |pattern| || text[i + j] != pattern[j] then j
    else PrefixFrom(text, pattern, i, j + 1)
  }

  /** Length of the longest common prefix of text[i..i+m) and pattern. */
  function CommonPrefixLength(text: string, pattern: string, i: nat): nat
    requires i + |pattern| <= |text|
  {
    PrefixFrom(text, pattern, i, 0)
  }

  /**
   * Character comparisons made at offset i when the scan stops at the first
   * mismatch: m on a full match, otherwise the common prefix plus the
   * mismatching comparison.
   */
  function ComparisonCount(text: string, pattern: string, i: nat): nat
    requires i + |pattern| <= |text|
  {
    var l := CommonPrefixLength(text, pattern, i);
    if l == |pattern| then |pattern| else l + 1
  }

  lemma {:induction false} PrefixFromSpec(text: string, pattern: string, i: nat, j: nat)
    requires i + |pattern| <= |text| && j <= |pattern|
    requires forall k :: 0 <= k < j ==> text[i + k] == pattern[k]
    ensures var r := PrefixFrom(text, pattern, i, j);
      (forall k :: 0 <= k < r ==> text[i + k] == pattern[k]) &&
      (r < |pattern| ==> text[i + r] != pattern[r])
    decreases |pattern| - j
  {
    if j < |pattern| && text[i + j] == pattern[j] {
      PrefixFromSpec(text, pattern, i, j + 1);
    }
  }

  /** The common prefix really is common, and is maximal. */
  lemma CommonPrefixSpec(text: string, pattern: string, i: nat)
    requires i + |pattern| <= |text|
    ensures var l := CommonPrefixLength(text, pattern, i);
      text[i..i + l] == pattern[..l] && (l < |pattern| ==> text[i + l] != pattern[l])
    ensures CommonPrefixLength(text, pattern, i) == |pattern| <==> OccursAt(text, pattern, i)
  {
    PrefixFromSpec(text, pattern, i, 0);
    var l := CommonPrefixLength(text, pattern, i);
    assert text[i..i + l] == pattern[..l];
    if l == |pattern| {
      assert text[i..i + |pattern|] == pattern;
    } else {
      assert text[i..i + |pattern|][l] != pattern[l];
    }
  }

  /**
   * Comparison count at one offset: m on a match; otherwise the common prefix
   * plus one; always between 1 and m for a non-empty pattern.
   */
  lemma ComparisonCountSpec(text: string, pattern: string, i: nat)
    requires i + |pattern| <= |text|
    ensures OccursAt(text, pattern, i) ==> ComparisonCount(text, pattern, i) == |pattern|
    ensures !OccursAt(text, pattern, i) ==>
      var l := CommonPrefixLength(text, pattern, i);
      l < |pattern| && ComparisonCount(text, pattern, i) == l + 1 &&
      text[i..i + l] == pattern[..l] && text[i + l] != pattern[l]
    ensures |pattern| >= 1 ==> 1 <= ComparisonCount(text, pattern, i) <= |pattern|
  {
    CommonPrefixSpec(text, pattern, i);
  }
}
