/**
 * The run that the page triggers: validate the inputs, then run the naive
 * matcher and the Rabin-Karp matcher (default base and modulus) on them.
 */
module Analysis {
  import opened Wrappers
  import opened Validation
  import opened Matching
  import Naive
  import RabinKarp

  /** What one run hands to the presentation layer. */
  datatype Report = Report(
    naiveMatches: seq<nat>, naiveTrace: seq<Naive.NaiveStep>,
    rkMatches: seq<nat>, rkTrace: seq<RabinKarp.RkStep>)

  /**
   * Validation is all-or-nothing: on an invalid input no matcher runs and the
   * validator's error is returned; otherwise both matchers report the same
   * offsets, which are exactly the occurrences of the pattern.
   */
  method Run(text: string, pattern: string) returns (r: Result<Report, ValidationError>)
    ensures r.Err? <==> Validate(text, pattern).Err?
    ensures r.Err? ==> r.error == Validate(text, pattern).error
    ensures r.Ok? ==>
      r.value.naiveMatches == r.value.rkMatches == Occurrences(text, pattern) &&
      |r.value.naiveTrace| == |text| - |pattern| + 1 &&
      (forall k :: 0 <= k < |r.value.naiveTrace| ==>
        r.value.naiveTrace[k].index == k &&
        (r.value.naiveTrace[k].matched <==> OccursAt(text, pattern, k)) &&
        r.value.naiveTrace[k].comparisons == ComparisonCount(text, pattern, k) &&
        r.value.naiveTrace[k].detailLines == r.value.naiveTrace[k].comparisons) &&
      r.value.rkTrace == RabinKarp.RkTrace(text, pattern, RabinKarp.DEFAULT_BASE, RabinKarp.DEFAULT_MODULUS)
  {
    var v := Validate(text, pattern);
    if v.Err? {
      return Err(v.error);
    }
    var req := v.value;
    var naiveMatches, naiveTrace := Naive.NaiveMatch(req.text, req.pattern);
    var rkMatches, rkTrace := RabinKarp.RabinKarpMatch(req.text, req.pattern,
      RabinKarp.DEFAULT_BASE, RabinKarp.DEFAULT_MODULUS);
    r := Ok(Report(naiveMatches, naiveTrace, rkMatches, rkTrace));
  }

  /** The page's default inputs: the pattern occurs once, at offset 10. */
  lemma DefaultInputScenario()
    ensures Occurrences("ABABDABACDABABCABAB", "ABABCABAB") == [10]
  {
    var text, pattern := "ABABDABACDABABCABAB", "ABABCABAB";
    assert OccursAt(text, pattern, 10);
    forall i | 0 <= i < 11 && i != 10
      ensures !OccursAt(text, pattern, i)
    {
      // the first mismatching pattern index at each offset
      var k := [4, 0, 2, 0, 0, 3, 0, 1, 0, 0][i];
      assert text[i..i + 9][k] != pattern[k];
    }
    OccurrencesSpec(text, pattern);
  }

  /** Occurrences may overlap: every offset of a run of equal characters is reported. */
  lemma OverlappingScenario()
    ensures Occurrences("AAAA", "AA") == [0, 1, 2]
  {
    var text, pattern := "AAAA", "AA";
    assert OccursAt(text, pattern, 0) && OccursAt(text, pattern, 1) && OccursAt(text, pattern, 2);
    assert Occurrences(text, pattern) == OccurrencesBelow(text, pattern, 3);
  }

  /** No occurrence, and the single offset stops after its first comparison. */
  lemma DisjointScenario()
    ensures Occurrences("ABC", "XYZ") == []
    ensures ComparisonCount("ABC", "XYZ", 0) == 1
  {
    assert "ABC"[0..3][0] != "XYZ"[0];
  }
}
