/**
 * The instrumented Rabin-Karp matcher (rabin_karp_instrumented): hash the
 * pattern and the first window, then for every offset compare hashes, confirm
 * equal hashes character by character, and roll the window hash forward.
 */
module RabinKarp {
  import opened Matching
  import opened RollingHash
  import Naive

  /** Default base and modulus of the matcher. */
  const DEFAULT_BASE: int := 256
  const DEFAULT_MODULUS: int := 101

  /**
   * One step record of the Rabin-Karp trace, tagged by phase. Every record
   * carries the two hashes, the match flag and the comparison count, as
   * rabin_karp_instrumented writes them; detailLines counts the display lines of the step.
   * A Roll record's index is the offset it follows.
   */
  datatype RkStep =
    | Init(pHash: int, tHash: int, h: int, matched: bool, comparisons: nat, detailLines: nat)
    | Check(index: nat, pHash: int, tHash: int, matched: bool, comparisons: nat, detailLines: nat)
    | Roll(index: nat, pHash: int, tHash: int, matched: bool, comparisons: nat, detailLines: nat)

  /**
   * When rabin_karp_instrumented runs as modelled: 1 <= m <= n (otherwise its init
   * loop indexes past the text) and a positive modulus.
   */
  predicate Runnable(text: string, pattern: string, q: int) {
    1 <= |pattern| <= |text| && q > 0
  }

  /** The window hash of offset i, computed from scratch. */
  function WindowHash(text: string, pattern: string, d: int, q: int, i: nat): int
    requires Runnable(text, pattern, q) && i + |pattern| <= |text|
  {
    Hash(text[i..i + |pattern|], d, q)
  }

  /** Rolling the hash of window i gives the hash of window i + 1. */
  lemma RollWindow(text: string, pattern: string, d: int, q: int, i: nat)
    requires Runnable(text, pattern, q) && i + |pattern| < |text|
    ensures RollHash(WindowHash(text, pattern, d, q, i), Ord(text[i]), Ord(text[i + |pattern|]),
                     Pow(d, |pattern| - 1) % q, d, q)
         == WindowHash(text, pattern, d, q, i + 1)
  {
    RollingHashUpdate(text, i, |pattern|, d, q);
  }

  /** The record emitted before the offset loop. */
  function InitRecord(text: string, pattern: string, d: int, q: int): RkStep
    requires Runnable(text, pattern, q)
  {
    Init(Hash(pattern, d, q), WindowHash(text, pattern, d, q, 0), Pow(d, |pattern| - 1) % q, false, 0, 1)
  }

  /** The record for offset i: a character check only when the hashes agree. */
  function CheckRecord(text: string, pattern: string, d: int, q: int, i: nat): RkStep
    requires Runnable(text, pattern, q) && i + |pattern| <= |text|
  {
    var ph, th := Hash(pattern, d, q), WindowHash(text, pattern, d, q, i);
    if ph == th then
      var c := ComparisonCount(text, pattern, i);
      Check(i, ph, th, OccursAt(text, pattern, i), c, c)
    else
      Check(i, ph, th, false, 0, 1)
  }

  /** The record for rolling the window from offset i to offset i + 1. */
  function RollRecord(text: string, pattern: string, d: int, q: int, i: nat): RkStep
    requires Runnable(text, pattern, q) && i + |pattern| < |text|
  {
    Roll(i, Hash(pattern, d, q), WindowHash(text, pattern, d, q, i + 1), false, 0, 1)
  }

  /** Records for offsets 0..k-1: each check, followed by a roll unless it is the last offset. */
  function OffsetRecords(text: string, pattern: string, d: int, q: int, k: nat): seq<RkStep>
    requires Runnable(text, pattern, q) && k <= |text| - |pattern| + 1
  {
    if k == 0 then []
    else
      OffsetRecords(text, pattern, d, q, k - 1) + [CheckRecord(text, pattern, d, q, k - 1)]
      + (if k - 1 < |text| - |pattern| then [RollRecord(text, pattern, d, q, k - 1)] else [])
  }

  /** The whole trace, with every window hash taken from scratch. */
  function RkTrace(text: string, pattern: string, d: int, q: int): seq<RkStep>
    requires Runnable(text, pattern, q)
  {
    [InitRecord(text, pattern, d, q)] + OffsetRecords(text, pattern, d, q, |text| - |pattern| + 1)
  }

  /** The init loop: fold the first m characters of pattern and text into their hashes. */
  method InitialHashes(text: string, pattern: string, d: int, q: int) returns (pHash: int, tHash: int)
    requires Runnable(text, pattern, q)
    ensures pHash == Hash(pattern, d, q)
    ensures tHash == WindowHash(text, pattern, d, q, 0)
  {
    var m := |pattern|;
    pHash, tHash := 0, 0;
    for k := 0 to m
      invariant pHash == Hash(pattern[..k], d, q)
      invariant tHash == Hash(text[..k], d, q)
    {
      assert pattern[..k + 1][..k] == pattern[..k];
      assert text[..k + 1][..k] == text[..k];
      pHash := Fold(pHash, Ord(pattern[k]), d, q);
      tHash := Fold(tHash, Ord(text[k]), d, q);
    }
    assert pattern[..m] == pattern;
    assert text[..m] == text[0..m];
  }

  /**
   * Returns the match offsets and the trace. The window hash is rolled, never
   * recomputed; the ensures ties it to the from-scratch trace.
   */
  method RabinKarpMatch(text: string, pattern: string, d: int, q: int)
    returns (matches: seq<nat>, iterations: seq<RkStep>)
    requires Runnable(text, pattern, q)
    ensures matches == Occurrences(text, pattern)
    ensures forall p :: p in matches <==> OccursAt(text, pattern, p)
    ensures StrictlyIncreasing(matches)
    ensures iterations == RkTrace(text, pattern, d, q)
  {
    var n, m := |text|, |pattern|;
    matches, iterations := [], [];
    var h := Pow(d, m - 1) % q;
    var pHash, tHash := InitialHashes(text, pattern, d, q);
    iterations := iterations + [Init(pHash, tHash, h, false, 0, 1)];
    for i := 0 to n - m + 1
      invariant pHash == Hash(pattern, d, q)
      invariant i <= n - m ==> tHash == WindowHash(text, pattern, d, q, i)
      invariant matches == OccurrencesBelow(text, pattern, i)
      invariant iterations == [InitRecord(text, pattern, d, q)] + OffsetRecords(text, pattern, d, q, i)
    {
      var comparisons, matchedFlag, detailLines := 0, false, 1;
      if pHash == tHash {
        var confirmed;
        confirmed, comparisons := Naive.CompareWindow(text, pattern, i);
        if confirmed {
          matches := matches + [i];
        }
        matchedFlag, detailLines := confirmed, comparisons;
      } else {
        // equal windows hash alike, so a true occurrence never takes this branch
        assert !OccursAt(text, pattern, i);
      }
      var check := Check(i, pHash, tHash, matchedFlag, comparisons, detailLines);
      assert check == CheckRecord(text, pattern, d, q, i);
      iterations := iterations + [check];
      if i < n - m {
        RollWindow(text, pattern, d, q, i);
        tHash := RollHash(tHash, Ord(text[i]), Ord(text[i + m]), h, d, q);
        var roll := Roll(i, pHash, tHash, false, 0, 1);
        assert roll == RollRecord(text, pattern, d, q, i);
        iterations := iterations + [roll];
      }
      assert OccurrencesBelow(text, pattern, i + 1) ==
        OccurrencesBelow(text, pattern, i) + (if OccursAt(text, pattern, i) then [i] else []);
      assert OffsetRecords(text, pattern, d, q, i + 1) == OffsetRecords(text, pattern, d, q, i)
        + [CheckRecord(text, pattern, d, q, i)]
        + (if i < n - m then [RollRecord(text, pattern, d, q, i)] else []);
    }
    OccurrencesSpec(text, pattern);
  }

  /** One check per offset, and a roll after each offset but n-m. */
  lemma {:induction false} OffsetRecordsLength(text: string, pattern: string, d: int, q: int, k: nat)
    requires Runnable(text, pattern, q) && k <= |text| - |pattern| + 1
    ensures |OffsetRecords(text, pattern, d, q, k)| == if k <= |text| - |pattern| then 2 * k else 2 * k - 1
  {
    if k > 0 {
      OffsetRecordsLength(text, pattern, d, q, k - 1);
    }
  }

  /** The per-offset records alternate check, roll, check, ...: record j is the check or the roll of offset j / 2. */
  lemma {:induction false} OffsetRecordAt(text: string, pattern: string, d: int, q: int, k: nat, j: nat)
    requires Runnable(text, pattern, q) && k <= |text| - |pattern| + 1
    requires j < (if k <= |text| - |pattern| then 2 * k else 2 * k - 1)
    ensures j < |OffsetRecords(text, pattern, d, q, k)|
    ensures OffsetRecords(text, pattern, d, q, k)[j] ==
        if j % 2 == 0 then CheckRecord(text, pattern, d, q, j / 2) else RollRecord(text, pattern, d, q, j / 2)
  {
    OffsetRecordsLength(text, pattern, d, q, k);
    OffsetRecordsLength(text, pattern, d, q, k - 1);
    var prev := OffsetRecords(text, pattern, d, q, k - 1);
    var check := CheckRecord(text, pattern, d, q, k - 1);
    if j < |prev| {
      OffsetRecordAt(text, pattern, d, q, k - 1, j);
      assert OffsetRecords(text, pattern, d, q, k)[j] == prev[j];
    } else if j == |prev| {
      assert j == 2 * (k - 1) && j / 2 == k - 1;
      assert OffsetRecords(text, pattern, d, q, k)[j] == check;
    } else {
      var roll := RollRecord(text, pattern, d, q, k - 1);
      assert OffsetRecords(text, pattern, d, q, k) == prev + [check] + [roll];
      assert j == 2 * k - 1 && j / 2 == k - 1;
    }
  }

  /**
   * A check record for offset i reports a match exactly when the pattern
   * occurs there: equal hashes are necessary for an occurrence, and a hash
   * collision is rejected by the character comparison.
   */
  lemma CheckRecordSpec(text: string, pattern: string, d: int, q: int, i: nat)
    requires Runnable(text, pattern, q) && i + |pattern| <= |text|
    ensures var r := CheckRecord(text, pattern, d, q, i);
      r.Check? && r.index == i &&
      (r.matched <==> OccursAt(text, pattern, i)) &&
      (OccursAt(text, pattern, i) ==> r.pHash == r.tHash) &&
      (r.pHash != r.tHash ==> !r.matched && r.comparisons == 0) &&
      (r.pHash == r.tHash ==> 1 <= r.comparisons <= |pattern| && r.detailLines == r.comparisons)
  {
    ComparisonCountSpec(text, pattern, i);
    if OccursAt(text, pattern, i) {
      assert text[i..i + |pattern|] == pattern;
    }
  }

  /**
   * Record j of the trace, in isolation: the init record at 0, the check of
   * offset (j-1)/2 at odd j, the roll after offset (j-2)/2 at even j > 0.
   */
  lemma TraceRecordAt(text: string, pattern: string, d: int, q: int, j: nat)
    requires Runnable(text, pattern, q) && j < 2 * (|text| - |pattern|) + 2
    ensures j < |RkTrace(text, pattern, d, q)|
    ensures var r := RkTrace(text, pattern, d, q)[j];
      (j == 0 ==> r == InitRecord(text, pattern, d, q)) &&
      (j % 2 == 1 ==> r == CheckRecord(text, pattern, d, q, (j - 1) / 2)) &&
      (j > 0 && j % 2 == 0 ==> r == RollRecord(text, pattern, d, q, (j - 2) / 2))
  {
    var k := |text| - |pattern| + 1;
    OffsetRecordsLength(text, pattern, d, q, k);
    if j > 0 {
      OffsetRecordAt(text, pattern, d, q, k, j - 1);
      assert RkTrace(text, pattern, d, q)[j] == OffsetRecords(text, pattern, d, q, k)[j - 1];
      assert (j - 1) % 2 == 1 ==> (j - 1) / 2 == (j - 2) / 2;
    }
  }

  /**
   * The shape of the whole trace: 1 + (n-m+1) + (n-m) records; an init record
   * first, then check records at odd positions and roll records at even ones,
   * the last record being the check of offset n-m. Init and roll records
   * never compare characters or match, every hash lies in [0, q), and each
   * window hash is the from-scratch hash of its window.
   */
  lemma RkTraceShape(text: string, pattern: string, d: int, q: int)
    requires Runnable(text, pattern, q)
    ensures var t := RkTrace(text, pattern, d, q);
      |t| == 1 + (|text| - |pattern| + 1) + (|text| - |pattern|) &&
      t[|t| - 1].Check? && t[|t| - 1].index == |text| - |pattern| &&
      forall j :: 0 <= j < |t| ==>
        (t[j].Init? <==> j == 0) &&
        (t[j].Check? <==> j % 2 == 1) &&
        (t[j].Roll? <==> j > 0 && j % 2 == 0) &&
        0 <= t[j].pHash < q && 0 <= t[j].tHash < q &&
        (!t[j].Check? ==> !t[j].matched && t[j].comparisons == 0) &&
        (t[j].Check? ==> t[j].index == (j - 1) / 2 && t[j].tHash == WindowHash(text, pattern, d, q, t[j].index)) &&
        (t[j].Roll? ==> t[j].index == (j - 2) / 2 && t[j].tHash == WindowHash(text, pattern, d, q, t[j].index + 1))
  {
    var t := RkTrace(text, pattern, d, q);
    OffsetRecordsLength(text, pattern, d, q, |text| - |pattern| + 1);
    forall j | 0 <= j < |t|
      ensures (t[j].Init? <==> j == 0) &&
        (t[j].Check? <==> j % 2 == 1) &&
        (t[j].Roll? <==> j > 0 && j % 2 == 0) &&
        0 <= t[j].pHash < q && 0 <= t[j].tHash < q &&
        (!t[j].Check? ==> !t[j].matched && t[j].comparisons == 0) &&
        (t[j].Check? ==> t[j].index == (j - 1) / 2 && t[j].tHash == WindowHash(text, pattern, d, q, t[j].index)) &&
        (t[j].Roll? ==> t[j].index == (j - 2) / 2 && t[j].tHash == WindowHash(text, pattern, d, q, t[j].index + 1))
    {
      TraceRecordAt(text, pattern, d, q, j);
    }
    TraceRecordAt(text, pattern, d, q, |t| - 1);
  }
}
