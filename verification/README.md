# String-matching engine: naive and Rabin–Karp, instrumented

A model of the matching core of a small string-matching visualiser
(`daa_miniproject.py`). The page takes a text and a pattern, validates them,
and runs two substring-search algorithms that each return the offsets where
the pattern occurs together with a per-step trace:

- **Validator** (`validate_inputs`): rejects an empty text or pattern, a
  pattern longer than the text, and a text over 20,000 characters; otherwise
  returns both inputs unchanged. Modelled as the function `Validation.Validate`
  returning a `Result` whose error constructors are the three messages.
- **Naive matcher** (`naive_string_matching_instrumented`): tries offsets
  `0..n-m` in increasing order, compares left to right stopping at the first
  mismatch, and emits one record per offset (index, matched flag, number of
  comparisons). Modelled as the method `Naive.NaiveMatch` with a `for` loop over
  offsets, and `Naive.CompareWindow`, the inner comparison loop with its
  `break`, which both matchers share.
- **Rabin–Karp matcher** (`rabin_karp_instrumented`, base `d = 256`, modulus
  `q = 101` by default): folds the first `m` characters into a pattern hash and
  a window hash (`RabinKarp.InitialHashes`), emits an init record, then per
  offset emits a check record (character comparison only when the hashes are
  equal) and, except after the last offset, rolls the window hash with
  `(d*(t - ord(text[i])*h) + ord(text[i+m])) % q`, `h = d^(m-1) mod q`, and
  emits a roll record. Modelled as the method `RabinKarp.RabinKarpMatch`.
- **The run** (lines 236-240): validate, then run both matchers; modelled as
  `Analysis.Run`.

Each method is proved against specification functions in module `Matching`:
`OccursAt` (the pattern equals `text[i..i+m)`), `Occurrences` (all such
offsets in increasing order), `CommonPrefixLength` and `ComparisonCount` (the
comparisons a stop-at-first-mismatch scan makes at one offset). The Rabin–Karp
trace is specified by `RabinKarp.RkTrace`, which takes every window hash
from scratch (`RollingHash.Hash`); the method computes it by rolling, so its
postcondition `iterations == RkTrace(...)` carries the rolling-hash
correctness, proved in `RollingHash.RollingHashUpdate`.

Trace records are a tagged union `RkStep = Init | Check | Roll`; a roll
record's `index` is the offset it follows (the source writes `i + 0.5` only to
order it after the check), and the `Init` tag takes the place of the init
record's `index` of -1, so `Init` carries no index. Every record keeps the `matched` and `comparisons`
fields the source writes on every row, plus `detailLines`, the number of
display lines the step produces.

Characters are Dafny `char`s and `ord(c)` is `c as int` (`RollingHash.Ord`).
Python's `%` with a positive divisor and Dafny's `%` both give a non-negative
remainder, so the hash arithmetic is written as in the source.

## Model

| member | source | states |
|---|---|---|
| Validation.Validate | daa_miniproject.py:130-137 | accepts exactly when 1 <= len(pattern) <= len(text) <= 20000 and then returns the inputs unchanged; otherwise the emptiness error, then the pattern-too-long error, then the text-too-large error, in the source's order |
| Validation.LengthBoundary | daa_miniproject.py:135-137 | the 20,000-character bound is inclusive: 20,000 accepted, 20,001 rejected as too large |
| Matching.OffsetCount | daa_miniproject.py:143 | the offsets tried are 0..n-m, none when m > n, and every occurrence lies among them |
| Matching.OccurrencesSpec | daa_miniproject.py:143-156 | the reported offsets are exactly the i with text[i..i+m) == pattern, strictly increasing, each within [0, n-m] |
| Matching.CommonPrefixSpec | daa_miniproject.py:146-153 | the scan stops at the longest common prefix of the window and the pattern: that prefix agrees, the next character differs, and it reaches m exactly on an occurrence |
| Matching.ComparisonCountSpec | daa_miniproject.py:145-153 | comparisons at one offset are m on a match, the common prefix plus one on a mismatch, and between 1 and m for a non-empty pattern |
| Naive.CompareWindow | daa_miniproject.py:145-153 | the short-circuit comparison loop reports a match exactly when the pattern occurs at i, after exactly ComparisonCount comparisons |
| Naive.NaiveMatch | daa_miniproject.py:140-165 | matches are exactly the occurrences, strictly increasing; one record per offset 0..n-m with index k, matched iff the pattern occurs at k, the comparison count of a short-circuit scan, and one detail line per comparison |
| RollingHash.Fold | daa_miniproject.py:175-176 | one fold step leaves the hash in [0, q) |
| RollingHash.Hash | daa_miniproject.py:174-176 | the folded hash of any string lies in [0, q) |
| RollingHash.HashIsPolyMod | daa_miniproject.py:174-176 | reducing mod q after every fold step equals reducing the polynomial sum of code points once |
| RollingHash.PolyLeading | daa_miniproject.py:170 | the leading character of a window weighs ord(c) * d^(m-1) in the polynomial hash, which is why the roll subtracts ord(text[i]) * h |
| RollingHash.RollHash | daa_miniproject.py:214 | the source's roll expression; RollingHashUpdate proves it gives the from-scratch hash of the next window |
| RollingHash.RollingHashUpdate | daa_miniproject.py:214 | rolling the hash of text[i..i+m) with h = d^(m-1) mod q gives the hash of text[i+1..i+m+1) computed from scratch |
| RabinKarp.InitialHashes | daa_miniproject.py:171-176 | the init loop leaves the pattern hash and the hash of the first window, each as the from-scratch fold |
| RabinKarp.InitRecord | daa_miniproject.py:178-184 | the pattern hash and first-window hash as from-scratch folds, h = d^(m-1) mod q, not matched, 0 comparisons, one detail line |
| RabinKarp.RollRecord | daa_miniproject.py:216-222 | the offset it follows, the pattern hash, the from-scratch hash of the next window, not matched, 0 comparisons, one detail line |
| RabinKarp.RabinKarpMatch | daa_miniproject.py:167-223 | matches are exactly the occurrences (so equal to the naive matcher's), strictly increasing; the emitted trace equals the trace whose window hashes are all computed from scratch |
| RabinKarp.RollWindow | daa_miniproject.py:212-214 | rolling the hash of window i past text[i] and onto text[i+m] gives the from-scratch hash of window i+1 |
| RabinKarp.OffsetRecordsLength | daa_miniproject.py:185-222 | the offset loop emits one check per offset and one roll per offset except n-m: 2k records after k offsets, 2k-1 once the last offset is done |
| RabinKarp.OffsetRecordAt | daa_miniproject.py:185-222 | the per-offset records alternate: record j is the check of offset j/2 when j is even and the roll after offset j/2 when j is odd |
| RabinKarp.TraceRecordAt | daa_miniproject.py:178-222 | record j of the whole trace is the init record at 0, the check of offset (j-1)/2 at odd j, the roll after offset (j-2)/2 at even j > 0 |
| RabinKarp.CheckRecordSpec | daa_miniproject.py:186-211 | a check reports a match exactly on an occurrence: equal hashes are necessary, a collision is rejected by comparison; differing hashes mean 0 comparisons and no match |
| RabinKarp.RkTraceShape | daa_miniproject.py:178-222 | the trace has 1 + (n-m+1) + (n-m) records: init first, checks at odd and rolls at even positions, the last a check of offset n-m; init and roll records never compare or match; hashes lie in [0, q) and equal the from-scratch hash of their window |
| Analysis.Run | daa_miniproject.py:236-240 | an invalid input yields the validator's error and no matcher result; a valid one yields naive and Rabin–Karp matches that are equal and exactly the occurrences, n-m+1 naive records each with its offset, matched exactly on an occurrence, the short-circuit comparison count and one detail line per comparison, and the specified Rabin–Karp trace for base 256 and modulus 101 |
| Analysis.DefaultInputScenario | daa_miniproject.py:229-230 | on the page's default text and pattern the only occurrence is offset 10 |
| Analysis.OverlappingScenario | daa_miniproject.py:143-156 | overlapping occurrences are all reported: "AA" in "AAAA" at 0, 1, 2 |
| Analysis.DisjointScenario | daa_miniproject.py:145-153 | "XYZ" in "ABC": no occurrence, and the only offset stops after one comparison |

## Left out

- Page layout, CSS/HTML, input widgets, buttons, metrics, tables, expanders, charts and footer (lines 1-127, 225-297): presentation only.
- The total-runtime pie and its float sum of step timings (lines 276-282): presentation and floating point. The source has no other summary of a trace (no total of comparisons), so none is modelled.
- Step timings from `time.perf_counter_ns`: nondeterministic wall-clock values, not modelled.
- `sys.getsizeof` memory estimates: a CPython-specific foreign call, not modelled.
- The text of the detail lines: only their number per step is modelled (`detailLines`).
- The error display in the `except` branch (lines 293-294): the model returns the error value instead.
- RabinKarp.RabinKarpMatch: requires 1 <= m <= n and q > 0. With m > n the source's init loop indexes past the end of the text and raises; with m = 0 it asks `pow` for d^-1 mod q; with q == 0 `pow` raises; with q < 0 the source runs and its hashes lie in (q, 0], which the model does not cover. The page only calls it on validated input with the default q = 101 (line 240).
- Python strings may hold lone surrogate code points, which a Dafny `char` cannot; `ord` is otherwise the same.
- A prime modulus and a base coprime to it are not needed by the code or assumed by the model: every property above holds for any integer base and any positive modulus.
