# CMC calculator — a Dafny model

This project models the Cumulative Matching Characteristic (CMC) calculator of
`BioAssigment1/CMC.py`. The calculator takes a similarity matrix with one row
per user (probe) and one column per enrollee (gallery entry). For every user it
sorts the enrollees by descending similarity and keeps the top `n_ranks` of
them. It then finds the 0-based position of the user's own label in that list,
which is the *genuine rank*. It tallies the genuine ranks, divides the tally by
the number of enrollees, and stores the running sum as the CMC curve. Entry
`r - 1` of the curve is the recognition rate within the top `r` ranks.

The project has four modules:

- `Wrappers` (`wrappers.dfy`) holds the `Option` and `Result` datatypes.
- `Ranking` (`ranking.dfy`) covers `_users_argsort` and the first-occurrence
  search of `_find_correct_rank`.
  - The sort is specified as a stable descending order of column positions
    (`Before`, `RankedBy`). It is built by insertion (`SortColumns`) and proved
    to be the only such order.
- `Curve` (`curve.dfy`) covers the value side of the computation:
  - the similarity matrix (`Matrix`, `WellFormed`);
  - the genuine ranks and the rank tally;
  - the normalisation and `cum_sum`;
  - the curve as a function (`CmcCurve`), with lemmas that give it meaning:
    - entry `r` is the share of users found in the top `r + 1`;
    - the curve is non-decreasing;
    - it never exceeds one, and it ends at one when the users are exactly the
      enrollees and the window covers them all;
    - the curve for a narrower window is a prefix of the curve for a wider one.
- `Cmc` (`cmc.dfy`) is the `CMC` object, as class `Calculator`. It has:
  - fields for the matrix, the clamped window `n_ranks`, the per-user rank
    lists `ranks` and the lazily filled cache `cumulative_freq`;
  - the `n_ranks` setter;
  - `compute_CMC_curve`, written as an imperative loop over the users that
    fills an array tally;
  - `_get_rank_cmc`, which uses Python list indexing.

The tally is divided by the number of enrollees, not the number of users.
Distinct users can only be found under distinct enrollee labels, so the rate
never exceeds one (`Curve.HitsAtMostEnrollees`, `Curve.CurveAtMostOne`). It
falls short of one whenever there are fewer users than enrollees
(`Curve.CurveBelowOne`), and it can reach one when users outnumber enrollees,
since users without an enrollee column do not lower it.

The docstring of `compute_CMC_curve` (CMC.py line 60) speaks of ranks 1 to
`n_ranks`, and the error message of `_get_rank_cmc` (lines 84-86) refuses ranks
without a computed value. The code only rejects ranks above `n_ranks`, though.
Rank 0 and negative ranks index the cached curve from its end
(`Cmc.RankZeroReadsLast`). The model follows the code and records this under
"## Findings".

## Model

| member | source | states |
|---|---|---|
| Ranking.Insert | BioAssigment1/CMC.py:47-48 | inserting a later column into a stable descending order gives a stable descending order with exactly one more column |
| Ranking.SortColumns | BioAssigment1/CMC.py:47-48 | `sorted(..., reverse=True)` over the columns lists every column exactly once, in stable descending score order |
| Ranking.TopColumns | BioAssigment1/CMC.py:47-48 | the `[:n_ranks]` cut keeps min(n, #columns) columns in order, and every kept column ranks before every dropped one |
| Ranking.RankedUnique | BioAssigment1/CMC.py:47-48 | a stable descending order of a given set of columns is unique |
| Ranking.TopColumnsIsStableSort | BioAssigment1/CMC.py:47-48 | any stable descending order of all columns, cut to n, equals the argsort's result |
| Ranking.UsersArgsort | BioAssigment1/CMC.py:47-48 | the argsort returns min(n_ranks, #enrollees) enrollee labels |
| Ranking.UsersArgsortDistinct | BioAssigment1/CMC.py:47-48 | with distinct enrollee labels the rank list repeats no label |
| Ranking.FirstIndex | BioAssigment1/CMC.py:53-54 | `next(rank for ...)` finds the first position holding x, and finds nothing exactly when x is absent |
| Curve.RankList | BioAssigment1/CMC.py:64 | the list stored for a user has min(n_ranks, #enrollees) entries |
| Curve.GenuineRank | BioAssigment1/CMC.py:50-57 | the genuine rank is None exactly when the user's label is not among its top n, and otherwise is a position below n that holds the label |
| Curve.GenuineRanks | BioAssigment1/CMC.py:63-66 | one genuine rank per user |
| Curve.FoundRanksInWindow | BioAssigment1/CMC.py:68-69 | every found rank indexes inside the tally of length n_ranks, so `ranks_freq[correct_rank]` never fails |
| Curve.Tally | BioAssigment1/CMC.py:62-69 | `ranks_freq`: n_ranks entries, entry r counting the users found at rank r, so none exceeds the number of users |
| Curve.CountAtMost | BioAssigment1/CMC.py:61-69 | no rank holds more users than were visited |
| Curve.TallyTotal | BioAssigment1/CMC.py:61-69 | the tally has n_ranks entries and adds up to the users whose genuine match was found, which is at most the number of users and at most the number of enrollees |
| Curve.HitLabelsCount | BioAssigment1/CMC.py:61-69 | with distinct users, the set of labels of found users has one label per hit |
| Curve.HitLabelsWithin | BioAssigment1/CMC.py:61-69 | the labels of found users are drawn from any list holding every found user's label |
| Curve.FoundIsEnrolled | BioAssigment1/CMC.py:50-57 | a user is found only under its own label in its rank list, so a found user's label is an enrollee label |
| Curve.SetInSeqSize | BioAssigment1/CMC.py:71 | a set of labels all occurring in the enrollee list has at most as many elements as the list |
| Curve.HitsAtMostEnrollees | BioAssigment1/CMC.py:61-71 | the found users never outnumber the enrollees, so the division by #enrollees keeps every rate at most one |
| Curve.TallyPrefixTotal | BioAssigment1/CMC.py:61-69 | the first r tally entries add up to the users found below rank r |
| Curve.CountBelowMonotone | BioAssigment1/CMC.py:61-69 | raising the rank bound never lowers the count of users found below it |
| Curve.CountBelowAll | BioAssigment1/CMC.py:61-69 | when every found rank is below n, counting below n counts every found user |
| Curve.HitsAtMost | BioAssigment1/CMC.py:61-69 | at most one hit per user |
| Curve.Normalize | BioAssigment1/CMC.py:71 | `ranks_freq/len(self.enrrollees)`: one non-negative rate per count, and the rate times #enrollees gives back the count |
| Curve.NormalizedPrefixSum | BioAssigment1/CMC.py:71-73 | normalising then summing the first r entries equals summing then dividing by #enrollees |
| Curve.CumSum | BioAssigment1/CMC.py:6-12 | `cum_sum` yields one running total per element, entry k the sum of elements 0..k |
| Curve.PrefixSums | BioAssigment1/CMC.py:73 | `list(cum_sum(...))`: one running total per element, the last one the sum of all elements |
| Curve.PrefixSumsDifferences | BioAssigment1/CMC.py:6-12 | each running total is the previous total plus the element, so differences recover the input |
| Curve.PrefixSumsExample | BioAssigment1/CMC.py:7-8 | the docstring's example: [0,1,2] gives [0,1,3] |
| Curve.CmcCurve | BioAssigment1/CMC.py:59-74 | the curve for a window of n has n entries |
| Curve.CurveAt | BioAssigment1/CMC.py:59-74 | curve entry r is the number of users whose genuine match is in their top r+1, divided by #enrollees |
| Curve.CurveNonDecreasing | BioAssigment1/CMC.py:71-74 | the curve is non-negative and never decreases |
| Curve.CountBelowRates | BioAssigment1/CMC.py:71-74 | the share found below a higher rank is at least the share found below a lower one |
| Curve.CurveLast | BioAssigment1/CMC.py:71-74 | the last entry is the number of found users divided by #enrollees |
| Curve.CurveAtMostOne | BioAssigment1/CMC.py:71-74 | every entry of the curve lies in [0, 1] |
| Curve.CurveBelowOne | BioAssigment1/CMC.py:71-74 | with fewer users than enrollees every entry is below 1 |
| Curve.FullWindowFinds | BioAssigment1/CMC.py:47-57 | with a window covering every enrollee, a user enrolled under its own label is found |
| Curve.AllFoundHits | BioAssigment1/CMC.py:66-69 | when every visited user is found, there are as many hits as users |
| Curve.CurveReachesOne | BioAssigment1/CMC.py:59-74 | when the users are exactly the enrollees and the window covers them all, the curve ends at 1 |
| Curve.FirstIndexPrefix | BioAssigment1/CMC.py:53-54 | the first occurrence in a prefix is the overall first occurrence when that lies inside the prefix, else none |
| Curve.GenuineRankNarrow | BioAssigment1/CMC.py:47-57 | narrowing the window from n2 to n1 keeps a genuine rank below n1 and drops the others |
| Curve.TallyNarrow | BioAssigment1/CMC.py:61-69 | cutting the window from n2 to n1 cuts the tally to its first n1 entries |
| Curve.NormalizePrefix | BioAssigment1/CMC.py:71 | normalising a prefix of the tally gives the prefix of the normalised tally |
| Curve.PrefixSumsPrefix | BioAssigment1/CMC.py:6-12 | the running totals of a prefix are the prefix of the running totals |
| Curve.CurvePrefixStable | BioAssigment1/CMC.py:59-74 | the curve for a narrower window is the prefix of the curve for a wider one |
| Cmc.Clamp | BioAssigment1/CMC.py:28-35 | negative windows become 0, windows above #users become #users, others are kept |
| Cmc.ClampNearest | BioAssigment1/CMC.py:28-35 | the clamped window is the point of [0, #users] nearest to the request |
| Cmc.PyIndex | BioAssigment1/CMC.py:88 | Python list indexing: succeeds exactly for -len <= i < len, and negative positions count from the end |
| Cmc.RankLookup | BioAssigment1/CMC.py:82-88 | ranks above n_ranks raise the ValueError; ranks 1..n_ranks inside the cache read entry rank-1; in-window ranks beyond the cache raise IndexError |
| Cmc.RankZeroReadsLast | BioAssigment1/CMC.py:88 | rank 0 is answered with the last cached entry |
| Cmc.StaleCacheLookupFails | BioAssigment1/CMC.py:82-88 | a window wider than the cache makes its top rank fail with IndexError |
| Cmc.CheckedRankLookup | BioAssigment1/CMC.py:82-88 | corrected lookup: succeeds exactly for ranks 1..n_ranks and returns entry rank-1; rejects ranks below 1 and above n_ranks |
| Cmc.CheckedAgreesInWindow | BioAssigment1/CMC.py:82-88 | the corrected lookup agrees with the written one for every rank above 0 |
| Cmc.RankTable | BioAssigment1/CMC.py:61-64 | `self.ranks` after the loop: every user has an entry, and it is that user's own rank list |
| Cmc.RankTablePrefix | BioAssigment1/CMC.py:61-64 | after k users every one of them has an entry in `self.ranks` |
| Cmc.RankTablePrefixAt | BioAssigment1/CMC.py:63-64 | each user's entry is its own rank list; a later user never overwrites it |
| Cmc.RankTablePrefixKeys | BioAssigment1/CMC.py:61-64 | after k users only those k have entries |
| Cmc.RankTableContents | BioAssigment1/CMC.py:61-64 | after the loop `self.ranks` maps exactly the users, each to its rank list |
| Cmc.Calculator.Valid | BioAssigment1/CMC.py:74-81 | the object's invariant: a filled cache holds the curve (and `self.ranks` the rank lists) for the window it was computed for, so its length is that window |
| Cmc.Calculator.constructor | BioAssigment1/CMC.py:16-22 | stores the matrix, the clamped window, no rank lists and an empty cache |
| Cmc.Calculator.WithDefaultRanks | BioAssigment1/CMC.py:16-22 | the same with the default window of 100 |
| Cmc.Calculator.SetNRanks | BioAssigment1/CMC.py:28-35 | stores the clamped window and changes nothing else; the cache still covers the window if it did before and the window did not grow |
| Cmc.Calculator.SetNRanksFresh | BioAssigment1/CMC.py:28-35 | corrected setter: stores the clamped window and empties the cache, so the cache never goes stale |
| Cmc.Calculator.FindCorrectRank | BioAssigment1/CMC.py:50-57 | None exactly when the user has no entry or is not in its list; otherwise the first position of the user in its list |
| Cmc.Calculator.RankUser | BioAssigment1/CMC.py:63-69 | one loop pass: stores the user's rank list and adds one to the tally entry of its genuine rank, if any |
| Cmc.Calculator.RankUsers | BioAssigment1/CMC.py:61-69 | the loop leaves `self.ranks` mapping every user to its rank list, and a fresh array equal to the tally of genuine ranks |
| Cmc.Calculator.ComputeCmcCurve | BioAssigment1/CMC.py:59-74 | fills the cache with the CMC curve for the current window and keeps the object's invariant |
| Cmc.Calculator.GetRankCmc | BioAssigment1/CMC.py:76-88 | computes only when the cache is empty, and otherwise changes nothing; returns the lookup of the cache; with a cache covering the window, rank r in 1..n_ranks gives curve entry r-1 |
| Cmc.Calculator.GetRankCmcChecked | BioAssigment1/CMC.py:76-88 | corrected query: an empty cache is filled with the current window's curve, a filled one is left alone; succeeds exactly for ranks 1..n_ranks, answers curve entry rank-1 of the current window, rejects ranks below 1 and above n_ranks |
| Cmc.RepeatedQuery | BioAssigment1/CMC.py:76-88 | asking for the same rank twice gives the same answer |
| Cmc.StaleCacheScenario | BioAssigment1/CMC.py:28-35 | a concrete run: cache a window of 1, widen it to 2, ask for rank 2, and get IndexError |
| Cmc.FreshCacheScenario | BioAssigment1/CMC.py:28-35 | the same run with the corrected setter answers rank 2 with the rate 1.0 |

## Left out

- `plot_CMC_curve` (lines 90-104) is not modelled. It fills the cache when it is empty, as `_get_rank_cmc` does (modelled by `Cmc.Calculator.ComputeCmcCurve`), then draws the cached curve and computes its area with matplotlib and scikit-learn.
- `_set_title` (lines 40-45) and the `name` argument are not modelled. They only feed the plot title.
- The `__main__` block (lines 107-120) is not modelled. It reads a CSV file and prints.
- The `tqdm` progress bar is not modelled.
- Floating point is not modelled. Scores, rates and sums are exact reals. There is no rounding in the division or the running sum.
- A matrix with users but no enrollees is excluded by `Curve.WellFormed`. numpy would produce NaN rates there, and NaN has no exact-real counterpart.
- Duplicate row or column labels are excluded by `Curve.WellFormed`. Looking a row up by label and keying `self.ranks` by user both rely on unique labels.
- Labels are modelled as integers, so `int(user)` in `_find_correct_rank` is the identity. A label that `int` cannot parse raises inside the `try` and yields None; this is not modelled.
- Non-integer `n_ranks` or `rank` arguments are not modelled.
- The matrix is a constant of the object. The source never reassigns it, and replacing it from outside is not modelled.
- `is_defined` (lines 37-39) is modelled only as the emptiness test of the cache (`cumulativeFreq.None?`). Used on any other attribute, it is not modelled.
- Cmc.Calculator.ComputeCmcCurve and Cmc.Calculator.GetRankCmc rely on the well-formedness invariant `Valid`. Calls on a malformed matrix are not modelled.

## Findings

| source | as written | input that shows it | evidently intended | confidence | as-written member | corrected member |
|---|---|---|---|---|---|---|
| BioAssigment1/CMC.py:82-88 | only ranks above `n_ranks` are rejected; rank 0 or a negative rank indexes `cumulative_freq[rank-1]` from the end | `_get_rank_cmc(0)` on a cached curve returns the last entry, the rate for rank `n_ranks` | only ranks 1..n_ranks have a value; others are rejected | not executed | Cmc.RankZeroReadsLast | Cmc.Calculator.GetRankCmcChecked |
| BioAssigment1/CMC.py:28-35 | the `n_ranks` setter leaves `cumulative_freq` in place, so a curve cached for a smaller window is reused | 2x2 matrix [[0,1],[1,0]] with `n_ranks=1`: `_get_rank_cmc(1)`, then `n_ranks = 2`, then `_get_rank_cmc(2)` raises IndexError | changing the window invalidates the cache, so the next query recomputes the curve | not executed | Cmc.StaleCacheScenario | Cmc.Calculator.SetNRanksFresh |
