/**
 * The frequency aggregator of the CMC calculator: the similarity matrix, the
 * genuine-match rank of every user, the rank tally, its normalisation by the
 * number of enrollees and the running sum (cum_sum) that turns it into the
 * cumulative matching characteristic curve.
 */
module Curve {
  import opened Wrappers
  import opened Ranking

  /**
   * A similarity matrix: row i holds the scores of user users[i] against the
   * enrollees, column j the scores for enrollee enrollees[j].
   */
  datatype Matrix = Matrix(users: seq<int>, enrollees: seq<int>, scores: seq<seq<real>>)

  predicate Distinct(xs: seq<int>)
  {
    forall i, j :: 0 <= i < j < |xs| ==> xs[i] != xs[j]
  }

  /**
   * One row per user and one score per enrollee in every row; row and column
   * labels are unique; and there is an enrollee to divide by whenever there is
   * a user to rank.
   */
  predicate WellFormed(m: Matrix)
  {
    |m.scores| == |m.users| &&
    (forall i :: 0 <= i < |m.scores| ==> |m.scores[i]| == |m.enrollees|) &&
    Distinct(m.users) && Distinct(m.enrollees) &&
    (|m.users| > 0 ==> |m.enrollees| > 0)
  }

  /** The top n enrollee labels of user i. */
  function RankList(m: Matrix, n: nat, i: nat): (r: seq<int>)
    requires WellFormed(m) && i < |m.users|
    ensures |r| == Min(n, |m.enrollees|)
  {
    UsersArgsort(m.enrollees, m.scores[i], n)
  }

  /**
   * The 0-based position of user i's own label in its rank list, or None when
   * the genuine match is not among the top n.
   */
  function GenuineRank(m: Matrix, n: nat, i: nat): (r: Option<nat>)
    requires WellFormed(m) && i < |m.users|
    ensures r.None? <==> m.users[i] !in RankList(m, n, i)
    ensures r.Some? ==> r.value < n && r.value < |m.enrollees|
    ensures r.Some? ==> RankList(m, n, i)[r.value] == m.users[i]
  {
    FirstIndex(RankList(m, n, i), m.users[i])
  }

  function GenuineRanks(m: Matrix, n: nat): (rs: seq<Option<nat>>)
    requires WellFormed(m)
    ensures |rs| == |m.users|
  {
    seq(|m.users|, i requires 0 <= i < |m.users| => GenuineRank(m, n, i))
  }

  /** How many of the first k ranks are exactly r. */
  function Count(rs: seq<Option<nat>>, k: nat, r: nat): nat
    requires k <= |rs|
  {
    if k == 0 then 0 else Count(rs, k - 1, r) + (if rs[k - 1] == Some(r) then 1 else 0)
  }

  /** How many of the first k ranks are found and below r. */
  function CountBelow(rs: seq<Option<nat>>, k: nat, r: nat): nat
    requires k <= |rs|
  {
    if k == 0 then 0
    else CountBelow(rs, k - 1, r) + (if rs[k - 1].Some? && rs[k - 1].value < r then 1 else 0)
  }

  /** How many of the first k ranks are found at all. */
  function Hits(rs: seq<Option<nat>>, k: nat): nat
    requires k <= |rs|
  {
    if k == 0 then 0 else Hits(rs, k - 1) + (if rs[k - 1].Some? then 1 else 0)
  }

  /** The rank tally ranks_freq: entry r counts the users found at rank r. */
  function Tally(rs: seq<Option<nat>>, n: nat): (c: seq<nat>)
    ensures |c| == n
    ensures forall r :: 0 <= r < n ==> c[r] <= |rs|
  {
    var c := seq(n, r requires 0 <= r < n => Count(rs, |rs|, r));
    assert forall r :: 0 <= r < n ==> c[r] <= |rs| by {
      forall r | 0 <= r < n {
        CountAtMost(rs, |rs|, r);
      }
    }
    c
  }

  /** No more than k of the first k users sit at any one rank. */
  lemma {:induction false} CountAtMost(rs: seq<Option<nat>>, k: nat, r: nat)
    requires k <= |rs|
    ensures Count(rs, k, r) <= k
  {
    if k > 0 {
      CountAtMost(rs, k - 1, r);
    }
  }

  function Total(c: seq<nat>): nat
  {
    if c == [] then 0 else Total(c[..|c| - 1]) + c[|c| - 1]
  }

  /** A count of users as a share of e enrollees. */
  function Rate(k: nat, e: nat): real
    requires e > 0
  {
    k as real / e as real
  }

  /** Every count divided by the number of enrollees. */
  function Normalize(c: seq<nat>, e: nat): (f: seq<real>)
    requires e > 0 || c == []
    ensures |f| == |c|
    ensures forall k :: 0 <= k < |c| ==> 0.0 <= f[k] && f[k] * e as real == c[k] as real
  {
    seq(|c|, k requires 0 <= k < |c| => Rate(c[k], e))
  }

  function Sum(s: seq<real>): real
  {
    if s == [] then 0.0 else Sum(s[..|s| - 1]) + s[|s| - 1]
  }

  /** The running totals of s, the value of list(cum_sum(s)). */
  function PrefixSums(s: seq<real>): (p: seq<real>)
    ensures |p| == |s|
    ensures |s| > 0 ==> p[|s| - 1] == Sum(s)
  {
    assert s[..|s|] == s;
    seq(|s|, k requires 0 <= k < |s| => Sum(s[..k + 1]))
  }

  /** The source's cum_sum: one running total per element, element k the sum of s[0..k]. */
  method CumSum(s: seq<real>) returns (out: seq<real>)
    ensures |out| == |s|
    ensures forall k :: 0 <= k < |s| ==> out[k] == Sum(s[..k + 1])
  {
    var total := 0.0;
    out := [];
    for i := 0 to |s|
      invariant |out| == i
      invariant total == Sum(s[..i])
      invariant forall k :: 0 <= k < i ==> out[k] == Sum(s[..k + 1])
    {
      assert s[..i + 1][..i] == s[..i];
      total := total + s[i];
      out := out + [total];
    }
  }

  /** The CMC curve for a rank window of n: entry r is the recognition rate within the top r+1. */
  function CmcCurve(m: Matrix, n: nat): (c: seq<real>)
    requires WellFormed(m) && n <= |m.users|
    ensures |c| == n
  {
    PrefixSums(Normalize(Tally(GenuineRanks(m, n), n), |m.enrollees|))
  }

  // ---------------------------------------------------------------------------
  // Running sums

  lemma SumStep(s: seq<real>, k: nat)
    requires k < |s|
    ensures Sum(s[..k + 1]) == Sum(s[..k]) + s[k]
  {
    assert s[..k + 1][..k] == s[..k];
  }

  /** cum_sum can be undone by taking differences: it loses nothing. */
  lemma PrefixSumsDifferences(s: seq<real>, k: nat)
    requires k < |s|
    ensures |PrefixSums(s)| == |s|
    ensures PrefixSums(s)[k] == (if k == 0 then 0.0 else PrefixSums(s)[k - 1]) + s[k]
  {
    SumStep(s, k);
    if k == 0 {
      assert s[..0] == [];
    }
  }

  /** The docstring's example: cum_sum([0, 1, 2]) is [0, 1, 3]. */
  lemma PrefixSumsExample()
    ensures PrefixSums([0.0, 1.0, 2.0]) == [0.0, 1.0, 3.0]
  {
    var s := [0.0, 1.0, 2.0];
    SumStep(s, 0);
    SumStep(s, 1);
    SumStep(s, 2);
    assert s[..0] == [];
  }

  // ---------------------------------------------------------------------------
  // Counting

  lemma {:induction false} CountBelowStep(rs: seq<Option<nat>>, k: nat, r: nat)
    requires k <= |rs|
    ensures CountBelow(rs, k, r + 1) == CountBelow(rs, k, r) + Count(rs, k, r)
  {
    if k > 0 {
      CountBelowStep(rs, k - 1, r);
    }
  }

  lemma {:induction false} CountBelowMonotone(rs: seq<Option<nat>>, k: nat, a: nat, b: nat)
    requires k <= |rs| && a <= b
    ensures CountBelow(rs, k, a) <= CountBelow(rs, k, b)
  {
    if k > 0 {
      CountBelowMonotone(rs, k - 1, a, b);
    }
  }

  /** When every found rank lies below n, counting below n counts every hit. */
  lemma {:induction false} CountBelowAll(rs: seq<Option<nat>>, k: nat, n: nat)
    requires k <= |rs|
    requires forall i :: 0 <= i < |rs| && rs[i].Some? ==> rs[i].value < n
    ensures CountBelow(rs, k, n) == Hits(rs, k)
  {
    if k > 0 {
      CountBelowAll(rs, k - 1, n);
    }
  }

  lemma {:induction false} HitsAtMost(rs: seq<Option<nat>>, k: nat)
    requires k <= |rs|
    ensures Hits(rs, k) <= k
  {
    if k > 0 {
      HitsAtMost(rs, k - 1);
    }
  }

  lemma {:induction false} CountBelowZero(rs: seq<Option<nat>>, k: nat)
    requires k <= |rs|
    ensures CountBelow(rs, k, 0) == 0
  {
    if k > 0 {
      CountBelowZero(rs, k - 1);
    }
  }

  /** The first r entries of the tally add up to the users found below rank r. */
  lemma {:induction false} TallyPrefixTotal(rs: seq<Option<nat>>, n: nat, r: nat)
    requires r <= n
    ensures Total(Tally(rs, n)[..r]) == CountBelow(rs, |rs|, r)
  {
    var c := Tally(rs, n);
    if r == 0 {
      assert c[..0] == [];
      CountBelowZero(rs, |rs|);
    } else {
      TallyPrefixTotal(rs, n, r - 1);
      assert c[..r][..r - 1] == c[..r - 1];
      CountBelowStep(rs, |rs|, r - 1);
    }
  }

  /** Normalising and summing the first r counts is summing and then normalising. */
  lemma {:induction false} NormalizedPrefixSum(c: seq<nat>, e: nat, r: nat)
    requires e > 0 && r <= |c|
    ensures Sum(Normalize(c, e)[..r]) == Rate(Total(c[..r]), e)
  {
    var f := Normalize(c, e);
    if r == 0 {
      assert f[..0] == [] && c[..0] == [];
    } else {
      NormalizedPrefixSum(c, e, r - 1);
      SumStep(f, r - 1);
      assert c[..r][..r - 1] == c[..r - 1];
      assert Total(c[..r]) == Total(c[..r - 1]) + c[r - 1];
      RateAdd(Total(c[..r - 1]), c[r - 1], e);
    }
  }

  lemma RateAdd(a: nat, b: nat, e: nat)
    requires e > 0
    ensures Rate(a, e) + Rate(b, e) == Rate(a + b, e)
  {
  }

  // ---------------------------------------------------------------------------
  // Properties of the computation

  /** Every genuine rank that is found indexes inside a tally of length n. */
  lemma FoundRanksInWindow(m: Matrix, n: nat)
    requires WellFormed(m)
    ensures forall i :: 0 <= i < |m.users| && GenuineRanks(m, n)[i].Some? ==> GenuineRanks(m, n)[i].value < n
  {
  }

  /** The tally adds up to the number of users whose genuine match was found, at most the users. */
  lemma TallyTotal(m: Matrix, n: nat)
    requires WellFormed(m)
    ensures |Tally(GenuineRanks(m, n), n)| == n
    ensures Total(Tally(GenuineRanks(m, n), n)) == Hits(GenuineRanks(m, n), |m.users|) <= |m.users|
    ensures Hits(GenuineRanks(m, n), |m.users|) <= |m.enrollees|
  {
    var rs := GenuineRanks(m, n);
    var c := Tally(rs, n);
    TallyPrefixTotal(rs, n, n);
    assert c[..n] == c;
    CountBelowAll(rs, |rs|, n);
    HitsAtMost(rs, |rs|);
    HitsAtMostEnrollees(m, n);
  }

  /**
   * The meaning of the curve: entry r is the number of users whose genuine
   * match is among their top r+1 enrollees, divided by the number of enrollees.
   */
  lemma CurveAt(m: Matrix, n: nat, r: nat)
    requires WellFormed(m) && n <= |m.users| && r < n
    ensures |CmcCurve(m, n)| == n
    ensures |m.enrollees| > 0 && CmcCurve(m, n)[r] == Rate(CountBelow(GenuineRanks(m, n), |m.users|, r + 1), |m.enrollees|)
  {
    var rs := GenuineRanks(m, n);
    var c := Tally(rs, n);
    NormalizedPrefixSum(c, |m.enrollees|, r + 1);
    TallyPrefixTotal(rs, n, r + 1);
  }

  /** The curve never decreases and never drops below zero. */
  lemma CurveNonDecreasing(m: Matrix, n: nat, i: nat, j: nat)
    requires WellFormed(m) && n <= |m.users| && i <= j < n
    ensures 0.0 <= CmcCurve(m, n)[i] <= CmcCurve(m, n)[j]
  {
    CurveAt(m, n, i);
    CurveAt(m, n, j);
    CountBelowRates(GenuineRanks(m, n), |m.users|, |m.enrollees|, i, j);
  }

  /** The share found below rank i+1 is at most the share found below rank j+1. */
  lemma CountBelowRates(rs: seq<Option<nat>>, k: nat, e: nat, i: nat, j: nat)
    requires k <= |rs| && e > 0 && i <= j
    ensures 0.0 <= Rate(CountBelow(rs, k, i + 1), e) <= Rate(CountBelow(rs, k, j + 1), e)
  {
    CountBelowMonotone(rs, k, i + 1, j + 1);
    RateMonotone(CountBelow(rs, k, i + 1), CountBelow(rs, k, j + 1), e);
  }

  lemma RateAtMostOne(a: nat, e: nat)
    requires a <= e && e > 0
    ensures Rate(a, e) <= 1.0
  {
  }

  lemma RateMonotone(a: nat, b: nat, e: nat)
    requires a <= b && e > 0
    ensures 0.0 <= Rate(a, e) <= Rate(b, e)
  {
  }

  /** The last entry is the share of users found at all: hits over enrollees. */
  lemma CurveLast(m: Matrix, n: nat)
    requires WellFormed(m) && 0 < n <= |m.users|
    ensures |m.enrollees| > 0 && CmcCurve(m, n)[n - 1] == Rate(Hits(GenuineRanks(m, n), |m.users|), |m.enrollees|)
  {
    CurveAt(m, n, n - 1);
    CountBelowAll(GenuineRanks(m, n), |m.users|, n);
  }

  /** Every entry is a rate in [0, 1]. */
  lemma CurveAtMostOne(m: Matrix, n: nat, r: nat)
    requires WellFormed(m) && n <= |m.users| && r < n
    ensures 0.0 <= CmcCurve(m, n)[r] <= 1.0
  {
    var rs := GenuineRanks(m, n);
    var c := CmcCurve(m, n);
    var h := Hits(rs, |rs|);
    CurveNonDecreasing(m, n, r, n - 1);
    CurveLast(m, n);
    HitsAtMostEnrollees(m, n);
    RateAtMostOne(h, |m.enrollees|);
    assert c[r] <= c[n - 1];
  }

  /** With fewer users than enrollees, no entry reaches 1. */
  lemma CurveBelowOne(m: Matrix, n: nat, r: nat)
    requires WellFormed(m) && n <= |m.users| < |m.enrollees| && r < n
    ensures CmcCurve(m, n)[r] < 1.0
  {
    var rs := GenuineRanks(m, n);
    var c := CmcCurve(m, n);
    var h := Hits(rs, |rs|);
    CurveNonDecreasing(m, n, r, n - 1);
    CurveLast(m, n);
    HitsAtMost(rs, |rs|);
    RateBelowOne(h, |m.enrollees|);
    assert c[r] <= c[n - 1];
  }

  lemma RateBelowOne(a: nat, e: nat)
    requires a < e
    ensures Rate(a, e) < 1.0
  {
  }

  /** The labels of the first k users whose genuine match was found. */
  ghost function HitLabels(rs: seq<Option<nat>>, users: seq<int>, k: nat): set<int>
    requires k <= |rs| && k <= |users|
  {
    if k == 0 then {}
    else if rs[k - 1].Some? then HitLabels(rs, users, k - 1) + {users[k - 1]}
    else HitLabels(rs, users, k - 1)
  }

  /** A later user's label is not among the hit labels of the users before it. */
  lemma {:induction false} HitLabelsExclude(rs: seq<Option<nat>>, users: seq<int>, k: nat, j: nat)
    requires |rs| == |users| && Distinct(users) && k <= j < |users|
    ensures users[j] !in HitLabels(rs, users, k)
  {
    if k > 0 {
      HitLabelsExclude(rs, users, k - 1, j);
    }
  }

  /** With distinct users, there are as many hit labels as hits. */
  lemma {:induction false} HitLabelsCount(rs: seq<Option<nat>>, users: seq<int>, k: nat)
    requires |rs| == |users| && Distinct(users) && k <= |users|
    ensures |HitLabels(rs, users, k)| == Hits(rs, k)
  {
    if k > 0 {
      HitLabelsCount(rs, users, k - 1);
      HitLabelsExclude(rs, users, k - 1, k - 1);
    }
  }

  /** Hit labels are drawn from the labels of the found users. */
  lemma {:induction false} HitLabelsWithin(rs: seq<Option<nat>>, users: seq<int>, labels: seq<int>, k: nat)
    requires |rs| == |users| && k <= |users|
    requires forall i :: 0 <= i < |rs| && rs[i].Some? ==> users[i] in labels
    ensures forall u :: u in HitLabels(rs, users, k) ==> u in labels
  {
    if k > 0 {
      HitLabelsWithin(rs, users, labels, k - 1);
    }
  }

  /** A user is found only in its own rank list, so a found user's label is an enrollee label. */
  lemma FoundIsEnrolled(m: Matrix, n: nat, i: nat)
    requires WellFormed(m) && i < |m.users| && GenuineRank(m, n, i).Some?
    ensures m.users[i] in m.enrollees
  {
    assert RankList(m, n, i)[GenuineRank(m, n, i).value] in m.enrollees;
  }

  /** A set whose elements all occur in s has at most |s| elements. */
  lemma {:induction false} SetInSeqSize(xs: set<int>, s: seq<int>)
    requires forall u :: u in xs ==> u in s
    ensures |xs| <= |s|
  {
    if s == [] {
      assert forall u :: u !in xs;
      assert xs == {};
    } else {
      var rest := xs - {s[0]};
      assert forall u :: u in rest ==> u in s[1..];
      SetInSeqSize(rest, s[1..]);
      if s[0] in xs {
        assert xs == rest + {s[0]};
      } else {
        assert xs == rest;
      }
    }
  }

  /** Distinct users hit distinct enrollee labels: there are never more hits than enrollees. */
  lemma HitsAtMostEnrollees(m: Matrix, n: nat)
    requires WellFormed(m)
    ensures Hits(GenuineRanks(m, n), |m.users|) <= |m.enrollees|
  {
    var rs := GenuineRanks(m, n);
    forall i | 0 <= i < |rs| && rs[i].Some? ensures m.users[i] in m.enrollees {
      FoundIsEnrolled(m, n, i);
    }
    HitLabelsCount(rs, m.users, |m.users|);
    HitLabelsWithin(rs, m.users, m.enrollees, |m.users|);
    SetInSeqSize(HitLabels(rs, m.users, |m.users|), m.enrollees);
  }

  /** With a window covering every enrollee, a user enrolled under its own label is always found. */
  lemma FullWindowFinds(m: Matrix, n: nat, i: nat)
    requires WellFormed(m) && i < |m.users| && |m.enrollees| <= n && m.users[i] in m.enrollees
    ensures GenuineRank(m, n, i).Some?
  {
    var row := m.scores[i];
    var all := SortColumns(row, |row|);
    assert TopColumns(row, n) == all;
    var j :| 0 <= j < |m.enrollees| && m.enrollees[j] == m.users[i];
    assert j in all;
    var k :| 0 <= k < |all| && all[k] == j;
    assert RankList(m, n, i)[k] == m.users[i];
  }

  lemma {:induction false} AllFoundHits(rs: seq<Option<nat>>, k: nat)
    requires k <= |rs| && forall i :: 0 <= i < k ==> rs[i].Some?
    ensures Hits(rs, k) == k
  {
    if k > 0 {
      AllFoundHits(rs, k - 1);
    }
  }

  /**
   * When the users are exactly the enrollees and the window covers them all,
   * every user is found and the curve ends at 1.
   */
  lemma CurveReachesOne(m: Matrix, n: nat)
    requires WellFormed(m) && 0 < n == |m.users| == |m.enrollees|
    requires forall i :: 0 <= i < |m.users| ==> m.users[i] in m.enrollees
    ensures CmcCurve(m, n)[n - 1] == 1.0
  {
    var rs := GenuineRanks(m, n);
    forall i | 0 <= i < |m.users| ensures rs[i].Some? {
      FullWindowFinds(m, n, i);
    }
    AllFoundHits(rs, |m.users|);
    CurveLast(m, n);
    RateOfWhole(n);
  }

  lemma RateOfWhole(e: nat)
    requires e > 0
    ensures Rate(e, e) == 1.0
  {
  }

  // ---------------------------------------------------------------------------
  // Narrowing the rank window

  /** A found rank kept only when it lies inside a window of t. */
  function Within(r: Option<nat>, t: nat): Option<nat>
  {
    if r.Some? && r.value < t then r else None
  }

  /** The first occurrence in a prefix is the first occurrence overall, if it lies in the prefix. */
  lemma FirstIndexPrefix(xs: seq<int>, x: int, t: nat)
    requires t <= |xs|
    ensures FirstIndex(xs[..t], x) == Within(FirstIndex(xs, x), t)
  {
    var a, b := FirstIndex(xs[..t], x), FirstIndex(xs, x);
    assert forall k :: 0 <= k < t ==> xs[..t][k] == xs[k];
    if a.Some? {
      assert xs[a.value] == x;
      assert b.Some? && b.value <= a.value;
    }
  }

  /** Cutting the window from n2 down to n1 drops exactly the genuine ranks at or beyond n1. */
  lemma GenuineRankNarrow(m: Matrix, n1: nat, n2: nat, i: nat)
    requires WellFormed(m) && n1 <= n2 && i < |m.users|
    ensures GenuineRank(m, n1, i) == Within(GenuineRank(m, n2, i), n1)
  {
    var row := m.scores[i];
    var all := SortColumns(row, |row|);
    var t1, t2 := Min(n1, |row|), Min(n2, |row|);
    assert TopColumns(row, n1) == all[..t2][..t1];
    assert RankList(m, n1, i) == RankList(m, n2, i)[..t1];
    FirstIndexPrefix(RankList(m, n2, i), m.users[i], t1);
  }

  lemma {:induction false} CountAgree(rs1: seq<Option<nat>>, rs2: seq<Option<nat>>, k: nat, r: nat)
    requires k <= |rs1| == |rs2|
    requires forall i :: 0 <= i < |rs1| ==> (rs1[i] == Some(r) <==> rs2[i] == Some(r))
    ensures Count(rs1, k, r) == Count(rs2, k, r)
  {
    if k > 0 {
      CountAgree(rs1, rs2, k - 1, r);
    }
  }

  /** Cutting the window from n2 to n1 cuts the tally to its first n1 entries. */
  lemma TallyNarrow(m: Matrix, n1: nat, n2: nat)
    requires WellFormed(m) && n1 <= n2
    ensures Tally(GenuineRanks(m, n1), n1) == Tally(GenuineRanks(m, n2), n2)[..n1]
  {
    var rs1, rs2 := GenuineRanks(m, n1), GenuineRanks(m, n2);
    forall i | 0 <= i < |m.users| ensures rs1[i] == Within(rs2[i], n1) {
      GenuineRankNarrow(m, n1, n2, i);
    }
    var c1, c2 := Tally(rs1, n1), Tally(rs2, n2);
    forall r | 0 <= r < n1 ensures c1[r] == c2[r] {
      CountAgree(rs1, rs2, |rs1|, r);
    }
  }

  lemma NormalizePrefix(c: seq<nat>, e: nat, t: nat)
    requires e > 0 && t <= |c|
    ensures Normalize(c[..t], e) == Normalize(c, e)[..t]
  {
  }

  lemma {:induction false} PrefixSumsPrefix(s: seq<real>, t: nat)
    requires t <= |s|
    ensures PrefixSums(s[..t]) == PrefixSums(s)[..t]
  {
    forall k | 0 <= k < t ensures PrefixSums(s[..t])[k] == PrefixSums(s)[k] {
      assert s[..t][..k + 1] == s[..k + 1];
    }
  }

  /**
   * A curve computed for a wider window starts with the curve for a narrower
   * one: the cached curve still answers every rank of a window that shrank.
   */
  lemma CurvePrefixStable(m: Matrix, n1: nat, n2: nat)
    requires WellFormed(m) && n1 <= n2 <= |m.users|
    ensures CmcCurve(m, n1) == CmcCurve(m, n2)[..n1]
  {
    var c2 := Tally(GenuineRanks(m, n2), n2);
    TallyNarrow(m, n1, n2);
    if n2 > 0 {
      NormalizePrefix(c2, |m.enrollees|, n1);
    } else {
      assert c2 == [];
    }
    PrefixSumsPrefix(Normalize(c2, |m.enrollees|), n1);
  }
}
