/**
 * The CMC calculator object: a similarity matrix, a clamped rank window and a
 * lazily computed cumulative-frequency cache that, once filled, is never
 * recomputed.
 */
module Cmc {
  import opened Wrappers
  import opened Ranking
  import opened Curve

  /** The rank window a calculator gets when none is given. */
  const DefaultRanks := 100

  datatype CmcError =
    | RankAboveWindow   // the ValueError raised for a rank beyond n_ranks
    | IndexOutOfRange   // the IndexError of Python list indexing
    | RankBelowWindow   // the corrected lookup's answer for a rank below 1

  /** The rank window forced into [0, hi]. */
  function Clamp(n: int, hi: nat): (r: nat)
    ensures r <= hi
    ensures n < 0 ==> r == 0
    ensures n > hi ==> r == hi
    ensures 0 <= n <= hi ==> r == n
  {
    if n < 0 then 0 else if n > hi then hi else n
  }

  /** Clamping picks the point of [0, hi] nearest to n. */
  lemma ClampNearest(n: int, hi: nat, k: int)
    requires 0 <= k <= hi
    ensures var r := Clamp(n, hi); (if r >= n then r - n else n - r) <= (if k >= n then k - n else n - k)
  {
  }

  /** Python's xs[i]: negative positions count from the end. */
  function PyIndex(xs: seq<real>, i: int): (r: Result<real, CmcError>)
    ensures r.Ok? <==> -|xs| <= i < |xs|
    ensures 0 <= i < |xs| ==> r == Ok(xs[i])
    ensures -|xs| <= i < 0 ==> r == Ok(xs[|xs| + i])
  {
    if 0 <= i < |xs| then Ok(xs[i])
    else if -|xs| <= i < 0 then Ok(xs[|xs| + i])
    else Err(IndexOutOfRange)
  }

  /** The lookup of _get_rank_cmc as written: reject ranks beyond the window, else cf[rank-1]. */
  function RankLookup(cf: seq<real>, nRanks: nat, rank: int): (r: Result<real, CmcError>)
    ensures rank > nRanks ==> r == Err(RankAboveWindow)
    ensures 1 <= rank <= nRanks && rank <= |cf| ==> r == Ok(cf[rank - 1])
    ensures |cf| < rank <= nRanks ==> r == Err(IndexOutOfRange)
  {
    if rank > nRanks then Err(RankAboveWindow) else PyIndex(cf, rank - 1)
  }

  /** Rank 0 is not rejected: it reads the last entry of the curve, the rate for rank n_ranks. */
  lemma RankZeroReadsLast(cf: seq<real>)
    requires |cf| > 0
    ensures RankLookup(cf, |cf|, 0) == Ok(cf[|cf| - 1])
  {
  }

  /** A window that grew after the cache was filled makes the new ranks fail with an index error. */
  lemma StaleCacheLookupFails(cf: seq<real>, nRanks: nat)
    requires |cf| < nRanks
    ensures RankLookup(cf, nRanks, nRanks) == Err(IndexOutOfRange)
  {
  }

  /** The lookup as evidently intended: only ranks 1 .. n_ranks have a value. */
  function CheckedRankLookup(cf: seq<real>, nRanks: nat, rank: int): (r: Result<real, CmcError>)
    requires nRanks <= |cf|
    ensures r.Ok? <==> 1 <= rank <= nRanks
    ensures r.Ok? ==> r.value == cf[rank - 1]
    ensures rank < 1 ==> r == Err(RankBelowWindow)
    ensures rank > nRanks ==> r == Err(RankAboveWindow)
  {
    if rank > nRanks then Err(RankAboveWindow)
    else if rank < 1 then Err(RankBelowWindow)
    else Ok(cf[rank - 1])
  }

  /** The checked lookup agrees with the source's wherever the source's answer is meant. */
  lemma CheckedAgreesInWindow(cf: seq<real>, rank: int)
    requires rank >= 1
    ensures CheckedRankLookup(cf, |cf|, rank) == RankLookup(cf, |cf|, rank)
  {
  }

  /** The rank lists the calculator stores per user (self.ranks) for a window of n. */
  function RankTable(m: Matrix, n: nat): (t: map<int, seq<int>>)
    requires WellFormed(m)
    ensures forall i :: 0 <= i < |m.users| ==> m.users[i] in t && t[m.users[i]] == RankList(m, n, i)
  {
    var t := RankTablePrefix(m, n, |m.users|);
    assert forall i :: 0 <= i < |m.users| ==> t[m.users[i]] == RankList(m, n, i) by {
      forall i | 0 <= i < |m.users| {
        RankTablePrefixAt(m, n, |m.users|, i);
      }
    }
    t
  }

  /** The rank lists stored for the first k users. */
  function RankTablePrefix(m: Matrix, n: nat, k: nat): (t: map<int, seq<int>>)
    requires WellFormed(m) && k <= |m.users|
    ensures forall i :: 0 <= i < k ==> m.users[i] in t
  {
    if k == 0 then map[]
    else RankTablePrefix(m, n, k - 1)[m.users[k - 1] := RankList(m, n, k - 1)]
  }

  /** Each user's entry is its own rank list: a later user never overwrites an earlier one. */
  lemma {:induction false} RankTablePrefixAt(m: Matrix, n: nat, k: nat, i: nat)
    requires WellFormed(m) && i < k <= |m.users|
    ensures RankTablePrefix(m, n, k)[m.users[i]] == RankList(m, n, i)
  {
    if i < k - 1 {
      assert m.users[i] != m.users[k - 1];
      RankTablePrefixAt(m, n, k - 1, i);
    }
  }

  /** Only the first k users have an entry. */
  lemma {:induction false} RankTablePrefixKeys(m: Matrix, n: nat, k: nat)
    requires WellFormed(m) && k <= |m.users|
    ensures forall u :: u in RankTablePrefix(m, n, k) ==> u in m.users[..k]
  {
    if k > 0 {
      RankTablePrefixKeys(m, n, k - 1);
      assert m.users[..k] == m.users[..k - 1] + [m.users[k - 1]];
    }
  }

  /** self.ranks after a full pass: exactly the users, each mapped to its rank list. */
  lemma RankTableContents(m: Matrix, n: nat, i: nat)
    requires WellFormed(m) && i < |m.users|
    ensures m.users[i] in RankTable(m, n) && RankTable(m, n)[m.users[i]] == RankList(m, n, i)
    ensures forall u :: u in RankTable(m, n) ==> u in m.users
  {
    RankTablePrefixAt(m, n, |m.users|, i);
    RankTablePrefixKeys(m, n, |m.users|);
    assert m.users[..|m.users|] == m.users;
  }

  class Calculator {
    const matrix: Matrix
    var nRanks: nat
    var ranks: map<int, seq<int>>
    var cumulativeFreq: Option<seq<real>>
    /** The window the cached curve was computed for. */
    ghost var computedFor: nat

    ghost predicate Valid()
      reads this
      ensures Valid() ==> (cumulativeFreq.Some? ==> |cumulativeFreq.value| == computedFor)
    {
      WellFormed(matrix) && nRanks <= |matrix.users| && computedFor <= |matrix.users| &&
      (cumulativeFreq.Some? ==>
        cumulativeFreq.value == CmcCurve(matrix, computedFor) &&
        ranks == RankTable(matrix, computedFor))
    }

    /** The cache, if filled, covers every rank of the current window. */
    ghost predicate CacheCoversWindow()
      reads this
    {
      cumulativeFreq.Some? ==> nRanks <= computedFor
    }

    constructor (m: Matrix, n: int)
      requires WellFormed(m)
      ensures Valid() && CacheCoversWindow()
      ensures matrix == m && nRanks == Clamp(n, |m.users|)
      ensures ranks == map[] && cumulativeFreq == None
    {
      matrix := m;
      nRanks := Clamp(n, |m.users|);
      ranks := map[];
      cumulativeFreq := None;
      computedFor := 0;
    }

    constructor WithDefaultRanks(m: Matrix)
      requires WellFormed(m)
      ensures Valid() && CacheCoversWindow()
      ensures matrix == m && nRanks == Clamp(DefaultRanks, |m.users|)
      ensures ranks == map[] && cumulativeFreq == None
    {
      matrix := m;
      nRanks := Clamp(DefaultRanks, |m.users|);
      ranks := map[];
      cumulativeFreq := None;
      computedFor := 0;
    }

    /** The n_ranks setter: stores the clamped window and leaves the cache alone. */
    method SetNRanks(n: int)
      requires Valid()
      modifies this`nRanks
      ensures Valid()
      ensures nRanks == Clamp(n, |matrix.users|)
      ensures old(CacheCoversWindow()) && nRanks <= old(nRanks) ==> CacheCoversWindow()
    {
      nRanks := Clamp(n, |matrix.users|);
    }

    /** The setter as evidently intended: a new window empties the cache. */
    method SetNRanksFresh(n: int)
      requires Valid()
      modifies this`nRanks, this`cumulativeFreq
      ensures Valid() && CacheCoversWindow()
      ensures nRanks == Clamp(n, |matrix.users|)
      ensures cumulativeFreq == None
    {
      nRanks := Clamp(n, |matrix.users|);
      cumulativeFreq := None;
    }

    /** The position of userKey's own label in its stored rank list, or None. */
    function FindCorrectRank(userKey: int): (r: Option<nat>)
      reads this
      ensures r.None? <==> userKey !in ranks || userKey !in ranks[userKey]
      ensures r.Some? ==> userKey in ranks && r.value < |ranks[userKey]|
      ensures r.Some? ==> ranks[userKey][r.value] == userKey
      ensures r.Some? ==> forall k :: 0 <= k < r.value ==> ranks[userKey][k] != userKey
    {
      if userKey in ranks then FirstIndex(ranks[userKey], userKey) else None
    }

    /**
     * One pass of the loop of compute_CMC_curve: stores user i's rank list in
     * ranks and counts its genuine rank in freq when the user was found.
     */
    method RankUser(i: nat, freq: array<nat>)
      requires WellFormed(matrix) && i < |matrix.users| && freq.Length == nRanks
      modifies this`ranks, freq
      ensures ranks == old(ranks)[matrix.users[i] := RankList(matrix, nRanks, i)]
      ensures forall r :: 0 <= r < freq.Length ==>
        freq[r] == old(freq[r]) + (if GenuineRank(matrix, nRanks, i) == Some(r) then 1 else 0)
    {
      var u := matrix.users[i];
      ranks := ranks[u := RankList(matrix, nRanks, i)];
      var correctRank := FindCorrectRank(u);
      assert correctRank == GenuineRank(matrix, nRanks, i);
      if correctRank.Some? {
        freq[correctRank.value] := freq[correctRank.value] + 1;
      }
    }

    /**
     * The loop of compute_CMC_curve: stores every user's rank list in ranks
     * and tallies the genuine ranks into a fresh count array of length n_ranks.
     */
    method RankUsers() returns (freq: array<nat>)
      requires WellFormed(matrix)
      modifies this`ranks
      ensures fresh(freq)
      ensures ranks == RankTable(matrix, nRanks)
      ensures freq[..] == Tally(GenuineRanks(matrix, nRanks), nRanks)
    {
      ghost var rs := GenuineRanks(matrix, nRanks);
      ranks := map[];
      freq := new nat[nRanks](_ => 0);
      for i := 0 to |matrix.users|
        invariant ranks == RankTablePrefix(matrix, nRanks, i)
        invariant forall r :: 0 <= r < freq.Length ==> freq[r] == Count(rs, i, r)
      {
        RankUser(i, freq);
      }
    }

    /** compute_CMC_curve: ranks and tallies, normalises by the enrollee count and caches the running sum. */
    method ComputeCmcCurve()
      requires Valid()
      modifies this`ranks, this`cumulativeFreq, this`computedFor
      ensures Valid() && CacheCoversWindow()
      ensures computedFor == nRanks
      ensures ranks == RankTable(matrix, nRanks)
      ensures cumulativeFreq == Some(CmcCurve(matrix, nRanks))
    {
      var freq := RankUsers();
      var normalized := Normalize(freq[..], |matrix.enrollees|);
      var cumulative := CumSum(normalized);
      assert cumulative == PrefixSums(normalized);
      cumulativeFreq := Some(cumulative);
      computedFor := nRanks;
    }

    /**
     * The cumulative rate at a 1-based rank: fills the cache if it is empty,
     * then looks the rank up in it.
     */
    method GetRankCmc(rank: int) returns (r: Result<real, CmcError>)
      requires Valid()
      modifies this`ranks, this`cumulativeFreq, this`computedFor
      ensures Valid() && cumulativeFreq.Some?
      ensures old(cumulativeFreq).Some? ==> unchanged(this)
      ensures old(cumulativeFreq).None? ==>
        computedFor == nRanks && cumulativeFreq == Some(CmcCurve(matrix, nRanks))
      ensures r == RankLookup(cumulativeFreq.value, nRanks, rank)
      ensures rank > nRanks ==> r == Err(RankAboveWindow)
      ensures old(CacheCoversWindow()) && 1 <= rank <= nRanks ==>
        r == Ok(CmcCurve(matrix, nRanks)[rank - 1])
    {
      if cumulativeFreq.None? {
        ComputeCmcCurve();
      }
      r := RankLookup(cumulativeFreq.value, nRanks, rank);
      if 1 <= rank <= nRanks <= computedFor {
        CurvePrefixStable(matrix, nRanks, computedFor);
      }
    }

    /**
     * _get_rank_cmc as evidently intended: ranks outside 1 .. n_ranks are
     * rejected, and every rank inside is answered from the curve of the
     * current window.
     */
    method GetRankCmcChecked(rank: int) returns (r: Result<real, CmcError>)
      requires Valid() && CacheCoversWindow()
      modifies this`ranks, this`cumulativeFreq, this`computedFor
      ensures Valid() && CacheCoversWindow() && cumulativeFreq.Some?
      ensures old(cumulativeFreq).Some? ==> unchanged(this)
      ensures old(cumulativeFreq).None? ==>
        computedFor == nRanks && cumulativeFreq == Some(CmcCurve(matrix, nRanks))
      ensures r.Ok? <==> 1 <= rank <= nRanks
      ensures r.Ok? ==> r.value == CmcCurve(matrix, nRanks)[rank - 1]
      ensures rank < 1 ==> r == Err(RankBelowWindow)
      ensures rank > nRanks ==> r == Err(RankAboveWindow)
    {
      if cumulativeFreq.None? {
        ComputeCmcCurve();
      }
      r := CheckedRankLookup(cumulativeFreq.value, nRanks, rank);
      if 1 <= rank <= nRanks {
        CurvePrefixStable(matrix, nRanks, computedFor);
      }
    }
  }

  /** Asking twice gives the same answer: the first call fills the cache, and GetRankCmc leaves a filled cache alone. */
  method RepeatedQuery(c: Calculator, rank: int) returns (first: Result<real, CmcError>, second: Result<real, CmcError>)
    requires c.Valid()
    modifies c
    ensures first == second
  {
    first := c.GetRankCmc(rank);
    second := c.GetRankCmc(rank);
  }

  /**
   * Two users, each scoring the other higher than itself. With a window of 1
   * the cached curve has one entry; widening the window to 2 leaves it in
   * place, so asking for rank 2 fails on the index.
   */
  method StaleCacheScenario() returns (r: Result<real, CmcError>)
    ensures r == Err(IndexOutOfRange)
  {
    var m := Matrix([1, 2], [1, 2], [[0.0, 1.0], [1.0, 0.0]]);
    var c := new Calculator(m, 1);
    var first := c.GetRankCmc(1);
    c.SetNRanks(2);
    r := c.GetRankCmc(2);
  }

  /** The same run with the corrected setter: the widened window is recomputed and rank 2 is answered. */
  method FreshCacheScenario() returns (r: Result<real, CmcError>)
    ensures r == Ok(1.0)
  {
    var m := Matrix([1, 2], [1, 2], [[0.0, 1.0], [1.0, 0.0]]);
    var c := new Calculator(m, 1);
    var first := c.GetRankCmc(1);
    c.SetNRanksFresh(2);
    r := c.GetRankCmc(2);
    CurveReachesOne(m, 2);
  }
}
