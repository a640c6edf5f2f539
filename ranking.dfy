/**
 * The rank extractor of the CMC calculator: for one user's row of similarity
 * scores, the enrollees sorted by descending score (a stable sort, so equal
 * scores keep their column order) and truncated to the rank window, and the
 * 0-based position of the genuine match in that list.
 *
 * Enrollees are addressed by their column position 0 .. |row|-1; the labels
 * are attached afterwards by UsersArgsort.
 */
module Ranking {
  import opened Wrappers

  /** Column i comes before column j in a stable descending sort of the row. */
  predicate Before(row: seq<real>, i: nat, j: nat)
    requires i < |row| && j < |row|
  {
    row[i] > row[j] || (row[i] == row[j] && i < j)
  }

  /** ps lists columns of row, each strictly before the next. */
  predicate RankedBy(row: seq<real>, ps: seq<nat>)
  {
    (forall k :: 0 <= k < |ps| ==> ps[k] < |row|) &&
    (forall a, b :: 0 <= a < b < |ps| ==> Before(row, ps[a], ps[b]))
  }

  /** Inserts column x, later than every column of ps, after all columns scoring at least as high. */
  function Insert(row: seq<real>, ps: seq<nat>, x: nat): (r: seq<nat>)
    requires x < |row| && RankedBy(row, ps)
    requires forall k :: 0 <= k < |ps| ==> ps[k] < x
    ensures |r| == |ps| + 1
    ensures forall i :: 0 <= i < |r| ==> r[i] <= x
    ensures forall p: nat :: p in r <==> p == x || p in ps
    ensures RankedBy(row, r)
  {
    if ps == [] then [x]
    else if row[ps[0]] < row[x] then
      assert forall k :: 0 <= k < |ps| ==> Before(row, x, ps[k]) by {
        forall k | 0 < k < |ps| ensures row[ps[0]] >= row[ps[k]] {
          assert Before(row, ps[0], ps[k]);
        }
      }
      [x] + ps
    else
      var rest := Insert(row, ps[1..], x);
      assert forall k :: 0 <= k < |rest| ==> Before(row, ps[0], rest[k]) by {
        forall k | 0 <= k < |rest| ensures Before(row, ps[0], rest[k]) {
          assert rest[k] in rest;
          if rest[k] != x {
            var j :| 0 <= j < |ps[1..]| && ps[1..][j] == rest[k];
            assert Before(row, ps[0], ps[j + 1]);
          }
        }
      }
      [ps[0]] + rest
  }

  /** Columns 0 .. k-1 in stable descending order of score. */
  function SortColumns(row: seq<real>, k: nat): (r: seq<nat>)
    requires k <= |row|
    ensures |r| == k
    ensures forall i :: 0 <= i < |r| ==> r[i] < k
    ensures forall p: nat :: p in r <==> p < k
    ensures RankedBy(row, r)
  {
    if k == 0 then [] else Insert(row, SortColumns(row, k - 1), k - 1)
  }

  function Min(a: nat, b: nat): nat { if a < b then a else b }

  /**
   * The top n columns of the row: at most n columns, none repeated, in stable
   * descending order, and every column left out comes after every one kept.
   */
  function TopColumns(row: seq<real>, n: nat): (r: seq<nat>)
    ensures |r| == Min(n, |row|)
    ensures RankedBy(row, r)
    ensures forall k, p: nat :: 0 <= k < |r| && p < |row| && p !in r ==> Before(row, r[k], p)
  {
    var all := SortColumns(row, |row|);
    var r := all[..Min(n, |row|)];
    forall k, p: nat | 0 <= k < |r| && p < |row| && p !in r
      ensures Before(row, r[k], p)
    {
      assert p in all;
      var j :| 0 <= j < |all| && all[j] == p;
      assert all[k] == r[k];
      assert forall i :: 0 <= i < |r| ==> all[i] == r[i] && r[i] != p;
    }
    r
  }

  /** The enrollee labels of the top n columns of the row (the source's _users_argsort). */
  function UsersArgsort(enrollees: seq<int>, row: seq<real>, n: nat): (r: seq<int>)
    requires |row| == |enrollees|
    ensures |r| == Min(n, |enrollees|)
    ensures forall k :: 0 <= k < |r| ==> r[k] in enrollees
  {
    var ps := TopColumns(row, n);
    seq(|ps|, k requires 0 <= k < |ps| => enrollees[ps[k]])
  }

  /** The first position of x in xs, or None when x does not occur. */
  function FirstIndex(xs: seq<int>, x: int): (r: Option<nat>)
    ensures r.None? <==> x !in xs
    ensures r.Some? ==> r.value < |xs| && xs[r.value] == x
    ensures r.Some? ==> forall k :: 0 <= k < r.value ==> xs[k] != x
  {
    if xs == [] then None
    else if xs[0] == x then Some(0)
    else match FirstIndex(xs[1..], x)
      case None => None
      case Some(k) => Some(k + 1)
  }

  /**
   * A stable descending sort is determined by the scores alone: two rankings
   * of the same columns are equal. So SortColumns is the order Python's stable
   * sorted(..., reverse=True) produces.
   */
  lemma {:induction false} RankedUnique(row: seq<real>, a: seq<nat>, b: seq<nat>)
    requires RankedBy(row, a) && RankedBy(row, b)
    requires forall p: nat :: p in a <==> p in b
    ensures a == b
  {
    if a != [] || b != [] {
      assert a != [] ==> a[0] in b;
      assert b != [] ==> b[0] in a;
      assert a != [] && b != [];
      var j :| 0 <= j < |b| && b[j] == a[0];
      var i :| 0 <= i < |a| && a[i] == b[0];
      assert i > 0 ==> Before(row, a[0], a[i]);
      assert j > 0 ==> Before(row, b[0], b[j]);
      assert a[0] == b[0];
      forall p: nat ensures p in a[1..] <==> p in b[1..] {
        if p in a[1..] {
          var k :| 0 <= k < |a[1..]| && a[1..][k] == p;
          assert Before(row, a[0], a[k + 1]);
        }
        if p in b[1..] {
          var k :| 0 <= k < |b[1..]| && b[1..][k] == p;
          assert Before(row, b[0], b[k + 1]);
        }
        assert p in a <==> p == a[0] || p in a[1..];
        assert p in b <==> p == b[0] || p in b[1..];
      }
      RankedUnique(row, a[1..], b[1..]);
      assert a == [a[0]] + a[1..];
      assert b == [b[0]] + b[1..];
    }
  }

  /** Any stable descending arrangement of all the columns, cut at n, is TopColumns. */
  lemma TopColumnsIsStableSort(row: seq<real>, ps: seq<nat>, n: nat)
    requires |ps| == |row| && RankedBy(row, ps)
    requires forall p: nat :: p in ps <==> p < |row|
    ensures TopColumns(row, n) == ps[..Min(n, |row|)]
  {
    var all := SortColumns(row, |row|);
    RankedUnique(row, all, ps);
    assert |ps| == |row|;
  }

  /** With distinct enrollee labels, the ranked labels are distinct too. */
  lemma UsersArgsortDistinct(enrollees: seq<int>, row: seq<real>, n: nat)
    requires |row| == |enrollees|
    requires forall i, j :: 0 <= i < j < |enrollees| ==> enrollees[i] != enrollees[j]
    ensures var r := UsersArgsort(enrollees, row, n);
      forall a, b :: 0 <= a < b < |r| ==> r[a] != r[b]
  {
    var ps := TopColumns(row, n);
    var r := UsersArgsort(enrollees, row, n);
    forall a, b | 0 <= a < b < |r| ensures r[a] != r[b] {
      assert Before(row, ps[a], ps[b]);
      assert r[a] == enrollees[ps[a]] && r[b] == enrollees[ps[b]];
    }
  }
}
