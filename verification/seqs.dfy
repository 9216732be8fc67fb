/**
 Generic operations on sequences used to model the rows a SQL statement
 selects, keeps or deletes: filtering by a WHERE predicate, the first row a
 `QueryRow` scans, reversing an ascending table for `ORDER BY ... DESC`, and
 SQLite's `LIMIT`.
 */
module Seqs {
  import opened Wrappers

  /** The rows of `s` that satisfy `keep`, in their original order. */
  function Filter<T>(s: seq<T>, keep: T -> bool): (r: seq<T>)
    ensures |r| <= |s|
    ensures forall x :: x in r ==> x in s && keep(x)
    ensures forall x :: x in s && keep(x) ==> x in r
    decreases |s|
  {
    if |s| == 0 then []
    else if keep(s[0]) then [s[0]] + Filter(s[1..], keep)
    else Filter(s[1..], keep)
  }

  /** The positions of `s` whose element `keep` accepts: what `COUNT(*) ... WHERE keep` counts. */
  ghost function Hits<T>(s: seq<T>, keep: T -> bool): set<int> {
    set i | 0 <= i < |s| && keep(s[i])
  }

  /** Appending a row adds its position to the hits exactly when it is kept. */
  lemma HitsAppend<T>(s: seq<T>, x: T, keep: T -> bool)
    ensures Hits(s + [x], keep) == Hits(s, keep) + (if keep(x) then {|s|} else {})
  {
    var t := s + [x];
    forall i
      ensures i in Hits(t, keep) <==> i in Hits(s, keep) + (if keep(x) then {|s|} else {})
    {
      if 0 <= i < |s| {
        assert t[i] == s[i];
      }
    }
  }

  /** Filtering keeps exactly one row per accepted position, so its length counts the accepted rows. */
  lemma {:induction false} FilterCounts<T>(s: seq<T>, keep: T -> bool)
    ensures |Filter(s, keep)| == |Hits(s, keep)|
    decreases |s|
  {
    if |s| > 0 {
      var front := s[..|s| - 1];
      var x := s[|s| - 1];
      assert s == front + [x];
      FilterAppend(front, x, keep);
      FilterCounts(front, keep);
      HitsAppend(front, x, keep);
      assert |front| !in Hits(front, keep);
    }
  }

  /** Filtering an appended row appends it exactly when it is kept. */
  lemma {:induction false} FilterAppend<T>(s: seq<T>, x: T, keep: T -> bool)
    ensures Filter(s + [x], keep) == Filter(s, keep) + (if keep(x) then [x] else [])
    decreases |s|
  {
    if |s| == 0 {
      assert s + [x] == [x];
      assert [x][1..] == [];
    } else {
      assert (s + [x])[0] == s[0];
      assert (s + [x])[1..] == s[1..] + [x];
      FilterAppend(s[1..], x, keep);
    }
  }

  /** A row that every kept row satisfies is everything filtering keeps. */
  lemma {:induction false} FilterAll<T>(s: seq<T>, keep: T -> bool)
    requires forall x :: x in s ==> keep(x)
    ensures Filter(s, keep) == s
    decreases |s|
  {
    if |s| > 0 {
      assert forall x :: x in s[1..] ==> x in s;
      FilterAll(s[1..], keep);
      assert [s[0]] + s[1..] == s;
    }
  }

  /** Every pair of rows, in table order, is related by `rel`. */
  ghost predicate Pairwise<T>(s: seq<T>, rel: (T, T) -> bool)
  {
    forall i, j :: 0 <= i < j < |s| ==> rel(s[i], s[j])
  }

  /** Deleting rows keeps every pairwise property of the rows that remain. */
  lemma {:induction false} FilterPairwise<T>(s: seq<T>, keep: T -> bool, rel: (T, T) -> bool)
    requires Pairwise(s, rel)
    ensures Pairwise(Filter(s, keep), rel)
    decreases |s|
  {
    if |s| > 0 {
      var tail := Filter(s[1..], keep);
      assert Pairwise(s[1..], rel) by {
        forall i, j | 0 <= i < j < |s[1..]|
          ensures rel(s[1..][i], s[1..][j])
        {
          assert s[1..][i] == s[i + 1] && s[1..][j] == s[j + 1];
        }
      }
      FilterPairwise(s[1..], keep, rel);
      if keep(s[0]) {
        var r := [s[0]] + tail;
        forall i, j | 0 <= i < j < |r|
          ensures rel(r[i], r[j])
        {
          if i == 0 {
            assert r[j] == tail[j - 1];
            assert r[j] in s[1..];
            var k :| 0 <= k < |s[1..]| && s[1..][k] == r[j];
            assert s[k + 1] == r[j];
          } else {
            assert r[i] == tail[i - 1] && r[j] == tail[j - 1];
          }
        }
      }
    }
  }

  /** Appending a row that every earlier row is related to keeps a pairwise property. */
  lemma PairwiseAppend<T>(s: seq<T>, x: T, rel: (T, T) -> bool)
    requires Pairwise(s, rel)
    requires forall y :: y in s ==> rel(y, x)
    ensures Pairwise(s + [x], rel)
  {
    var t := s + [x];
    forall i, j | 0 <= i < j < |t|
      ensures rel(t[i], t[j])
    {
      assert t[i] == s[i];
      if j < |s| {
        assert t[j] == s[j];
      }
    }
  }

  /** Deleting the one row that fails `keep` shortens the table by exactly one row. */
  lemma {:induction false} FilterDropsOne<T>(s: seq<T>, keep: T -> bool, k: int)
    requires 0 <= k < |s| && !keep(s[k])
    requires forall i :: 0 <= i < |s| && i != k ==> keep(s[i])
    ensures |Filter(s, keep)| == |s| - 1
    decreases |s|
  {
    if k == 0 {
      assert forall x :: x in s[1..] ==> keep(x);
      FilterAll(s[1..], keep);
    } else {
      assert forall i :: 0 <= i < |s[1..]| && i != k - 1 ==> s[1..][i] == s[i + 1];
      FilterDropsOne(s[1..], keep, k - 1);
    }
  }

  /** The first row of `s` satisfying `p`, as a `QueryRow` on that WHERE clause scans it. */
  function Find<T>(s: seq<T>, p: T -> bool): (r: Option<T>)
    ensures r.Some? ==> r.value in s && p(r.value)
    ensures r.None? ==> forall x :: x in s ==> !p(x)
    decreases |s|
  {
    if |s| == 0 then None
    else if p(s[0]) then Some(s[0])
    else Find(s[1..], p)
  }

  /** Dropping only rows that `p` rejects does not change which row `Find` returns. */
  lemma {:induction false} FindFilter<T>(s: seq<T>, keep: T -> bool, p: T -> bool)
    requires forall x :: p(x) ==> keep(x)
    ensures Find(Filter(s, keep), p) == Find(s, p)
    decreases |s|
  {
    if |s| > 0 {
      FindFilter(s[1..], keep, p);
      if keep(s[0]) {
        assert ([s[0]] + Filter(s[1..], keep))[1..] == Filter(s[1..], keep);
      }
    }
  }

  /** When at most one row satisfies `p`, `Find` returns that row whatever the table order. */
  lemma FindUnique<T>(s: seq<T>, p: T -> bool, x: T)
    requires x in s && p(x)
    requires forall y :: y in s && p(y) ==> y == x
    ensures Find(s, p) == Some(x)
  {
  }

  /** The rows of `s` in the opposite order. */
  function Reverse<T>(s: seq<T>): (r: seq<T>)
    ensures |r| == |s|
    ensures forall i :: 0 <= i < |s| ==> r[i] == s[|s| - 1 - i]
    decreases |s|
  {
    if |s| == 0 then [] else Reverse(s[1..]) + [s[0]]
  }

  /** Reversing keeps every row. */
  lemma ReverseHas<T>(s: seq<T>, x: T)
    requires x in s
    ensures x in Reverse(s)
  {
    var k :| 0 <= k < |s| && s[k] == x;
    assert Reverse(s)[|s| - 1 - k] == x;
  }

  /** SQLite's `OFFSET n`: the rows after the first `n`, and every row when `n` is not positive. */
  function Skip<T>(s: seq<T>, n: int): (r: seq<T>)
    ensures |r| == if n <= 0 then |s| else if n < |s| then |s| - n else 0
    ensures forall i :: 0 <= i < |r| ==> r[i] == s[i + (if n <= 0 then 0 else n)]
  {
    if n <= 0 then s else if n < |s| then s[n..] else []
  }

  /** SQLite's `LIMIT n`: the first `n` rows, and every row when `n` is negative. */
  function Limit<T>(s: seq<T>, n: int): (r: seq<T>)
    ensures |r| == if 0 <= n < |s| then n else |s|
    ensures r <= s
  {
    if 0 <= n < |s| then s[..n] else s
  }
}
