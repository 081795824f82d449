/** Splits of a sequence whose keys never decrease: every run lies wholly
    below the next one, so the run means increase. Both the vertical
    clustering of a column and the row alignment split sorted sequences. */
module Runs {
  import opened Sorting
  import opened Stats
  import opened Gaps

  /** The keys of the elements of `s`, in order. */
  function Keys<T>(s: seq<T>, key: T -> real): (r: seq<real>)
    ensures |r| == |s| && forall i :: 0 <= i < |s| ==> r[i] == key(s[i])
  {
    seq(|s|, i requires 0 <= i < |s| => key(s[i]))
  }

  ghost predicate KeysSorted<T>(s: seq<T>, key: T -> real)
  {
    forall i, j :: 0 <= i < j < |s| ==> key(s[i]) <= key(s[j])
  }

  lemma KeysId(s: seq<real>)
    ensures Keys(s, RealId) == s
  {
  }

  /** The identity, as the key of a split of plain numbers. */
  function RealId(x: real): real
  {
    x
  }

  /** A run of a split of a sorted sequence is itself sorted. */
  lemma RunSorted<T>(s: seq<T>, key: T -> real, tol: real, gs: seq<seq<T>>, k: nat)
    requires SplitAtGaps(s, key, tol, gs) && KeysSorted(s, key) && k < |gs|
    ensures KeysSorted(gs[k], key)
  {
    ConcatSlice(gs, k);
    var a := |Concat(gs[..k])|;
    var g := gs[k];
    assert g == s[a..a + |g|];
    forall i, j | 0 <= i < j < |g|
      ensures key(g[i]) <= key(g[j])
    {
      assert g[i] == s[a + i] && g[j] == s[a + j];
    }
  }

  lemma SortedKeys<T>(s: seq<T>, key: T -> real)
    requires KeysSorted(s, key)
    ensures SortedBy(Keys(s, key), RealLeq)
  {
  }

  /** Each run of a split of a sorted sequence ends more than `tol` below
      the start of the next run. */
  lemma RunsSeparated<T>(s: seq<T>, key: T -> real, tol: real, gs: seq<seq<T>>, k: nat)
    requires SplitAtGaps(s, key, tol, gs) && KeysSorted(s, key) && 0 < k < |gs|
    ensures MaxOf(Keys(gs[k - 1], key)) + tol < MinOf(Keys(gs[k], key))
  {
    RunSorted(s, key, tol, gs, k - 1);
    RunSorted(s, key, tol, gs, k);
    var p, q := Keys(gs[k - 1], key), Keys(gs[k], key);
    SortedKeys(gs[k - 1], key);
    SortedKeys(gs[k], key);
    SortedEnds(p);
    SortedEnds(q);
  }

  /** So the mean key of each run exceeds the mean key of the run before it
      by more than `tol`. */
  lemma RunMeansIncrease<T>(s: seq<T>, key: T -> real, tol: real, gs: seq<seq<T>>, k: nat)
    requires SplitAtGaps(s, key, tol, gs) && KeysSorted(s, key) && 0 < k < |gs|
    ensures Mean(Keys(gs[k - 1], key)) + tol < Mean(Keys(gs[k], key))
  {
    RunsSeparated(s, key, tol, gs, k);
    MeanBetween(Keys(gs[k - 1], key));
    MeanBetween(Keys(gs[k], key));
  }
}
