/** The numpy reductions the parser uses (`np.median`, `np.mean`,
    `np.min`, `np.max`, `np.diff`, `np.argmin`), as functions over
    sequences of exact rationals. */
module Stats {
  import opened Sorting

  function Abs(x: real): real
  {
    if x < 0.0 then -x else x
  }

  function Sum(s: seq<real>): real
  {
    if s == [] then 0.0 else Sum(s[..|s| - 1]) + s[|s| - 1]
  }

  lemma SumSnoc(s: seq<real>, x: real)
    ensures Sum(s + [x]) == Sum(s) + x
  {
    assert (s + [x])[..|s|] == s;
  }

  /** `np.mean(s)`. */
  function Mean(s: seq<real>): real
    requires |s| > 0
  {
    Sum(s) / (|s| as real)
  }

  /** `np.min(s)`. */
  function MinOf(s: seq<real>): (m: real)
    requires |s| > 0
    ensures m in s
    ensures forall k :: 0 <= k < |s| ==> m <= s[k]
  {
    if |s| == 1 then s[0]
    else
      var m := MinOf(s[..|s| - 1]);
      if s[|s| - 1] < m then s[|s| - 1] else m
  }

  /** `np.max(s)`. */
  function MaxOf(s: seq<real>): (m: real)
    requires |s| > 0
    ensures m in s
    ensures forall k :: 0 <= k < |s| ==> s[k] <= m
  {
    if |s| == 1 then s[0]
    else
      var m := MaxOf(s[..|s| - 1]);
      if s[|s| - 1] > m then s[|s| - 1] else m
  }

  /** `np.diff(s)`: the differences of consecutive elements. */
  function Diffs(s: seq<real>): (d: seq<real>)
    requires |s| > 0
    ensures |d| == |s| - 1
    ensures forall i :: 0 <= i < |d| ==> d[i] == s[i + 1] - s[i]
  {
    seq(|s| - 1, i requires 0 <= i < |s| - 1 => s[i + 1] - s[i])
  }

  /** `np.median(s)`: the middle of the sorted values, or the mean of the
      two middle ones when there is an even number of them. */
  function Median(s: seq<real>): (m: real)
    requires |s| > 0
    ensures MinOf(s) <= m <= MaxOf(s)
  {
    var t := SortBy(s, RealLeq);
    var n := |t|;
    SortByPermutes(s, RealLeq);
    assert forall k :: 0 <= k < n ==> t[k] in multiset(s);
    if n % 2 == 1 then t[n / 2] else (t[n / 2 - 1] + t[n / 2]) / 2.0
  }

  /** `k` is where `np.argmin(ds)` stops: a smallest element, and the first one. */
  ghost predicate IsFirstMin(ds: seq<real>, k: int)
  {
    && 0 <= k < |ds|
    && (forall j :: 0 <= j < |ds| ==> ds[k] <= ds[j])
    && (forall j :: 0 <= j < k ==> ds[k] < ds[j])
  }

  /** `np.argmin(ds)`. */
  function ArgMin(ds: seq<real>): (k: nat)
    requires |ds| > 0
    ensures IsFirstMin(ds, k)
  {
    if |ds| == 1 then 0
    else
      var k := ArgMin(ds[..|ds| - 1]);
      if ds[|ds| - 1] < ds[k] then |ds| - 1 else k
  }

  /** The first minimum is unique. */
  lemma FirstMinUnique(ds: seq<real>, a: nat, b: nat)
    requires IsFirstMin(ds, a) && IsFirstMin(ds, b)
    ensures a == b
  {
    assert ds[a] <= ds[b] && ds[b] <= ds[a];
  }

  lemma {:induction false} SumBounds(s: seq<real>, lo: real, hi: real)
    requires forall k :: 0 <= k < |s| ==> lo <= s[k] <= hi
    ensures (|s| as real) * lo <= Sum(s) <= (|s| as real) * hi
  {
    if s != [] {
      SumBounds(s[..|s| - 1], lo, hi);
    }
  }

  /** The mean of a non-empty sequence lies between its least and its
      greatest element. */
  lemma MeanBetween(s: seq<real>)
    requires |s| > 0
    ensures MinOf(s) <= Mean(s) <= MaxOf(s)
  {
    MeanWithin(s, MinOf(s), MaxOf(s));
  }

  lemma MeanWithin(s: seq<real>, lo: real, hi: real)
    requires |s| > 0
    requires forall k :: 0 <= k < |s| ==> lo <= s[k] <= hi
    ensures lo <= Mean(s) <= hi
  {
    SumBounds(s, lo, hi);
    DivideBounds(Sum(s), |s| as real, lo, hi);
  }

  lemma DivideBounds(total: real, n: real, lo: real, hi: real)
    requires n > 0.0
    requires n * lo <= total <= n * hi
    ensures lo <= total / n <= hi
  {
    var q := total / n;
    assert total == n * q;
  }

  /** In a sorted sequence the least element comes first and the greatest last. */
  lemma SortedEnds(s: seq<real>)
    requires |s| > 0 && SortedBy(s, RealLeq)
    ensures MinOf(s) == s[0] && MaxOf(s) == s[|s| - 1]
  {
    assert RealLeq(s[0], MinOf(s));
    assert RealLeq(MaxOf(s), s[|s| - 1]);
  }
}
