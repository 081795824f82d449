/** Per-column vertical clustering (scripts/table_parser.py, lines 98-122):
    the words of each column, sorted by their vertical centre, are cut into
    clusters by the greedy grow rule; each cluster becomes one
    (centre, text) pair. */
module Clusters {
  import opened Text
  import opened Sorting
  import opened Stats
  import opened Gaps
  import opened Runs
  import opened Tokens

  /** One entry of the per-column cluster list: the mean vertical centre of
      the members and their texts joined in reading order. */
  datatype Cluster = Cluster(center: real, text: string)

  function Cy(w: Word): real
  {
    w.cy
  }

  /** The ordering of `sorted(cw, key=lambda x: x['cy'])` (line 105). */
  predicate CyLeq(a: Word, b: Word)
  {
    a.cy <= b.cy
  }

  /** The ordering of `sorted(cl, key=lambda x: (x['top'], x['left']))`
      (line 118): by top, then by left. */
  predicate TopLeftLeq(a: Word, b: Word)
  {
    a.top < b.top || (a.top == b.top && a.left <= b.left)
  }

  lemma CyLeqTotalPreorder()
    ensures TotalPreorder(CyLeq)
  {
  }

  lemma TopLeftLeqTotalPreorder()
    ensures TotalPreorder(TopLeftLeq)
  {
  }

  /** Line 101: the words whose column is `ci`, in input order. */
  function InColumn(words: seq<Word>, cols: seq<nat>, ci: nat): seq<Word>
    requires |cols| == |words|
  {
    if words == [] then []
    else
      var n := |words| - 1;
      InColumn(words[..n], cols[..n], ci) + (if cols[n] == ci then [words[n]] else [])
  }

  /** Every word is among the words of its own column. */
  lemma {:induction false} InColumnContains(words: seq<Word>, cols: seq<nat>, k: nat)
    requires |cols| == |words| && k < |words|
    ensures words[k] in InColumn(words, cols, cols[k])
  {
    var n := |words| - 1;
    if k < n {
      assert words[..n][k] == words[k] && cols[..n][k] == cols[k];
      InColumnContains(words[..n], cols[..n], k);
    }
  }

  /** Only words of column `ci` are among the words of column `ci`. */
  lemma {:induction false} InColumnFrom(words: seq<Word>, cols: seq<nat>, ci: nat, w: Word) returns (k: nat)
    requires |cols| == |words| && w in InColumn(words, cols, ci)
    ensures k < |words| && words[k] == w && cols[k] == ci
  {
    var n := |words| - 1;
    if w in InColumn(words[..n], cols[..n], ci) {
      k := InColumnFrom(words[..n], cols[..n], ci, w);
      assert words[..n][k] == words[k] && cols[..n][k] == cols[k];
    } else {
      k := n;
    }
  }

  function Texts(cl: seq<Word>): (ts: seq<string>)
    ensures |ts| == |cl| && forall k :: 0 <= k < |cl| ==> ts[k] == cl[k].text
  {
    seq(|cl|, k requires 0 <= k < |cl| => cl[k].text)
  }

  /** Lines 117-121: the pair a cluster becomes. */
  function Summarize(cl: seq<Word>): Cluster
    requires |cl| > 0
  {
    Cluster(Mean(Keys(cl, Cy)), Join(Texts(SortBy(cl, TopLeftLeq)), ' '))
  }

  /** The centre of a cluster is the mean `cy` of its members, so it lies
      between their least and greatest `cy`. */
  lemma SummarizeCenter(cl: seq<Word>)
    requires |cl| > 0
    ensures MinOf(Keys(cl, Cy)) <= Summarize(cl).center <= MaxOf(Keys(cl, Cy))
  {
    MeanBetween(Keys(cl, Cy));
  }

  /** The text of a cluster, read back by splitting at single spaces, is
      the list of the members' texts in (top, left) order, each member once. */
  lemma SummarizeText(cl: seq<Word>)
    requires |cl| > 0
    requires forall k :: 0 <= k < |cl| ==> ' ' !in cl[k].text
    ensures var r := SortBy(cl, TopLeftLeq);
      && Split(Summarize(cl).text, ' ') == Texts(r)
      && SortedBy(r, TopLeftLeq)
      && multiset(r) == multiset(cl)
  {
    var r := SortBy(cl, TopLeftLeq);
    TopLeftLeqTotalPreorder();
    SortBySorted(cl, TopLeftLeq);
    SortByPermutes(cl, TopLeftLeq);
    forall k | 0 <= k < |r|
      ensures ' ' !in Texts(r)[k]
    {
      assert r[k] in multiset(cl);
    }
    SplitJoin(Texts(r), ' ');
  }

  /** The pair of every run, in order. */
  function Summaries(gs: seq<seq<Word>>): (cs: seq<Cluster>)
    requires forall k :: 0 <= k < |gs| ==> |gs[k]| > 0
    ensures |cs| == |gs|
  {
    seq(|gs|, k requires 0 <= k < |gs| => Summarize(gs[k]))
  }

  /** The words of one column sorted by `cy` (line 105). */
  function ByCy(cw: seq<Word>): seq<Word>
  {
    SortBy(cw, CyLeq)
  }

  /** The cluster list of a column: the greedy runs of its words sorted by
      `cy`, each summarised. */
  function ColumnClusterSpec(cw: seq<Word>, tol: real): seq<Cluster>
  {
    Summaries(GapRuns(ByCy(cw), Cy, tol))
  }

  /** The runs of a column are a split of its words sorted by `cy`: their
      concatenation is a sorted permutation of the column's words, inside a
      run consecutive `cy` rise by at most `tol`, and each run starts more
      than `tol` above the last `cy` of the run before it. */
  lemma ColumnRuns(cw: seq<Word>, tol: real)
    ensures SplitAtGaps(ByCy(cw), Cy, tol, GapRuns(ByCy(cw), Cy, tol))
    ensures SortedBy(ByCy(cw), CyLeq) && multiset(ByCy(cw)) == multiset(cw)
    ensures KeysSorted(ByCy(cw), Cy)
  {
    CyLeqTotalPreorder();
    SortBySorted(cw, CyLeq);
    SortByPermutes(cw, CyLeq);
    GapRunsSplit(ByCy(cw), Cy, tol);
  }

  /** The cluster centres of a column increase, each by more than `tol`
      over the one before. */
  lemma ClusterCentresIncrease(cw: seq<Word>, tol: real, k: nat)
    requires 0 < k < |ColumnClusterSpec(cw, tol)|
    ensures ColumnClusterSpec(cw, tol)[k - 1].center + tol < ColumnClusterSpec(cw, tol)[k].center
  {
    var gs := GapRuns(ByCy(cw), Cy, tol);
    var cs := ColumnClusterSpec(cw, tol);
    assert cs[k - 1].center == Mean(Keys(gs[k - 1], Cy)) && cs[k].center == Mean(Keys(gs[k], Cy));
    ColumnRuns(cw, tol);
    RunMeansIncrease(ByCy(cw), Cy, tol, gs, k);
  }

  /** A column without words has no clusters, and only such a column. */
  lemma ColumnClustersEmpty(cw: seq<Word>, tol: real)
    ensures ColumnClusterSpec(cw, tol) == [] <==> cw == []
  {
  }

  /** Lines 101-122 for the column `ci`: its clusters. */
  method ClusterColumn(cw: seq<Word>, mh: real) returns (clusters: seq<Cluster>)
    ensures clusters == ColumnClusterSpec(cw, mh * 1.2)
  {
    if cw == [] {
      return [];
    }
    var sorted := SortBy(cw, CyLeq);
    var runs := SplitGreedy(sorted, Cy, mh * 1.2);
    clusters := SummarizeRuns(runs);
  }

  /** Lines 116-121: one pair per run. */
  method SummarizeRuns(runs: seq<seq<Word>>) returns (clusters: seq<Cluster>)
    requires forall k :: 0 <= k < |runs| ==> |runs[k]| > 0
    ensures clusters == Summaries(runs)
  {
    clusters := [];
    for k := 0 to |runs|
      invariant |clusters| == k
      invariant forall j :: 0 <= j < k ==> clusters[j] == Summarize(runs[j])
    {
      var cl := runs[k];
      var clSorted := SortBy(cl, TopLeftLeq);
      var joined := Join(Texts(clSorted), ' ');
      var cyMean := Mean(Keys(cl, Cy));
      assert Cluster(cyMean, joined) == Summarize(cl);
      clusters := clusters + [Cluster(cyMean, joined)];
    }
  }

  /** The cluster lists of the columns `0 .. n - 1`. */
  function ColumnSpecs(words: seq<Word>, cols: seq<nat>, tol: real, n: nat): (r: seq<seq<Cluster>>)
    requires |cols| == |words|
    ensures |r| == n
  {
    if n == 0 then [] else ColumnSpecs(words, cols, tol, n - 1) + [ColumnClusterSpec(InColumn(words, cols, n - 1), tol)]
  }

  /** Entry `ci` of the cluster lists is the cluster list of column `ci`. */
  lemma {:induction false} ColumnSpecsAt(words: seq<Word>, cols: seq<nat>, tol: real, n: nat, ci: nat)
    requires |cols| == |words| && ci < n
    ensures ColumnSpecs(words, cols, tol, n)[ci] == ColumnClusterSpec(InColumn(words, cols, ci), tol)
  {
    if ci < n - 1 {
      ColumnSpecsAt(words, cols, tol, n - 1, ci);
    }
  }

  /** Lines 99-122: the cluster list of every column. */
  method ColumnClusters(words: seq<Word>, cols: seq<nat>, columns: nat, mh: real) returns (cc: seq<seq<Cluster>>)
    requires |cols| == |words|
    ensures cc == ColumnSpecs(words, cols, mh * 1.2, columns)
  {
    cc := [];
    for ci := 0 to columns
      invariant cc == ColumnSpecs(words, cols, mh * 1.2, ci)
    {
      var cw := InColumn(words, cols, ci);
      var clusters := ClusterColumn(cw, mh);
      cc := cc + [clusters];
    }
  }
}
