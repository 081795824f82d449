/** Row alignment and grid assembly (scripts/table_parser.py, lines
    124-162): the cluster centres of all columns are merged, sorted and cut
    into rows by the greedy rule; each row and column then takes the text of
    the nearest cluster of that column, or the empty cell. */
module Rows {
  import opened Sorting
  import opened Stats
  import opened Gaps
  import opened Runs
  import opened Clusters

  function Centers(cs: seq<Cluster>): (r: seq<real>)
    ensures |r| == |cs| && forall k :: 0 <= k < |cs| ==> r[k] == cs[k].center
  {
    seq(|cs|, k requires 0 <= k < |cs| => cs[k].center)
  }

  function CenterLists(cc: seq<seq<Cluster>>): (r: seq<seq<real>>)
    ensures |r| == |cc| && forall ci :: 0 <= ci < |cc| ==> r[ci] == Centers(cc[ci])
  {
    seq(|cc|, ci requires 0 <= ci < |cc| => Centers(cc[ci]))
  }

  /** Lines 125-128: every cluster centre, column by column. */
  function AllCenters(cc: seq<seq<Cluster>>): seq<real>
  {
    Concat(CenterLists(cc))
  }

  /** Lines 125-128. */
  method CollectCenters(cc: seq<seq<Cluster>>) returns (centers: seq<real>)
    ensures centers == AllCenters(cc)
  {
    centers := [];
    for ci := 0 to |cc|
      invariant centers == AllCenters(cc[..ci])
    {
      assert CenterLists(cc[..ci + 1])[..ci] == CenterLists(cc[..ci]);
      ghost var before := centers;
      for k := 0 to |cc[ci]|
        invariant centers == before + Centers(cc[ci])[..k]
      {
        assert Centers(cc[ci])[..k + 1] == Centers(cc[ci])[..k] + [cc[ci][k].center];
        centers := centers + [cc[ci][k].center];
      }
      assert Centers(cc[ci])[..|cc[ci]|] == Centers(cc[ci]);
    }
    assert cc[..|cc|] == cc;
  }

  /** The centre of every cluster is among the merged centres. */
  lemma CenterCollected(cc: seq<seq<Cluster>>, ci: nat, k: nat)
    requires ci < |cc| && k < |cc[ci]|
    ensures cc[ci][k].center in AllCenters(cc)
  {
    assert CenterLists(cc)[ci][k] == cc[ci][k].center;
    ConcatContains(CenterLists(cc), ci, cc[ci][k].center);
  }

  /** The mean of each row group. */
  function Means(gs: seq<seq<real>>): (r: seq<real>)
    requires forall k :: 0 <= k < |gs| ==> |gs[k]| > 0
    ensures |r| == |gs| && forall k :: 0 <= k < |gs| ==> r[k] == Mean(gs[k])
  {
    seq(|gs|, k requires 0 <= k < |gs| => Mean(gs[k]))
  }

  /** The row centres: the mean of every greedy run of the sorted centres. */
  function RowCentersSpec(s: seq<real>, rowTol: real): seq<real>
  {
    Means(GapRuns(s, RealId, rowTol))
  }

  /** Lines 133-142: the greedy rule over the sorted centres, recording the
      mean of each run as it closes. */
  method AlignRows(s: seq<real>, rowTol: real) returns (rc: seq<real>)
    requires |s| > 0
    ensures rc == RowCentersSpec(s, rowTol)
  {
    rc := [];
    var cur := [s[0]];
    ghost var gs: seq<seq<real>> := [];
    assert s[..1] == [s[0]] && s[..1][..0] == [];
    for i := 1 to |s|
      invariant |cur| > 0
      invariant gs + [cur] == GapRuns(s[..i], RealId, rowTol)
      invariant forall k :: 0 <= k < |gs| ==> |gs[k]| > 0
      invariant rc == Means(gs)
    {
      var c := s[i];
      GapRunsStep(s, RealId, rowTol, i, gs, cur);
      assert RealId(c) - RealId(Last(cur)) == c - cur[|cur| - 1];
      if c - cur[|cur| - 1] <= rowTol {
        cur := cur + [c];
      } else {
        MeansSnoc(gs, cur);
        rc := rc + [Mean(cur)];
        gs := gs + [cur];
        cur := [c];
      }
    }
    assert s[..|s|] == s;
    MeansSnoc(gs, cur);
    rc := rc + [Mean(cur)];
  }

  /** Closing one more run adds its mean to the row centres. */
  lemma MeansSnoc(gs: seq<seq<real>>, g: seq<real>)
    requires forall k :: 0 <= k < |gs| ==> |gs[k]| > 0
    requires |g| > 0
    ensures Means(gs + [g]) == Means(gs) + [Mean(g)]
  {
  }

  /** Over sorted centres there is at least one row centre, and each row
      centre exceeds the one before by more than `rowTol`. */
  lemma RowCentersIncrease(s: seq<real>, rowTol: real)
    requires SortedBy(s, RealLeq) && |s| > 0
    ensures |RowCentersSpec(s, rowTol)| > 0
    ensures forall k :: 0 < k < |RowCentersSpec(s, rowTol)| ==>
      RowCentersSpec(s, rowTol)[k - 1] + rowTol < RowCentersSpec(s, rowTol)[k]
  {
    var gs := GapRuns(s, RealId, rowTol);
    GapRunsSplit(s, RealId, rowTol);
    forall k | 0 < k < |gs|
      ensures Mean(gs[k - 1]) + rowTol < Mean(gs[k])
    {
      RunMeansIncrease(s, RealId, rowTol, gs, k);
      KeysId(gs[k - 1]);
      KeysId(gs[k]);
    }
  }

  /** Line 143, `sorted(row_centers)`, changes nothing: the row centres are
      already in increasing order. */
  lemma RowCentersAlreadySorted(s: seq<real>, rowTol: real)
    requires SortedBy(s, RealLeq) && |s| > 0 && rowTol >= 0.0
    ensures SortBy(RowCentersSpec(s, rowTol), RealLeq) == RowCentersSpec(s, rowTol)
  {
    var rc := RowCentersSpec(s, rowTol);
    RowCentersIncrease(s, rowTol);
    forall i, j | 0 <= i < j < |rc|
      ensures rc[i] <= rc[j]
    {
      Increasing(rc, rowTol, i, j);
    }
    SortBySortedIdentity(rc, RealLeq);
  }

  lemma {:induction false} Increasing(rc: seq<real>, rowTol: real, i: nat, j: nat)
    requires rowTol >= 0.0 && i <= j < |rc|
    requires forall k :: 0 < k < |rc| ==> rc[k - 1] + rowTol < rc[k]
    ensures rc[i] <= rc[j]
    decreases j - i
  {
    if i < j {
      Increasing(rc, rowTol, i, j - 1);
    }
  }

  /** Distances from the row centre `rc` to the cluster centres (line 153). */
  function Distances(cs: seq<Cluster>, rc: real): (ds: seq<real>)
    ensures |ds| == |cs| && forall k :: 0 <= k < |cs| ==> ds[k] == Abs(cs[k].center - rc)
  {
    seq(|cs|, k requires 0 <= k < |cs| => Abs(cs[k].center - rc))
  }

  /** The cell of the row at `rc` in a column with clusters `cs`: the text
      of the first nearest cluster when it lies within `rowTol`, else empty. */
  function Cell(cs: seq<Cluster>, rc: real, rowTol: real): string
  {
    if cs == [] then ""
    else
      var k := ArgMin(Distances(cs, rc));
      if Distances(cs, rc)[k] <= rowTol then cs[k].text else ""
  }

  /** Whichever index is the first nearest cluster decides the cell: its
      text when within tolerance, the empty cell when not. */
  lemma CellNearest(cs: seq<Cluster>, rc: real, rowTol: real, k: nat)
    requires IsFirstMin(Distances(cs, rc), k)
    ensures Cell(cs, rc, rowTol) == if Abs(cs[k].center - rc) <= rowTol then cs[k].text else ""
  {
    FirstMinUnique(Distances(cs, rc), k, ArgMin(Distances(cs, rc)));
  }

  /** A column with no cluster within `rowTol` of the row gives the empty cell. */
  lemma CellFar(cs: seq<Cluster>, rc: real, rowTol: real)
    requires forall k :: 0 <= k < |cs| ==> Abs(cs[k].center - rc) > rowTol
    ensures Cell(cs, rc, rowTol) == ""
  {
    if cs != [] {
      var k := ArgMin(Distances(cs, rc));
      assert Distances(cs, rc)[k] > rowTol;
    }
  }

  /** Lines 150-161: the nearest cluster by a running minimum that starts
      at infinity (`found` is false while `best_d` is still infinite). */
  method PickCell(cs: seq<Cluster>, rc: real, rowTol: real) returns (cell: string)
    ensures cell == Cell(cs, rc, rowTol)
  {
    var chosen := "";
    var best := 0.0;
    var found := false;
    ghost var at := 0;
    ghost var ds := Distances(cs, rc);
    for k := 0 to |cs|
      invariant found <==> k > 0
      invariant found ==> IsFirstMin(ds[..k], at) && best == ds[at] && chosen == cs[at].text
    {
      var d := Abs(cs[k].center - rc);
      if !found || d < best {
        best := d;
        chosen := cs[k].text;
        at := k;
      }
      found := true;
    }
    if found && best <= rowTol {
      cell := chosen;
    } else {
      cell := "";
    }
    if found {
      assert ds[..|cs|] == ds;
      CellNearest(cs, rc, rowTol, at);
    }
  }

  /** Lines 148-161 for one row. */
  method BuildRow(cc: seq<seq<Cluster>>, rc: real, rowTol: real) returns (row: seq<string>)
    ensures |row| == |cc| && forall ci :: 0 <= ci < |cc| ==> row[ci] == Cell(cc[ci], rc, rowTol)
  {
    row := [];
    for ci := 0 to |cc|
      invariant |row| == ci && forall j :: 0 <= j < ci ==> row[j] == Cell(cc[j], rc, rowTol)
    {
      var cell := PickCell(cc[ci], rc, rowTol);
      row := row + [cell];
    }
  }

  /** The grid of lines 146-162: row `r`, column `ci` holds the cell of the
      `r`-th row centre in column `ci`. */
  ghost predicate IsGrid(rows: seq<seq<string>>, rowCenters: seq<real>, cc: seq<seq<Cluster>>, rowTol: real)
  {
    && |rows| == |rowCenters|
    && forall r :: 0 <= r < |rows| ==>
         |rows[r]| == |cc| && forall ci :: 0 <= ci < |cc| ==> rows[r][ci] == Cell(cc[ci], rowCenters[r], rowTol)
  }

  /** Lines 146-162. */
  method AssembleGrid(rowCenters: seq<real>, cc: seq<seq<Cluster>>, rowTol: real) returns (rows: seq<seq<string>>)
    ensures IsGrid(rows, rowCenters, cc, rowTol)
  {
    rows := [];
    for r := 0 to |rowCenters|
      invariant IsGrid(rows, rowCenters[..r], cc, rowTol)
    {
      var row := BuildRow(cc, rowCenters[r], rowTol);
      GridStep(rows, rowCenters, cc, rowTol, r, row);
      rows := rows + [row];
    }
    assert rowCenters[..|rowCenters|] == rowCenters;
  }

  lemma GridStep(rows: seq<seq<string>>, rowCenters: seq<real>, cc: seq<seq<Cluster>>, rowTol: real, r: nat, row: seq<string>)
    requires r < |rowCenters| && IsGrid(rows, rowCenters[..r], cc, rowTol)
    requires |row| == |cc| && forall ci :: 0 <= ci < |cc| ==> row[ci] == Cell(cc[ci], rowCenters[r], rowTol)
    ensures IsGrid(rows + [row], rowCenters[..r + 1], cc, rowTol)
  {
    var next := rows + [row];
    forall i | 0 <= i < |next|
      ensures |next[i]| == |cc| && forall ci :: 0 <= ci < |cc| ==> next[i][ci] == Cell(cc[ci], rowCenters[..r + 1][i], rowTol)
    {
      assert rowCenters[..r + 1][i] == rowCenters[i];
      if i < r {
        assert next[i] == rows[i] && rowCenters[..r][i] == rowCenters[i];
      }
    }
  }
}
