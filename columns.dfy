/** The tolerance clamp, column segmentation and column assignment of
    `parse_image_table` (scripts/table_parser.py, lines 56-96). */
module Columns {
  import opened Tokens
  import opened Stats
  import opened Sorting
  import opened Gaps
  import opened Runs

  /** A column band: the closed interval `[lo, hi]` of x-centres. */
  datatype Band = Band(lo: real, hi: real)

  predicate Contains(b: Band, x: real)
  {
    b.lo <= x <= b.hi
  }

  function Centre(b: Band): real
  {
    0.5 * (b.lo + b.hi)
  }

  function Heights(words: seq<Word>): (hs: seq<real>)
    ensures |hs| == |words| && forall i :: 0 <= i < |words| ==> hs[i] == words[i].height as real
  {
    seq(|words|, i requires 0 <= i < |words| => words[i].height as real)
  }

  function Centres(words: seq<Word>): (xs: seq<real>)
    ensures |xs| == |words| && forall i :: 0 <= i < |words| ==> xs[i] == words[i].cx
  {
    seq(|words|, i requires 0 <= i < |words| => words[i].cx)
  }

  /** Lines 57-60: the median word height, replaced by 8 when it is below 4.
      It is the tolerance every later stage scales. */
  function MedianHeight(words: seq<Word>): (h: real)
    ensures h >= 4.0
    ensures |words| > 0 && Median(Heights(words)) >= 4.0 ==> h == Median(Heights(words))
  {
    var m := if |words| > 0 then Median(Heights(words)) else 10.0;
    if m < 4.0 then 8.0 else m
  }

  /** Line 70: the adaptive gap threshold over the consecutive differences. */
  function GapThreshold(xs: seq<real>): real
    requires |xs| > 1
  {
    var d := Diffs(xs);
    var a, b := Median(d) * 2.5, Mean(d) * 1.5;
    if a >= b then a else b
  }

  /** Line 71, `np.where(diffs > gap_threshold)[0]`: the indices whose
      difference exceeds the threshold, in increasing order. */
  function BreakIndices(d: seq<real>, thr: real): (b: seq<nat>)
    ensures forall k :: 0 <= k < |b| ==> b[k] < |d| && d[b[k]] > thr
    ensures forall j, k :: 0 <= j < k < |b| ==> b[j] < b[k]
  {
    if d == [] then []
    else
      var b := BreakIndices(d[..|d| - 1], thr);
      if d[|d| - 1] > thr then b + [|d| - 1] else b
  }

  /** Every index whose difference exceeds the threshold is a break index. */
  lemma {:induction false} BreakIndicesComplete(d: seq<real>, thr: real, i: nat)
    requires i < |d| && d[i] > thr
    ensures i in BreakIndices(d, thr)
  {
    if i < |d| - 1 {
      BreakIndicesComplete(d[..|d| - 1], thr, i);
    }
  }

  /** Number of differences above the threshold. */
  function CountAbove(d: seq<real>, thr: real): nat
  {
    if d == [] then 0 else CountAbove(d[..|d| - 1], thr) + (if d[|d| - 1] > thr then 1 else 0)
  }

  lemma {:induction false} BreakIndicesCount(d: seq<real>, thr: real)
    ensures |BreakIndices(d, thr)| == CountAbove(d, thr)
  {
    if d != [] {
      BreakIndicesCount(d[..|d| - 1], thr);
    }
  }

  /** The band of a group: its extent padded by `mh` on both sides. */
  function Pad(g: seq<real>, mh: real): Band
    requires |g| > 0
  {
    Band(MinOf(g) - mh, MaxOf(g) + mh)
  }

  /** Lines 63-82: cut the x-centres `xs` into groups at the gaps above the
      threshold and pad each group into a band. With one word there is one
      group (lines 64-66). */
  method ColumnBounds(xs: seq<real>, mh: real) returns (groups: seq<seq<real>>, bands: seq<Band>)
    requires |xs| > 0
    ensures |xs| == 1 ==> groups == [xs]
    ensures Concat(groups) == xs
    ensures |xs| > 1 ==> SplitAtGaps(xs, RealId, GapThreshold(xs), groups)
    ensures |xs| > 1 ==> groups == GapRuns(xs, RealId, GapThreshold(xs))
    ensures |xs| > 1 ==> |groups| == CountAbove(Diffs(xs), GapThreshold(xs)) + 1
    ensures |bands| == |groups| > 0
    ensures forall k :: 0 <= k < |groups| ==> |groups[k]| > 0 && bands[k] == Pad(groups[k], mh)
  {
    if |xs| <= 1 {
      groups := [xs];
      assert Concat(groups) == Concat([]) + xs;
    } else {
      groups := CutAtBreaks(xs, GapThreshold(xs));
      GapRunsSplit(xs, RealId, GapThreshold(xs));
    }
    bands := PadGroups(groups, mh);
  }

  /** Lines 78-82: one band per group. */
  method PadGroups(groups: seq<seq<real>>, mh: real) returns (bands: seq<Band>)
    requires forall k :: 0 <= k < |groups| ==> |groups[k]| > 0
    ensures |bands| == |groups|
    ensures forall k :: 0 <= k < |groups| ==> bands[k] == Pad(groups[k], mh)
  {
    bands := [];
    for k := 0 to |groups|
      invariant |bands| == k
      invariant forall j :: 0 <= j < k ==> bands[j] == Pad(groups[j], mh)
    {
      var g := groups[k];
      var minx := MinOf(g) - mh;
      var maxx := MaxOf(g) + mh;
      bands := bands + [Band(minx, maxx)];
    }
  }

  /** Lines 68-77: cut `xs` after every index whose difference to the next
      element exceeds `thr`. */
  method CutAtBreaks(xs: seq<real>, thr: real) returns (groups: seq<seq<real>>)
    requires |xs| > 1
    ensures groups == GapRuns(xs, RealId, thr)
    ensures |groups| == CountAbove(Diffs(xs), thr) + 1
  {
    var breaks := BreakIndices(Diffs(xs), thr);
    var start;
    groups, start := CutBefore(xs, thr, breaks);
    CutEnd(xs, thr, breaks, groups, start);
    groups := groups + [xs[start..]];
  }

  /** Lines 72-76: one group up to each break, and where the last group starts. */
  method CutBefore(xs: seq<real>, thr: real, breaks: seq<nat>) returns (groups: seq<seq<real>>, start: nat)
    requires |xs| > 1 && breaks == BreakIndices(Diffs(xs), thr)
    ensures Cut(xs, thr, breaks, groups, |breaks|, start)
  {
    groups := [];
    start := 0;
    CutStart(xs, thr, breaks);
    var j := 0;
    while j < |breaks|
      invariant Cut(xs, thr, breaks, groups, j, start)
    {
      CutStep(xs, thr, breaks, groups, j, start);
      groups, start, j := groups + [xs[start..breaks[j] + 1]], breaks[j] + 1, j + 1;
    }
  }

  /** Cutting at the break indices gives the greedy runs. */
  lemma SameRuns(xs: seq<real>, thr: real, groups: seq<seq<real>>)
    requires SplitAtGaps(xs, RealId, thr, groups)
    ensures groups == GapRuns(xs, RealId, thr)
  {
    GapRunsSplit(xs, RealId, thr);
    SplitAtGapsUnique(xs, RealId, thr, groups, GapRuns(xs, RealId, thr));
  }

  /** The state of the loop at lines 74-76 after `j` breaks: `groups` splits
      the prefix of `xs` that ends where the next group starts. */
  ghost predicate Cut(xs: seq<real>, thr: real, breaks: seq<nat>, groups: seq<seq<real>>, j: nat, start: nat)
  {
    && j <= |breaks|
    && |groups| == j
    && start == (if j == 0 then 0 else breaks[j - 1] + 1)
    && start < |xs|
    && SplitAtGaps(xs[..start], RealId, thr, groups)
  }

  lemma CutStart(xs: seq<real>, thr: real, breaks: seq<nat>)
    requires |xs| > 1
    ensures Cut(xs, thr, breaks, [], 0, 0)
  {
    assert xs[..0] == [];
  }

  /** One step of the loop at lines 74-76: the run from `start` to the
      next break extends the split. */
  lemma CutStep(xs: seq<real>, thr: real, breaks: seq<nat>, groups: seq<seq<real>>, j: nat, start: nat)
    requires |xs| > 1 && breaks == BreakIndices(Diffs(xs), thr)
    requires Cut(xs, thr, breaks, groups, j, start) && j < |breaks|
    ensures start <= breaks[j] < |xs| - 1
    ensures Cut(xs, thr, breaks, groups + [xs[start..breaks[j] + 1]], j + 1, breaks[j] + 1)
  {
    if j > 0 { assert breaks[j - 1] < breaks[j]; }
    CutRun(xs, thr, breaks, groups, j, start, breaks[j] + 1);
  }

  /** The final append at line 77: the run from the last break to the end
      completes the split, one group more than there are breaks. */
  lemma CutEnd(xs: seq<real>, thr: real, breaks: seq<nat>, groups: seq<seq<real>>, start: nat)
    requires |xs| > 1 && breaks == BreakIndices(Diffs(xs), thr)
    requires Cut(xs, thr, breaks, groups, |breaks|, start)
    ensures groups + [xs[start..]] == GapRuns(xs, RealId, thr)
    ensures |groups| + 1 == CountAbove(Diffs(xs), thr) + 1
  {
    CutRun(xs, thr, breaks, groups, |breaks|, start, |xs|);
    assert xs[..|xs|] == xs && xs[start..|xs|] == xs[start..];
    BreakIndicesCount(Diffs(xs), thr);
    SameRuns(xs, thr, groups + [xs[start..]]);
  }

  /** The run from `start` up to the next break (or the end), `xs[start..c]`,
      extends the split of `xs[..start]`. */
  lemma CutRun(xs: seq<real>, thr: real, breaks: seq<nat>, groups: seq<seq<real>>, j: nat, start: nat, c: nat)
    requires |xs| > 1 && breaks == BreakIndices(Diffs(xs), thr)
    requires Cut(xs, thr, breaks, groups, j, start)
    requires c == if j < |breaks| then breaks[j] + 1 else |xs|
    requires start < c
    ensures SplitAtGaps(xs[..c], RealId, thr, groups + [xs[start..c]])
  {
    var d := Diffs(xs);
    forall i, i' | start <= i && i' == i + 1 && i' < c && i' < |xs|
      ensures RealId(xs[i']) - RealId(xs[i]) <= thr
    {
      NoBreakBetween(d, thr, breaks, j, i);
    }
    AppendRun(xs, RealId, thr, groups, start, c);
  }

  /** No index strictly between two neighbouring break indices is a break. */
  lemma NoBreakBetween(d: seq<real>, thr: real, breaks: seq<nat>, j: nat, i: nat)
    requires breaks == BreakIndices(d, thr)
    requires j <= |breaks| && i < |d|
    requires j > 0 ==> breaks[j - 1] < i
    requires j < |breaks| ==> i < breaks[j]
    ensures d[i] <= thr
  {
    if d[i] > thr {
      BreakIndicesComplete(d, thr, i);
    }
  }

  /** Every x-centre lies inside the band of its own group, so with exact
      arithmetic some band always contains a word's centre. */
  lemma BandsCover(xs: seq<real>, groups: seq<seq<real>>, bands: seq<Band>, mh: real, x: real) returns (k: nat)
    requires Concat(groups) == xs && x in xs && mh >= 0.0
    requires |bands| == |groups|
    requires forall j :: 0 <= j < |groups| ==> |groups[j]| > 0 && bands[j] == Pad(groups[j], mh)
    ensures k < |bands| && Contains(bands[k], x)
  {
    k := InConcat(groups, x);
  }

  /** So the nearest-centre fallback of lines 92-96 never decides a column:
      the column a word with x-centre `x` gets is a band that contains `x`. */
  lemma AssignedContains(xs: seq<real>, groups: seq<seq<real>>, bands: seq<Band>, mh: real, x: real, c: int)
    requires Concat(groups) == xs && x in xs && mh >= 0.0
    requires |bands| == |groups|
    requires forall j :: 0 <= j < |groups| ==> |groups[j]| > 0 && bands[j] == Pad(groups[j], mh)
    requires AssignedTo(bands, x, c)
    ensures Contains(bands[c], x)
  {
    var k := BandsCover(xs, groups, bands, mh, x);
  }

  /** Distances from `x` to the band centres (lines 94-95). */
  function CentreDistances(bands: seq<Band>, x: real): (ds: seq<real>)
    ensures |ds| == |bands| && forall k :: 0 <= k < |bands| ==> ds[k] == Abs(x - Centre(bands[k]))
  {
    seq(|bands|, k requires 0 <= k < |bands| => Abs(x - Centre(bands[k])))
  }

  /** Where lines 86-96 put a word with x-centre `x`: the first band that
      contains `x`, or when none does, the band with the nearest centre,
      the lowest index among equally near ones. */
  ghost predicate AssignedTo(bands: seq<Band>, x: real, c: int)
  {
    && 0 <= c < |bands|
    && if exists k :: 0 <= k < |bands| && Contains(bands[k], x)
       then Contains(bands[c], x) && forall j :: 0 <= j < c ==> !Contains(bands[j], x)
       else IsFirstMin(CentreDistances(bands, x), c)
  }

  /** Lines 85-96: the column of every word; `cols[i]` is the `'col'` key
      the source stores into word `i`. */
  method AssignColumns(words: seq<Word>, bands: seq<Band>) returns (cols: seq<nat>)
    requires |bands| > 0
    ensures |cols| == |words|
    ensures forall i :: 0 <= i < |words| ==> AssignedTo(bands, words[i].cx, cols[i])
  {
    cols := [];
    for i := 0 to |words|
      invariant |cols| == i
      invariant forall j :: 0 <= j < i ==> AssignedTo(bands, words[j].cx, cols[j])
    {
      var x := words[i].cx;
      var found := false;
      var col := 0;
      for ci := 0 to |bands|
        invariant !found
        invariant forall j :: 0 <= j < ci ==> !Contains(bands[j], x)
      {
        var b := bands[ci];
        if b.lo <= x <= b.hi {
          col := ci;
          found := true;
          break;
        }
      }
      if !found {
        col := ArgMin(CentreDistances(bands, x));
      }
      cols := cols + [col];
    }
  }
}
