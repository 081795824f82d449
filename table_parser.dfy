/** `parse_image_table` (scripts/table_parser.py, lines 18-189) after the
    two OCR calls: the word records and the page text come in as
    parameters, the stages of the other modules run in order, and the
    table comes out with the page text passed through. */
module TableParser {
  import opened Wrappers
  import opened Sorting
  import opened Stats
  import opened Gaps
  import opened Runs
  import opened Tokens
  import opened Columns
  import opened Clusters
  import opened Rows
  import opened Header

  /** The sorted x-centres of the words (line 63). */
  function SortedCentres(words: seq<Word>): seq<real>
  {
    SortBy(Centres(words), RealLeq)
  }

  /** The number of column bands the words give (lines 63-82). */
  ghost function ColumnCount(words: seq<Word>): (n: nat)
    requires |words| > 0
    ensures n >= 1
  {
    var xs := SortedCentres(words);
    if |xs| == 1 then 1 else |GapRuns(xs, RealId, GapThreshold(xs))|
  }

  /** Every row has `width` cells, and so has the header when there is one. */
  ghost predicate Rectangular(t: Table, width: nat)
  {
    && (forall r :: 0 <= r < |t.rows| ==> |t.rows[r]| == width)
    && (t.header.Some? ==> |t.header.value| == width)
  }

  ghost predicate DistinctLabels(t: Table)
  {
    t.header.Some? ==> forall i, j :: 0 <= i < j < |t.header.value| ==> t.header.value[i] != t.header.value[j]
  }

  /** Lines 18-189. With no kept word the table is empty and has no
      header; otherwise it has at least one data row, one column per band,
      and distinct header labels when a header was promoted. */
  method ParseImageTable(raw: seq<RawWord>, rawText: string, minConf: int) returns (t: Table, text: string)
    ensures text == rawText
    ensures Kept(raw, minConf) == [] ==> t == Table([], None)
    ensures Kept(raw, minConf) != [] ==> |t.rows| > 0 && Rectangular(t, ColumnCount(Kept(raw, minConf)))
    ensures DistinctLabels(t)
  {
    text := rawText;
    var words := FilterWords(raw, minConf);
    if words == [] {
      return Table([], None), text;
    }
    var mh := MedianHeight(words);
    var xs := SortBy(Centres(words), RealLeq);
    var groups, bands := ColumnBounds(xs, mh);
    var cols := AssignColumns(words, bands);
    var cc := ColumnClusters(words, cols, |bands|, mh);
    var centers := CollectCenters(cc);
    CentresPresent(words, cols, |bands|, mh, cc);
    if centers == [] {
      return Table([], None), text;
    }
    var sortedCenters := SortBy(centers, RealLeq);
    var rowTol := mh * 1.5;
    var rc := AlignRows(sortedCenters, rowTol);
    var rowCenters := SortBy(rc, RealLeq);
    var rows := AssembleGrid(rowCenters, cc, rowTol);
    RowsPresent(sortedCenters, rowTol, rc, rowCenters);
    t := PromoteHeader(rows);
    Promoted(rows, |bands|, t);
  }

  /** Some cluster centre exists whenever there is a word: the early
      return at lines 129-130 is never taken after line 53. */
  lemma CentresPresent(words: seq<Word>, cols: seq<nat>, columns: nat, mh: real, cc: seq<seq<Cluster>>)
    requires |words| > 0 && |cols| == |words| && cols[0] < columns
    requires cc == ColumnSpecs(words, cols, mh * 1.2, columns)
    ensures AllCenters(cc) != []
  {
    var ci := cols[0];
    ColumnHasClusters(words, cols, mh * 1.2, columns);
    CenterCollected(cc, ci, 0);
  }

  /** The column of the first word has at least one cluster. */
  lemma ColumnHasClusters(words: seq<Word>, cols: seq<nat>, tol: real, columns: nat)
    requires |words| > 0 && |cols| == |words| && cols[0] < columns
    ensures |ColumnSpecs(words, cols, tol, columns)[cols[0]]| > 0
  {
    var cw := InColumn(words, cols, cols[0]);
    InColumnContains(words, cols, 0);
    ColumnClustersEmpty(cw, tol);
    ColumnSpecsAt(words, cols, tol, columns, cols[0]);
  }

  /** There is at least one row centre, so at least one row. */
  lemma RowsPresent(sortedCenters: seq<real>, rowTol: real, rc: seq<real>, rowCenters: seq<real>)
    requires |sortedCenters| > 0 && rowTol >= 0.0
    requires rc == RowCentersSpec(sortedCenters, rowTol)
    requires rowCenters == SortBy(rc, RealLeq)
    ensures |rowCenters| > 0
  {
  }

  /** The promoted or unpromoted table of a non-empty rectangular grid
      keeps a data row, stays rectangular and has distinct labels. */
  lemma Promoted(rows: seq<seq<string>>, width: nat, t: Table)
    requires |rows| > 0 && forall r :: 0 <= r < |rows| ==> |rows[r]| == width
    requires Promotes(rows) ==> t == Table(rows[1..], Some(DedupLabels(rows[0])))
    requires !Promotes(rows) ==> t == Table(rows, None)
    ensures |t.rows| > 0 && Rectangular(t, width) && DistinctLabels(t)
  {
    if Promotes(rows) {
      DedupDistinct(rows[0]);
    }
  }
}
