/** Header promotion (scripts/table_parser.py, lines 164-189): the first
    row becomes the header when it has at least as many non-empty cells as
    any other row, and at least one; its labels are stripped, blank labels
    become "col", and repeated labels get the suffixes _1, _2, ... */
module Header {
  import opened Wrappers
  import opened Text

  /** The reconstructed table: data rows and, when promoted, the header. */
  datatype Table = Table(rows: seq<seq<string>>, header: Option<seq<string>>)

  /** Line 167, one entry of `df.astype(bool).sum(axis=1)`: the number of
      non-empty cells of a row. */
  function NonEmptyCount(row: seq<string>): (n: nat)
    ensures n <= |row|
  {
    if row == [] then 0
    else NonEmptyCount(row[..|row| - 1]) + (if row[|row| - 1] != "" then 1 else 0)
  }

  /** The greatest non-empty count of the rows, 0 for no rows (line 170). */
  function MaxCount(rows: seq<seq<string>>): nat
  {
    if rows == [] then 0
    else
      var m := MaxCount(rows[..|rows| - 1]);
      var c := NonEmptyCount(rows[|rows| - 1]);
      if c > m then c else m
  }

  /** Lines 168-171: whether the first row is promoted to the header. */
  predicate Promotes(rows: seq<seq<string>>)
  {
    |rows| > 1 &&
    var first, restMax := NonEmptyCount(rows[0]), MaxCount(rows[1..]);
    first >= (if restMax >= 1 then restMax else 1)
  }

  lemma {:induction false} MaxCountBound(rows: seq<seq<string>>, n: nat)
    ensures MaxCount(rows) <= n <==> forall r :: 0 <= r < |rows| ==> NonEmptyCount(rows[r]) <= n
  {
    if rows != [] {
      var p := rows[..|rows| - 1];
      MaxCountBound(p, n);
      assert forall r :: 0 <= r < |p| ==> p[r] == rows[r];
    }
  }

  /** The first row is promoted exactly when there are at least two rows
      and the first has a non-empty cell and no fewer non-empty cells than
      any later row. */
  lemma PromotesMeans(rows: seq<seq<string>>)
    ensures Promotes(rows) <==>
      |rows| > 1 && NonEmptyCount(rows[0]) >= 1 &&
      forall r :: 1 <= r < |rows| ==> NonEmptyCount(rows[r]) <= NonEmptyCount(rows[0])
  {
    if |rows| > 1 {
      var rest := rows[1..];
      MaxCountBound(rest, NonEmptyCount(rows[0]));
      assert forall r :: 1 <= r < |rows| ==> rows[r] == rest[r - 1];
      assert forall r :: 0 <= r < |rest| ==> rest[r] == rows[r + 1];
    }
  }

  /** Lines 178-180: the stripped label, "col" when it is blank. */
  function Base(h: string): (b: string)
    ensures b != ""
  {
    var s := Strip(h);
    if s == "" then "col" else s
  }

  /** The `n`-th name tried for the label `h` (lines 181-185): `h` itself,
      then `h_1`, `h_2`, ... */
  function Candidate(h: string, n: nat): string
  {
    if n == 0 then h else h + "_" + DecimalString(n)
  }

  lemma CandidateInjective(h: string, m: nat, n: nat)
    requires Candidate(h, m) == Candidate(h, n)
    ensures m == n
  {
    if m > 0 && n > 0 {
      var c := Candidate(h, m);
      assert DecimalString(m) == c[|h| + 1..];
      assert DecimalString(n) == c[|h| + 1..];
      DecimalInjective(m, n);
    } else {
      assert |Candidate(h, m)| == |Candidate(h, n)|;
    }
  }

  function CandidateSet(h: string, n: nat): set<string>
  {
    set m | 0 <= m < n :: Candidate(h, m)
  }

  lemma {:induction false} CandidateSetSize(h: string, n: nat)
    ensures |CandidateSet(h, n)| == n
  {
    if n > 0 {
      var prev, c := CandidateSet(h, n - 1), Candidate(h, n - 1);
      CandidateSetSize(h, n - 1);
      assert CandidateSet(h, n) == prev + {c};
      forall m | 0 <= m < n - 1
        ensures Candidate(h, m) != c
      {
        if Candidate(h, m) == c {
          CandidateInjective(h, m, n - 1);
        }
      }
      assert c !in prev;
    }
  }

  lemma {:induction false} SubsetSize<T>(a: set<T>, b: set<T>)
    requires a <= b
    ensures |a| <= |b|
  {
    if a != {} {
      var x :| x in a;
      SubsetSize(a - {x}, b - {x});
    }
  }

  /** The names tried so far are all taken, so there are no more of them
      than names taken: the search at lines 183-185 ends. */
  lemma CandidatesCount(h: string, seen: set<string>, n: nat)
    requires forall m :: 0 <= m < n ==> Candidate(h, m) in seen
    ensures n <= |seen|
  {
    CandidateSetSize(h, n);
    SubsetSize(CandidateSet(h, n), seen);
  }

  /** The first name from the `i`-th on that is not taken. */
  function FirstFree(h: string, seen: set<string>, i: nat): (r: string)
    requires forall m :: 0 <= m < i ==> Candidate(h, m) in seen
    ensures r !in seen
    decreases |seen| - i
  {
    CandidatesCount(h, seen, i);
    if Candidate(h, i) !in seen then Candidate(h, i) else FirstFree(h, seen, i + 1)
  }

  /** The free name is the least-numbered name not taken. */
  lemma {:induction false} FirstFreeLeast(h: string, seen: set<string>, i: nat) returns (n: nat)
    requires forall m :: 0 <= m < i ==> Candidate(h, m) in seen
    ensures FirstFree(h, seen, i) == Candidate(h, n)
    ensures forall m :: 0 <= m < n ==> Candidate(h, m) in seen
    decreases |seen| - i
  {
    CandidatesCount(h, seen, i);
    if Candidate(h, i) !in seen {
      n := i;
    } else {
      n := FirstFreeLeast(h, seen, i + 1);
    }
  }

  /** The labels of lines 175-187: each label is the first free name of its
      stripped base among the labels before it. */
  function DedupLabels(header: seq<string>): (labels: seq<string>)
    ensures |labels| == |header|
  {
    if header == [] then []
    else
      var p := DedupLabels(header[..|header| - 1]);
      p + [FirstFree(Base(header[|header| - 1]), Elements(p), 0)]
  }

  /** The labels are pairwise distinct. */
  lemma {:induction false} DedupDistinct(header: seq<string>)
    ensures forall i, j :: 0 <= i < j < |header| ==> DedupLabels(header)[i] != DedupLabels(header)[j]
  {
    if header != [] {
      var n := |header| - 1;
      var p := DedupLabels(header[..n]);
      DedupDistinct(header[..n]);
      var labels := DedupLabels(header);
      assert labels[..n] == p;
      forall i, j | 0 <= i < j < |header|
        ensures labels[i] != labels[j]
      {
        if j == n {
          assert labels[i] in Elements(p);
        } else {
          assert labels[i] == p[i] && labels[j] == p[j];
        }
      }
    }
  }

  lemma {:induction false} DedupPrefix(header: seq<string>, k: nat)
    requires k <= |header|
    ensures DedupLabels(header)[..k] == DedupLabels(header[..k])
    decreases |header|
  {
    if k < |header| {
      var n := |header| - 1;
      assert header[..n][..k] == header[..k];
      DedupPrefix(header[..n], k);
      assert DedupLabels(header)[..n] == DedupLabels(header[..n]);
    } else {
      assert header[..k] == header;
    }
  }

  /** Label `k` is the least-numbered name of `Base(header[k])` that no
      earlier label took: the base itself when it is new (a first
      occurrence keeps its stripped name), else the base followed by `_`
      and the least free number. */
  lemma DedupRule(header: seq<string>, k: nat) returns (n: nat)
    requires k < |header|
    ensures DedupLabels(header)[k] == Candidate(Base(header[k]), n)
    ensures forall m :: 0 <= m < n ==> Candidate(Base(header[k]), m) in DedupLabels(header)[..k]
    ensures Candidate(Base(header[k]), n) !in DedupLabels(header)[..k]
  {
    DedupPrefix(header, k + 1);
    DedupPrefix(header, k);
    var h := header[..k + 1];
    assert h[..k] == header[..k];
    var p := DedupLabels(header[..k]);
    n := FirstFreeLeast(Base(header[k]), Elements(p), 0);
    assert DedupLabels(header)[..k + 1][k] == DedupLabels(header)[k];
  }

  /** Lines 175-187: the de-duplication loop, with the labels taken so far
      in `seen`. */
  method Dedup(header: seq<string>) returns (labels: seq<string>)
    ensures labels == DedupLabels(header)
  {
    var seen: set<string> := {};
    labels := [];
    for k := 0 to |header|
      invariant labels == DedupLabels(header[..k])
      invariant seen == Elements(labels)
    {
      var hs := Strip(header[k]);
      if hs == "" {
        hs := "col";
      }
      var base := FreeName(hs, seen);
      DedupStep(header, k, labels);
      ElementsAppend(labels, base);
      seen := seen + {base};
      labels := labels + [base];
    }
    assert header[..|header|] == header;
  }

  lemma DedupStep(header: seq<string>, k: nat, labels: seq<string>)
    requires k < |header| && labels == DedupLabels(header[..k])
    ensures DedupLabels(header[..k + 1]) == labels + [FirstFree(Base(header[k]), Elements(labels), 0)]
  {
    assert header[..k + 1][..k] == header[..k];
  }

  lemma ElementsAppend(s: seq<string>, x: string)
    ensures Elements(s + [x]) == Elements(s) + {x}
  {
  }

  /** Lines 181-185: try `hs`, then `hs_1`, `hs_2`, ... until a name is
      not taken. */
  method FreeName(hs: string, seen: set<string>) returns (base: string)
    ensures base == FirstFree(hs, seen, 0)
  {
    base := hs;
    var i := 1;
    while base in seen
      invariant 1 <= i && base == Candidate(hs, i - 1)
      invariant forall m :: 0 <= m < i - 1 ==> Candidate(hs, m) in seen
      invariant FirstFree(hs, seen, i - 1) == FirstFree(hs, seen, 0)
      decreases |seen| - i
    {
      CandidatesCount(hs, seen, i);
      base := hs + "_" + DecimalString(i);
      i := i + 1;
    }
  }

  /** Lines 166-189: promote the first row when `Promotes` holds; the data
      rows are then the remaining rows. */
  method PromoteHeader(rows: seq<seq<string>>) returns (t: Table)
    ensures Promotes(rows) ==> t == Table(rows[1..], Some(DedupLabels(rows[0])))
    ensures !Promotes(rows) ==> t == Table(rows, None)
  {
    t := Table(rows, None);
    if |rows| > 1 {
      var first := NonEmptyCount(rows[0]);
      var restMax := MaxCount(rows[1..]);
      var least := if restMax >= 1 then restMax else 1;
      if first >= least {
        var labels := Dedup(rows[0]);
        t := Table(rows[1..], Some(labels));
      }
    }
  }
}
