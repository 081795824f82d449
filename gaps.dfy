/** Splitting a sequence into runs wherever consecutive keys are more than a
    tolerance apart. Three stages of the table parser cut sequences this
    way: column segmentation over sorted x-centres, the per-column vertical
    clustering of words, and row alignment of cluster centres. */
module Gaps {

  function Last<T>(s: seq<T>): T
    requires |s| > 0
  {
    s[|s| - 1]
  }

  /** The groups laid end to end. */
  function Concat<T>(gs: seq<seq<T>>): seq<T>
  {
    if gs == [] then [] else Concat(gs[..|gs| - 1]) + gs[|gs| - 1]
  }

  /** Between `lo` and `hi`, each key of `s` is at most `tol` above the key
      before it. */
  ghost predicate Steady<T>(s: seq<T>, key: T -> real, tol: real, lo: int, hi: int)
  {
    forall i, j :: 0 <= lo <= i && j == i + 1 && j < hi && j < |s| ==> key(s[j]) - key(s[i]) <= tol
  }

  /** `gs` cuts `s` into non-empty contiguous runs, in order; inside a run
      each key is at most `tol` above the key before it, and each run
      starts more than `tol` above the last key of the run before it. */
  ghost predicate SplitAtGaps<T>(s: seq<T>, key: T -> real, tol: real, gs: seq<seq<T>>)
  {
    && Concat(gs) == s
    && (forall k :: 0 <= k < |gs| ==> |gs[k]| > 0)
    && (forall k :: 0 <= k < |gs| ==> Steady(gs[k], key, tol, 0, |gs[k]|))
    && (forall k :: 0 < k < |gs| ==> key(gs[k][0]) - key(Last(gs[k - 1])) > tol)
  }

  /** The greedy grow rule, as a function: keep adding to the current run
      while the next key is within `tol` of the key of the element added
      last, otherwise close the run and start a new one. */
  function GapRuns<T>(s: seq<T>, key: T -> real, tol: real): (gs: seq<seq<T>>)
    ensures |gs| > 0 <==> |s| > 0
    ensures forall k :: 0 <= k < |gs| ==> |gs[k]| > 0
  {
    if s == [] then []
    else
      var p := GapRuns(s[..|s| - 1], key, tol);
      var x := s[|s| - 1];
      if p == [] then [[x]]
      else if key(x) - key(Last(Last(p))) <= tol then p[..|p| - 1] + [Last(p) + [x]]
      else p + [[x]]
  }

  /** The greedy runs are a split at the gaps; by `SplitAtGapsUnique` they
      are the only one. */
  lemma {:induction false} GapRunsSplit<T>(s: seq<T>, key: T -> real, tol: real)
    ensures SplitAtGaps(s, key, tol, GapRuns(s, key, tol))
  {
    if s != [] {
      var t := s[..|s| - 1];
      var p := GapRuns(t, key, tol);
      var x := s[|s| - 1];
      GapRunsSplit(t, key, tol);
      assert s == t + [x];
      if p == [] {
        ConcatEmpty(p);
        assert Concat([[x]]) == Concat([]) + [x];
      } else {
        var gs, current := p[..|p| - 1], Last(p);
        assert p == gs + [current];
        if key(x) - key(Last(current)) <= tol {
          GrowRun(t, key, tol, gs, current, x);
        } else {
          StartRun(t, key, tol, gs, current, x);
        }
      }
    }
  }

  /** Lines 106-114 and 134-142 of scripts/table_parser.py: the greedy
      clustering loop. */
  method SplitGreedy<T>(s: seq<T>, key: T -> real, tol: real) returns (gs: seq<seq<T>>)
    ensures gs == GapRuns(s, key, tol)
  {
    gs := [];
    if |s| == 0 {
      return;
    }
    var current := [s[0]];
    assert s[..1] == [s[0]] && s[..1][..0] == [];
    for i := 1 to |s|
      invariant |current| > 0
      invariant gs + [current] == GapRuns(s[..i], key, tol)
    {
      var x := s[i];
      GapRunsStep(s, key, tol, i, gs, current);
      if key(x) - key(current[|current| - 1]) <= tol {
        current := current + [x];
      } else {
        gs := gs + [current];
        current := [x];
      }
    }
    assert s[..|s|] == s;
    gs := gs + [current];
  }

  /** One step of the greedy rule on the prefix `s[..i]`. */
  lemma GapRunsStep<T>(s: seq<T>, key: T -> real, tol: real, i: nat, gs: seq<seq<T>>, current: seq<T>)
    requires 0 < i < |s| && |current| > 0
    requires gs + [current] == GapRuns(s[..i], key, tol)
    ensures GapRuns(s[..i + 1], key, tol) ==
      if key(s[i]) - key(Last(current)) <= tol then gs + [current + [s[i]]] else gs + [current] + [[s[i]]]
  {
    assert s[..i + 1][..i] == s[..i];
    var p := gs + [current];
    assert p[..|p| - 1] == gs;
  }

  /** Adding an element within `tol` of the last one to the current run. */
  lemma GrowRun<T>(s: seq<T>, key: T -> real, tol: real, gs: seq<seq<T>>, current: seq<T>, x: T)
    requires |current| > 0 && SplitAtGaps(s, key, tol, gs + [current])
    requires key(x) - key(Last(current)) <= tol
    ensures SplitAtGaps(s + [x], key, tol, gs + [current + [x]])
  {
    var before, after := gs + [current], gs + [current + [x]];
    assert before[..|gs|] == gs == after[..|gs|];
    assert Concat(after) == Concat(gs) + current + [x];
    forall k | 0 <= k < |after|
      ensures Steady(after[k], key, tol, 0, |after[k]|)
    {
      if k < |gs| {
        assert after[k] == before[k];
      } else {
        assert Steady(current, key, tol, 0, |current|) by { assert before[k] == current; }
        assert after[k] == current + [x];
      }
    }
    forall k | 0 < k < |after|
      ensures key(after[k][0]) - key(Last(after[k - 1])) > tol
    {
      assert after[k - 1] == before[k - 1];
      assert after[k][0] == before[k][0];
    }
  }

  /** Closing the current run and starting a new one at an element more
      than `tol` above the last one. */
  lemma StartRun<T>(s: seq<T>, key: T -> real, tol: real, gs: seq<seq<T>>, current: seq<T>, x: T)
    requires |current| > 0 && SplitAtGaps(s, key, tol, gs + [current])
    requires key(x) - key(Last(current)) > tol
    ensures SplitAtGaps(s + [x], key, tol, gs + [current] + [[x]])
  {
    var before := gs + [current];
    var after := before + [[x]];
    assert after[..|before|] == before;
    forall k | 0 <= k < |after|
      ensures Steady(after[k], key, tol, 0, |after[k]|)
    {
      if k < |before| {
        assert after[k] == before[k];
      }
    }
    forall k | 0 < k < |after|
      ensures key(after[k][0]) - key(Last(after[k - 1])) > tol
    {
      if k < |before| {
        assert after[k] == before[k] && after[k - 1] == before[k - 1];
      }
    }
  }

  lemma {:induction false} ConcatLength<T>(gs: seq<seq<T>>, k: nat)
    requires k <= |gs|
    ensures |Concat(gs[..k])| <= |Concat(gs)|
    decreases |gs|
  {
    if k < |gs| {
      assert gs[..|gs| - 1][..k] == gs[..k];
      ConcatLength(gs[..|gs| - 1], k);
    } else {
      assert gs[..k] == gs;
    }
  }

  /** Group `k` occupies the positions of `Concat(gs)` that follow the
      groups before it. */
  lemma {:induction false} ConcatSlice<T>(gs: seq<seq<T>>, k: nat)
    requires k < |gs|
    ensures |Concat(gs[..k])| + |gs[k]| <= |Concat(gs)|
    ensures Concat(gs)[|Concat(gs[..k])|..|Concat(gs[..k])| + |gs[k]|] == gs[k]
    decreases |gs|
  {
    var n := |gs| - 1;
    if k == n {
      assert gs[..n] == gs[..k];
    } else {
      assert gs[..n][..k] == gs[..k];
      ConcatSlice(gs[..n], k);
      var c := Concat(gs[..n]);
      assert Concat(gs) == c + gs[n];
      assert Concat(gs)[..|c|] == c;
    }
  }

  lemma ConcatNonEmpty<T>(gs: seq<seq<T>>)
    requires |gs| > 0 && |gs[|gs| - 1]| > 0
    ensures |Concat(gs)| >= |gs[|gs| - 1]| > 0
  {
  }

  lemma {:induction false} ConcatEmpty<T>(gs: seq<seq<T>>)
    requires forall k :: 0 <= k < |gs| ==> |gs[k]| > 0
    requires Concat(gs) == []
    ensures gs == []
  {
    if gs != [] {
      ConcatNonEmpty(gs);
    }
  }

  /** Dropping the last group leaves a split of the rest of the sequence. */
  lemma SplitAtGapsPrefix<T>(s: seq<T>, key: T -> real, tol: real, gs: seq<seq<T>>)
    requires SplitAtGaps(s, key, tol, gs) && |gs| > 0
    ensures |Last(gs)| <= |s|
    ensures s == s[..|s| - |Last(gs)|] + Last(gs)
    ensures SplitAtGaps(s[..|s| - |Last(gs)|], key, tol, gs[..|gs| - 1])
  {
    var p := gs[..|gs| - 1];
    assert s == Concat(p) + Last(gs);
    assert s[..|s| - |Last(gs)|] == Concat(p);
  }

  /** The split is determined by the sequence: two splits at the same
      tolerance are the same split. So the greedy rule cuts exactly where
      consecutive keys are more than `tol` apart, and nowhere else. */
  lemma {:induction false} SplitAtGapsUnique<T>(s: seq<T>, key: T -> real, tol: real, gs1: seq<seq<T>>, gs2: seq<seq<T>>)
    requires SplitAtGaps(s, key, tol, gs1)
    requires SplitAtGaps(s, key, tol, gs2)
    ensures gs1 == gs2
    decreases |s|
  {
    if gs1 == [] {
      ConcatEmpty(gs2);
    } else if gs2 == [] {
      ConcatEmpty(gs1);
    } else {
      var g1, g2 := Last(gs1), Last(gs2);
      SplitAtGapsPrefix(s, key, tol, gs1);
      SplitAtGapsPrefix(s, key, tol, gs2);
      LastRunsAgree(s, key, tol, gs1, gs2);
      LastRunsAgree(s, key, tol, gs2, gs1);
      assert g1 == s[|s| - |g1|..] == g2;
      var t := s[..|s| - |g1|];
      SplitAtGapsUnique(t, key, tol, gs1[..|gs1| - 1], gs2[..|gs2| - 1]);
      assert gs1 == gs1[..|gs1| - 1] + [g1];
      assert gs2 == gs2[..|gs2| - 1] + [g2];
    }
  }

  /** The last run of one split is at least as long as the last run of another. */
  lemma LastRunsAgree<T>(s: seq<T>, key: T -> real, tol: real, gs1: seq<seq<T>>, gs2: seq<seq<T>>)
    requires SplitAtGaps(s, key, tol, gs1) && |gs1| > 0
    requires SplitAtGaps(s, key, tol, gs2) && |gs2| > 0
    ensures |Last(gs1)| >= |Last(gs2)|
  {
    var g1, g2 := Last(gs1), Last(gs2);
    SplitAtGapsPrefix(s, key, tol, gs1);
    SplitAtGapsPrefix(s, key, tol, gs2);
    if |g1| < |g2| {
      var p := |s| - |g1|;
      var rest := gs1[..|gs1| - 1];
      SplitAtGapsPrefix(s[..p], key, tol, rest);
    }
  }

  lemma SteadySlice<T>(s: seq<T>, key: T -> real, tol: real, a: nat, c: nat)
    requires a <= c <= |s| && Steady(s, key, tol, a, c)
    ensures Steady(s[a..c], key, tol, 0, c - a)
  {
    var g := s[a..c];
    forall i, j | 0 <= i && j == i + 1 && j < |g|
      ensures key(g[j]) - key(g[i]) <= tol
    {
      assert g[i] == s[a + i] && g[j] == s[a + j];
    }
  }

  /** Appending the run `s[a..c]` to a split of `s[..a]`. */
  lemma AppendRun<T>(s: seq<T>, key: T -> real, tol: real, gs: seq<seq<T>>, a: nat, c: nat)
    requires a < c <= |s|
    requires SplitAtGaps(s[..a], key, tol, gs)
    requires Steady(s, key, tol, a, c)
    requires a > 0 ==> key(s[a]) - key(s[a - 1]) > tol
    ensures SplitAtGaps(s[..c], key, tol, gs + [s[a..c]])
  {
    var g := s[a..c];
    var after := gs + [g];
    assert after[..|gs|] == gs;
    assert Concat(after) == s[..c] by {
      assert s[..c] == s[..a] + g;
    }
    if a > 0 {
      assert |gs| > 0;
      assert key(g[0]) - key(Last(gs[|gs| - 1])) > tol by {
        SplitAtGapsPrefix(s[..a], key, tol, gs);
        assert Last(Last(gs)) == s[a - 1];
      }
    } else {
      ConcatEmpty(gs);
    }
    forall k | 0 <= k < |after|
      ensures Steady(after[k], key, tol, 0, |after[k]|)
    {
      if k < |gs| {
        assert after[k] == gs[k];
      } else {
        SteadySlice(s, key, tol, a, c);
      }
    }
    forall k | 0 < k < |after|
      ensures key(after[k][0]) - key(Last(after[k - 1])) > tol
    {
      assert after[k - 1] == gs[k - 1];
      if k < |gs| {
        assert after[k] == gs[k];
      }
    }
  }

  /** Every element of the concatenation lies in one of the groups. */
  lemma {:induction false} InConcat<T>(gs: seq<seq<T>>, x: T) returns (k: nat)
    requires x in Concat(gs)
    ensures k < |gs| && x in gs[k]
  {
    var n := |gs| - 1;
    if x in gs[n] {
      k := n;
    } else {
      assert x in Concat(gs[..n]);
      k := InConcat(gs[..n], x);
    }
  }

  /** Every element of a group is in the concatenation. */
  lemma {:induction false} ConcatContains<T>(gs: seq<seq<T>>, k: nat, x: T)
    requires k < |gs| && x in gs[k]
    ensures x in Concat(gs)
  {
    var n := |gs| - 1;
    if k < n {
      assert gs[..n][k] == gs[k];
      ConcatContains(gs[..n], k, x);
    }
  }
}
