/** Python's `sorted(xs, key=...)`: a stable sort, written as an insertion
    sort over an ordering `leq` (for `key=k`, `leq(a, b)` is `k(a) <= k(b)`).
    Each element is inserted after every element already placed that is
    not greater than it, so elements with equal keys keep their input order. */
module Sorting {

  /** `leq` is total and transitive: the orderings that `sorted` is used with. */
  ghost predicate TotalPreorder<T(!new)>(leq: (T, T) -> bool)
  {
    && (forall a, b :: leq(a, b) || leq(b, a))
    && (forall a, b, c :: leq(a, b) && leq(b, c) ==> leq(a, c))
  }

  predicate SortedBy<T>(s: seq<T>, leq: (T, T) -> bool)
  {
    forall i, j :: 0 <= i < j < |s| ==> leq(s[i], s[j])
  }

  /** Inserts `x` after the leading run of elements not greater than `x`. */
  function Insert<T>(x: T, s: seq<T>, leq: (T, T) -> bool): (r: seq<T>)
    ensures |r| == |s| + 1
  {
    if s == [] then [x]
    else if leq(s[0], x) then [s[0]] + Insert(x, s[1..], leq)
    else [x] + s
  }

  /** `sorted(s)` under the ordering `leq`. */
  function SortBy<T>(s: seq<T>, leq: (T, T) -> bool): (r: seq<T>)
    ensures |r| == |s|
  {
    if s == [] then []
    else Insert(s[|s| - 1], SortBy(s[..|s| - 1], leq), leq)
  }

  lemma {:induction false} InsertPermutes<T>(x: T, s: seq<T>, leq: (T, T) -> bool)
    ensures multiset(Insert(x, s, leq)) == multiset(s) + multiset{x}
  {
    if s != [] && leq(s[0], x) {
      assert s == [s[0]] + s[1..];
      InsertPermutes(x, s[1..], leq);
    }
  }

  /** `SortBy` rearranges its input: the result has the same elements, each
      as often. */
  lemma {:induction false} SortByPermutes<T>(s: seq<T>, leq: (T, T) -> bool)
    ensures multiset(SortBy(s, leq)) == multiset(s)
  {
    if s != [] {
      assert s == s[..|s| - 1] + [s[|s| - 1]];
      SortByPermutes(s[..|s| - 1], leq);
      InsertPermutes(s[|s| - 1], SortBy(s[..|s| - 1], leq), leq);
    }
  }

  lemma {:induction false} InsertSorted<T(!new)>(x: T, s: seq<T>, leq: (T, T) -> bool)
    requires TotalPreorder(leq)
    requires SortedBy(s, leq)
    ensures SortedBy(Insert(x, s, leq), leq)
  {
    if s != [] && leq(s[0], x) {
      var t := Insert(x, s[1..], leq);
      InsertSorted(x, s[1..], leq);
      InsertPermutes(x, s[1..], leq);
      assert forall y :: y in multiset(t) ==> y == x || y in multiset(s[1..]);
      forall j | 0 <= j < |t| ensures leq(s[0], t[j]) {
        assert t[j] in multiset(t);
        if t[j] != x {
          var k :| 0 <= k < |s[1..]| && s[1..][k] == t[j];
          assert s[k + 1] == t[j];
        }
      }
    }
  }

  /** The result of `SortBy` is sorted: with `SortByPermutes`, it is a
      sorted permutation of the input. */
  lemma {:induction false} SortBySorted<T(!new)>(s: seq<T>, leq: (T, T) -> bool)
    requires TotalPreorder(leq)
    ensures SortedBy(SortBy(s, leq), leq)
  {
    if s != [] {
      SortBySorted(s[..|s| - 1], leq);
      InsertSorted(s[|s| - 1], SortBy(s[..|s| - 1], leq), leq);
    }
  }

  lemma {:induction false} InsertAtEnd<T>(x: T, s: seq<T>, leq: (T, T) -> bool)
    requires forall k :: 0 <= k < |s| ==> leq(s[k], x)
    ensures Insert(x, s, leq) == s + [x]
  {
    if s != [] {
      InsertAtEnd(x, s[1..], leq);
      assert [s[0]] + (s[1..] + [x]) == s + [x];
    }
  }

  /** Sorting a sequence that is already sorted leaves it unchanged. */
  lemma {:induction false} SortBySortedIdentity<T>(s: seq<T>, leq: (T, T) -> bool)
    requires SortedBy(s, leq)
    ensures SortBy(s, leq) == s
  {
    if s != [] {
      var p := s[..|s| - 1];
      SortBySortedIdentity(p, leq);
      InsertAtEnd(s[|s| - 1], p, leq);
      assert p + [s[|s| - 1]] == s;
    }
  }

  /** `sorted` on plain numbers. */
  predicate RealLeq(a: real, b: real)
  {
    a <= b
  }

  lemma RealLeqTotalPreorder()
    ensures TotalPreorder(RealLeq)
  {
  }
}
