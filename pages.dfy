/** The page-range parser `validate_pages` (scripts/pdf_processor.py,
    lines 15-33): a comma-separated list of pages `p` and ranges `a-b`
    becomes the sorted list of distinct pages in `1..total`, or an error. */
module Pages {
  import opened Wrappers
  import opened Text

  /** The `ValueError`s the parser raises. */
  datatype PageError =
    | NotAnInteger(text: string)   // `int(text)` fails (lines 24, 29)
    | WrongSideCount(part: string) // `start, end = part.split("-")` does not get two pieces (line 23)
    | InvalidRange(part: string)   // line 26
    | InvalidPage(page: int)       // line 31

  /** A digit string with single underscores between digits, as `int()`
      accepts it. */
  predicate Grouped(s: string)
  {
    && |s| > 0 && IsDigit(s[0]) && IsDigit(s[|s| - 1])
    && forall k :: 0 <= k < |s| ==> IsDigit(s[k]) || (s[k] == '_' && k + 1 < |s| && IsDigit(s[k + 1]))
  }

  lemma GroupedChars(s: string)
    requires Grouped(s)
    ensures forall k :: 0 <= k < |s| ==> IsDigit(s[k]) || s[k] == '_'
  {
    forall k | 0 <= k < |s|
      ensures IsDigit(s[k]) || s[k] == '_'
    {
      assert IsDigit(s[k]) || (s[k] == '_' && k + 1 < |s| && IsDigit(s[k + 1]));
    }
  }

  /** The digits of `s`, underscores dropped. */
  function DropUnderscores(s: string): (r: string)
    requires forall k :: 0 <= k < |s| ==> IsDigit(s[k]) || s[k] == '_'
    ensures AllDigits(r)
  {
    if s == [] then [] else (if s[0] == '_' then [] else [s[0]]) + DropUnderscores(s[1..])
  }

  /** Python's `int(s)` on a string: surrounding whitespace, an optional
      sign, then decimal digits in groups separated by single underscores. */
  function ParseInt(s: string): Option<int>
  {
    var t := Strip(s);
    var signed := |t| > 0 && (t[0] == '+' || t[0] == '-');
    var digits := if signed then t[1..] else t;
    if !Grouped(digits) then None
    else
      GroupedChars(digits);
      var n: int := DigitsValue(DropUnderscores(digits));
      Some(if signed && t[0] == '-' then -n else n)
  }

  /** `set(range(a, b + 1))`: the pages from `a` to `b`. */
  function Range(a: int, b: int): (r: set<int>)
    ensures forall p :: p in r <==> a <= p <= b
    decreases b - a
  {
    if a > b then {} else {a} + Range(a + 1, b)
  }

  /** What one comma-separated part contributes (lines 22-32). */
  function PartPages(part: string, total: int): Result<set<int>, PageError>
  {
    if '-' in part then
      var sides := Split(part, '-');
      if |sides| != 2 then Failure(WrongSideCount(part))
      else RangePages(part, ParseInt(sides[0]), sides[0], ParseInt(sides[1]), sides[1], total)
    else SinglePage(ParseInt(part), part, total)
  }

  /** Lines 24-27: the range between the sides `x` and `y`, read as `a` and `b`. */
  function RangePages(part: string, a: Option<int>, x: string, b: Option<int>, y: string, total: int): (r: Result<set<int>, PageError>)
    ensures r.Success? ==> a.Some? && b.Some? && forall p :: p in r.value ==> 1 <= a.value <= p <= b.value <= total
  {
    if a.None? then Failure(NotAnInteger(x))
    else if b.None? then Failure(NotAnInteger(y))
    else if a.value < 1 || b.value > total || a.value > b.value then Failure(InvalidRange(part))
    else Success(Range(a.value, b.value))
  }

  /** Lines 29-32: the single page `part`, read as `p`. */
  function SinglePage(p: Option<int>, part: string, total: int): (r: Result<set<int>, PageError>)
    ensures r.Success? ==> p.Some? && 1 <= p.value <= total && r.value == {p.value}
  {
    if p.None? then Failure(NotAnInteger(part))
    else if p.value < 1 || p.value > total then Failure(InvalidPage(p.value))
    else Success({p.value})
  }

  /** The outcome of every part, in order. */
  function Outcomes(parts: seq<string>, total: int): (qs: seq<Result<set<int>, PageError>>)
    ensures |qs| == |parts| && forall k :: 0 <= k < |parts| ==> qs[k] == PartPages(parts[k], total)
  {
    seq(|parts|, k requires 0 <= k < |parts| => PartPages(parts[k], total))
  }

  /** The union of the outcomes' pages, or the first error among them. */
  function Combine(qs: seq<Result<set<int>, PageError>>): Result<set<int>, PageError>
  {
    if qs == [] then Success({}) else Extend(Combine(qs[..|qs| - 1]), qs[|qs| - 1])
  }

  /** The pages so far `r`, updated by the next part's outcome `q`. */
  function Extend(r: Result<set<int>, PageError>, q: Result<set<int>, PageError>): Result<set<int>, PageError>
  {
    if r.Failure? then r
    else if q.Failure? then Failure(q.error)
    else Success(r.value + q.value)
  }

  lemma Pick<T>(s: set<T>) returns (x: T)
    requires s != {}
    ensures x in s
  {
    x :| x in s;
  }

  lemma {:induction false} SetHasMin(s: set<int>)
    requires s != {}
    ensures exists m :: m in s && forall y :: y in s ==> m <= y
  {
    var x := Pick(s);
    var rest := s - {x};
    if rest != {} {
      SetHasMin(rest);
      var m :| m in rest && forall y :: y in rest ==> m <= y;
      var least := if x < m then x else m;
      forall y | y in s
        ensures least <= y
      {
        if y != x {
          assert y in rest;
        }
      }
    } else {
      forall y | y in s
        ensures x <= y
      {
        assert y in rest || y == x;
      }
    }
  }

  /** `min(s)` of a non-empty set. */
  function Least(s: set<int>): (m: int)
    requires s != {}
    ensures m in s && forall y :: y in s ==> m <= y
  {
    SetHasMin(s);
    var m :| m in s && forall y :: y in s ==> m <= y;
    m
  }

  /** `sorted(pages)` of a set: its elements in increasing order. */
  function SortedElements(s: set<int>): (r: seq<int>)
    ensures forall i, j :: 0 <= i < j < |r| ==> r[i] < r[j]
    ensures forall x :: x in r <==> x in s
    decreases |s|
  {
    if s == {} then []
    else
      var m := Least(s);
      [m] + SortedElements(s - {m})
  }

  /** The result of `validate_pages(spec, total)`. */
  function PageSelection(spec: string, total: int): Result<seq<int>, PageError>
  {
    var r := Combine(Outcomes(Split(spec, ','), total));
    if r.Failure? then Failure(r.error) else Success(SortedElements(r.value))
  }

  lemma CombineStep(qs: seq<Result<set<int>, PageError>>, k: nat)
    requires k < |qs|
    ensures Combine(qs[..k + 1]) == Extend(Combine(qs[..k]), qs[k])
  {
    assert qs[..k + 1][..k] == qs[..k];
  }

  /** An error among the first `k` outcomes is the error of them all. */
  lemma {:induction false} CombineFailsFrom(qs: seq<Result<set<int>, PageError>>, k: nat)
    requires k <= |qs| && Combine(qs[..k]).Failure?
    ensures Combine(qs) == Combine(qs[..k])
    decreases |qs| - k
  {
    if k < |qs| {
      var n := |qs| - 1;
      var p := qs[..n];
      assert p[..k] == qs[..k];
      CombineFailsFrom(p, k);
      CombineStep(qs, n);
      assert qs[..n + 1] == qs;
    } else {
      assert qs[..k] == qs;
    }
  }

  /** Lines 15-33: the parts in order, stopping at the first error. */
  method ValidatePages(spec: string, total: int) returns (r: Result<seq<int>, PageError>)
    ensures r == PageSelection(spec, total)
  {
    var pages: set<int> := {};
    var parts := Split(spec, ',');
    ghost var qs := Outcomes(parts, total);
    for k := 0 to |parts|
      invariant Combine(qs[..k]) == Success(pages)
    {
      var q := ParsePart(parts[k], total);
      CombineStep(qs, k);
      if q.Failure? {
        CombineFailsFrom(qs, k + 1);
        return Failure(q.error);
      }
      pages := pages + q.value;
    }
    assert qs[..|parts|] == qs;
    return Success(SortedElements(pages));
  }

  /** Lines 22-32 for one part: a range `start-end` or a single page, with
      the errors raised along the way. This is the step-by-step counterpart,
      with early returns, of the function `PartPages` (through `RangePages`
      and `SinglePage`) that specifies it. */
  method ParsePart(part: string, total: int) returns (q: Result<set<int>, PageError>)
    ensures q == PartPages(part, total)
  {
    if '-' in part {
      var sides := Split(part, '-');
      if |sides| != 2 {
        return Failure(WrongSideCount(part));
      }
      var a := ParseInt(sides[0]);
      if a.None? {
        return Failure(NotAnInteger(sides[0]));
      }
      var b := ParseInt(sides[1]);
      if b.None? {
        return Failure(NotAnInteger(sides[1]));
      }
      var start, end := a.value, b.value;
      if start < 1 || end > total || start > end {
        return Failure(InvalidRange(part));
      }
      return Success(Range(start, end));
    } else {
      var p := ParseInt(part);
      if p.None? {
        return Failure(NotAnInteger(part));
      }
      if p.value < 1 || p.value > total {
        return Failure(InvalidPage(p.value));
      }
      return Success({p.value});
    }
  }

  /** Reading back the decimal digits of `n` gives `n`. */
  lemma ParseIntDecimal(n: nat)
    ensures ParseInt(DecimalString(n)) == Some(n)
  {
    var d := DecimalString(n);
    ParseIntDigits(d);
    DecimalRoundTrip(n);
  }

  /** A plain digit string reads as its decimal value. */
  lemma ParseIntDigits(d: string)
    requires |d| > 0 && AllDigits(d)
    ensures ParseInt(d) == Some(DigitsValue(d))
  {
    assert !IsSpace(d[0]) && !IsSpace(d[|d| - 1]);
    StripUnchanged(d);
    assert !(d[0] == '+' || d[0] == '-');
    assert Grouped(d);
    DropDigits(d);
  }

  lemma {:induction false} DropDigits(s: string)
    requires AllDigits(s)
    ensures DropUnderscores(s) == s
  {
    if s != [] {
      DropDigits(s[1..]);
    }
  }

  lemma DigitsHaveNoDash(s: string)
    requires AllDigits(s)
    ensures '-' !in s && ',' !in s
  {
  }

  /** An empty side is not an integer. */
  lemma ParseIntEmpty()
    ensures ParseInt("") == None
  {
    StripUnchanged("");
  }

  /** A valid range part `a-b` contributes the pages from `a` to `b`; an
      out-of-order or out-of-bounds one is an invalid range. */
  lemma PartRange(a: nat, b: nat, total: int)
    ensures var part := DecimalString(a) + "-" + DecimalString(b);
      PartPages(part, total) ==
        if 1 <= a && b <= total && a <= b then Success(Range(a, b)) else Failure(InvalidRange(part))
  {
    var x, y := DecimalString(a), DecimalString(b);
    var part := x + "-" + y;
    DigitsHaveNoDash(x);
    DigitsHaveNoDash(y);
    assert Join([x, y], '-') == part;
    SplitJoin([x, y], '-');
    assert part[|x|] == '-';
    ParseIntDecimal(a);
    ParseIntDecimal(b);
  }

  /** A single page `p` contributes `{p}` when it lies in `1..total`. */
  lemma PartSingle(p: nat, total: int)
    ensures PartPages(DecimalString(p), total) ==
      if 1 <= p <= total then Success({p}) else Failure(InvalidPage(p))
  {
    DigitsHaveNoDash(DecimalString(p));
    ParseIntDecimal(p);
  }

  /** A part starting with `-` has an empty left side: `"-3"` is an error. */
  lemma PartLeadingDash(n: nat, total: int)
    ensures PartPages("-" + DecimalString(n), total) == Failure(NotAnInteger(""))
  {
    var y := DecimalString(n);
    var part := "-" + y;
    DigitsHaveNoDash(y);
    assert Join(["", y], '-') == part;
    SplitJoin(["", y], '-');
    assert part[0] == '-';
    ParseIntEmpty();
  }

  /** A part with two or more dashes does not split into two sides. */
  lemma PartManyDashes(part: string, total: int)
    requires Occurrences(part, '-') >= 2
    ensures PartPages(part, total) == Failure(WrongSideCount(part))
  {
    SplitLength(part, '-');
    if '-' !in part {
      OccurrencesAbsent(part, '-');
    }
  }

  /** All or nothing: the outcomes combine to pages exactly when every
      one of them is a success. */
  lemma {:induction false} CombineAllOrNothing(qs: seq<Result<set<int>, PageError>>)
    ensures Combine(qs).Success? <==> forall k :: 0 <= k < |qs| ==> qs[k].Success?
  {
    if qs != [] {
      var n := |qs| - 1;
      var p := qs[..n];
      CombineAllOrNothing(p);
      CombineStep(qs, n);
      assert qs[..n + 1] == qs;
      assert forall k :: 0 <= k < n ==> p[k] == qs[k];
    }
  }

  /** When some outcome is an error, the result is the first error. */
  lemma CombineFirstError(qs: seq<Result<set<int>, PageError>>, k: nat)
    requires k < |qs| && qs[k].Failure?
    requires forall j :: 0 <= j < k ==> qs[j].Success?
    ensures Combine(qs) == Failure(qs[k].error)
  {
    var p := qs[..k];
    assert forall j :: 0 <= j < k ==> p[j] == qs[j];
    CombineAllOrNothing(p);
    CombineStep(qs, k);
    CombineFailsFrom(qs, k + 1);
  }

  /** The combined pages are the union of the outcomes' pages. */
  lemma {:induction false} CombineMembers(qs: seq<Result<set<int>, PageError>>, x: int)
    requires Combine(qs).Success?
    ensures x in Combine(qs).value <==> exists k :: 0 <= k < |qs| && qs[k].Success? && x in qs[k].value
  {
    if qs != [] {
      var n := |qs| - 1;
      var p := qs[..n];
      CombineStep(qs, n);
      assert qs[..n + 1] == qs;
      CombineMembers(p, x);
      if x in Combine(p).value {
        var k :| 0 <= k < n && p[k].Success? && x in p[k].value;
        assert qs[k] == p[k];
      }
      if exists k :: 0 <= k < |qs| && qs[k].Success? && x in qs[k].value {
        var k :| 0 <= k < |qs| && qs[k].Success? && x in qs[k].value;
        if k < n {
          assert p[k] == qs[k];
        }
      }
    }
  }

  /** Pages that every outcome keeps within `lo..hi` stay within it. */
  lemma {:induction false} CombineWithin(qs: seq<Result<set<int>, PageError>>, lo: int, hi: int)
    requires Combine(qs).Success?
    requires forall k :: 0 <= k < |qs| && qs[k].Success? ==> forall x :: x in qs[k].value ==> lo <= x <= hi
    ensures forall x :: x in Combine(qs).value ==> lo <= x <= hi
  {
    if qs != [] {
      var n := |qs| - 1;
      var p := qs[..n];
      CombineStep(qs, n);
      assert qs[..n + 1] == qs;
      assert forall k :: 0 <= k < n ==> p[k] == qs[k];
      CombineWithin(p, lo, hi);
    }
  }

  /** Reordering or repeating parts selects the same pages: only the set of
      parts matters. */
  lemma SelectionSameParts(p1: seq<string>, p2: seq<string>, total: int)
    requires Elements(p1) == Elements(p2)
    ensures Combine(Outcomes(p1, total)).Success? <==> Combine(Outcomes(p2, total)).Success?
    ensures Combine(Outcomes(p1, total)).Success? ==>
      Combine(Outcomes(p1, total)).value == Combine(Outcomes(p2, total)).value
  {
    var q1, q2 := Outcomes(p1, total), Outcomes(p2, total);
    CombineAllOrNothing(q1);
    CombineAllOrNothing(q2);
    if Combine(q1).Success? {
      SameParts(p1, p2, total);
    }
    if Combine(q2).Success? {
      SameParts(p2, p1, total);
    }
    if Combine(q1).Success? && Combine(q2).Success? {
      forall x | x in Combine(q1).value
        ensures x in Combine(q2).value
      {
        SameMember(p1, p2, total, x);
      }
      forall x | x in Combine(q2).value
        ensures x in Combine(q1).value
      {
        SameMember(p2, p1, total, x);
      }
    }
  }

  lemma SameMember(p1: seq<string>, p2: seq<string>, total: int, x: int)
    requires Elements(p1) == Elements(p2)
    requires Combine(Outcomes(p1, total)).Success? && Combine(Outcomes(p2, total)).Success?
    requires x in Combine(Outcomes(p1, total)).value
    ensures x in Combine(Outcomes(p2, total)).value
  {
    var q1, q2 := Outcomes(p1, total), Outcomes(p2, total);
    CombineMembers(q1, x);
    CombineMembers(q2, x);
    var k :| 0 <= k < |q1| && q1[k].Success? && x in q1[k].value;
    assert p1[k] in Elements(p2);
    var j :| 0 <= j < |p2| && p2[j] == p1[k];
    assert q2[j] == q1[k];
  }

  lemma SameParts(p1: seq<string>, p2: seq<string>, total: int)
    requires Elements(p1) == Elements(p2)
    requires forall k :: 0 <= k < |p1| ==> PartPages(p1[k], total).Success?
    ensures forall k :: 0 <= k < |p2| ==> PartPages(p2[k], total).Success?
  {
    forall k | 0 <= k < |p2|
      ensures PartPages(p2[k], total).Success?
    {
      assert p2[k] in Elements(p1);
      var j :| 0 <= j < |p1| && p1[j] == p2[k];
    }
  }

  /** The pages of a valid part lie in `1..total`. */
  lemma PartInRange(part: string, total: int)
    requires PartPages(part, total).Success?
    ensures forall x :: x in PartPages(part, total).value ==> 1 <= x <= total
  {
    if '-' in part {
      var sides := Split(part, '-');
    }
  }

  /** A valid part selects at least one page. */
  lemma PartNonEmpty(part: string, total: int) returns (x: int)
    requires PartPages(part, total).Success?
    ensures x in PartPages(part, total).value
  {
    if '-' in part {
      x := ParseInt(Split(part, '-')[0]).value;
    } else {
      x := ParseInt(part).value;
    }
  }

  /** Every selected page lies in `1..total`. */
  lemma SelectionInRange(parts: seq<string>, total: int)
    requires Combine(Outcomes(parts, total)).Success?
    ensures forall x :: x in Combine(Outcomes(parts, total)).value ==> 1 <= x <= total
  {
    var qs := Outcomes(parts, total);
    forall k | 0 <= k < |qs| && qs[k].Success?
      ensures forall x :: x in qs[k].value ==> 1 <= x <= total
    {
      PartInRange(parts[k], total);
    }
    CombineWithin(qs, 1, total);
  }

  /** A successful selection has at least one page: the spec has at least
      one part, and every valid part selects a page. */
  lemma SelectionNonEmpty(parts: seq<string>, total: int) returns (x: int)
    requires |parts| > 0 && Combine(Outcomes(parts, total)).Success?
    ensures x in Combine(Outcomes(parts, total)).value
  {
    var qs := Outcomes(parts, total);
    CombineAllOrNothing(qs);
    x := PartNonEmpty(parts[0], total);
    CombineMembers(qs, x);
  }

  /** The result of `validate_pages`: strictly increasing, so sorted and
      free of duplicates, every page within `1..total`, and never empty. */
  lemma PagesSortedInRange(spec: string, total: int)
    requires PageSelection(spec, total).Success?
    ensures var ps := PageSelection(spec, total).value;
      && (forall i, j :: 0 <= i < j < |ps| ==> ps[i] < ps[j])
      && (forall i :: 0 <= i < |ps| ==> 1 <= ps[i] <= total)
      && |ps| > 0
  {
    var parts := Split(spec, ',');
    var s := Combine(Outcomes(parts, total)).value;
    assert PageSelection(spec, total).value == SortedElements(s);
    SelectionInRange(parts, total);
    var x := SelectionNonEmpty(parts, total);
    SortedWithin(s, 1, total, x);
  }

  lemma SortedWithin(s: set<int>, lo: int, hi: int, x: int)
    requires forall y :: y in s ==> lo <= y <= hi
    requires x in s
    ensures forall i :: 0 <= i < |SortedElements(s)| ==> lo <= SortedElements(s)[i] <= hi
    ensures |SortedElements(s)| > 0
  {
    assert x in SortedElements(s);
    forall i | 0 <= i < |SortedElements(s)|
      ensures lo <= SortedElements(s)[i] <= hi
    {
      assert SortedElements(s)[i] in s;
    }
  }

  /** Two page specs with the same set of parts give the same result when
      either succeeds. */
  lemma PagesSameParts(spec1: string, spec2: string, total: int)
    requires Elements(Split(spec1, ',')) == Elements(Split(spec2, ','))
    ensures PageSelection(spec1, total).Success? <==> PageSelection(spec2, total).Success?
    ensures PageSelection(spec1, total).Success? ==> PageSelection(spec1, total) == PageSelection(spec2, total)
  {
    SelectionSameParts(Split(spec1, ','), Split(spec2, ','), total);
  }

  /** Every selected page comes from some part of the spec. */
  lemma PageFromPart(spec: string, total: int, x: int) returns (k: nat)
    requires PageSelection(spec, total).Success? && x in PageSelection(spec, total).value
    ensures var parts := Split(spec, ',');
      k < |parts| && PartPages(parts[k], total).Success? && x in PartPages(parts[k], total).value
  {
    var qs := Outcomes(Split(spec, ','), total);
    assert x in Combine(qs).value;
    k := CombinedFrom(qs, x);
  }

  /** Every page a part contributes is selected, when the spec is valid. */
  lemma PartPageSelected(spec: string, total: int, x: int, k: nat)
    requires PageSelection(spec, total).Success?
    requires var parts := Split(spec, ',');
      k < |parts| && PartPages(parts[k], total).Success? && x in PartPages(parts[k], total).value
    ensures x in PageSelection(spec, total).value
  {
    var qs := Outcomes(Split(spec, ','), total);
    CombinedHas(qs, x, k);
  }

  lemma CombinedFrom(qs: seq<Result<set<int>, PageError>>, x: int) returns (k: nat)
    requires Combine(qs).Success? && x in Combine(qs).value
    ensures k < |qs| && qs[k].Success? && x in qs[k].value
  {
    CombineMembers(qs, x);
    k :| k < |qs| && qs[k].Success? && x in qs[k].value;
  }

  lemma CombinedHas(qs: seq<Result<set<int>, PageError>>, x: int, k: nat)
    requires Combine(qs).Success? && k < |qs| && qs[k].Success? && x in qs[k].value
    ensures x in Combine(qs).value
  {
    CombineMembers(qs, x);
  }

  /** The error reported is that of the first part that fails. */
  lemma PagesFirstError(spec: string, total: int, k: nat)
    requires var parts := Split(spec, ',');
      && k < |parts| && PartPages(parts[k], total).Failure?
      && forall j :: 0 <= j < k ==> PartPages(parts[j], total).Success?
    ensures PageSelection(spec, total) == Failure(PartPages(Split(spec, ',')[k], total).error)
  {
    CombineFirstError(Outcomes(Split(spec, ','), total), k);
  }
}
