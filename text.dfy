/** The string operations the parser relies on: Python's `str.strip()`,
    `str.split(sep)`, `sep.join(parts)` and `str(n)` for a natural number. */
module Text {

  /** Python's `str.isspace()` for one character: the Unicode whitespace
      characters that `str.strip()` removes. */
  predicate IsSpace(c: char)
  {
    || ('\t' <= c <= '\r')
    || ('\U{1C}' <= c <= '\U{1F}')
    || c == ' ' || c == '\U{85}' || c == '\U{A0}' || c == '\U{1680}'
    || ('\U{2000}' <= c <= '\U{200A}')
    || c == '\U{2028}' || c == '\U{2029}' || c == '\U{202F}' || c == '\U{205F}' || c == '\U{3000}'
  }

  predicate AllSpace(s: string)
  {
    forall k :: 0 <= k < |s| ==> IsSpace(s[k])
  }

  /** The number of whitespace characters at the start of `s`. */
  function LeadingSpace(s: string): (n: nat)
    ensures n <= |s|
    ensures forall k :: 0 <= k < n ==> IsSpace(s[k])
    ensures n == |s| || !IsSpace(s[n])
  {
    if |s| > 0 && IsSpace(s[0]) then
      var n := LeadingSpace(s[1..]);
      assert forall k :: 0 < k <= n ==> s[k] == s[1..][k - 1];
      1 + n
    else 0
  }

  /** The number of whitespace characters at the end of `s`. */
  function TrailingSpace(s: string): (n: nat)
    ensures n <= |s|
    ensures forall k :: |s| - n <= k < |s| ==> IsSpace(s[k])
    ensures n == |s| || !IsSpace(s[|s| - n - 1])
  {
    if |s| > 0 && IsSpace(s[|s| - 1]) then
      var n := TrailingSpace(s[..|s| - 1]);
      assert forall k :: |s| - 1 - n <= k < |s| - 1 ==> s[k] == s[..|s| - 1][k];
      1 + n
    else 0
  }

  /** Removes leading whitespace. */
  function TrimStart(s: string): string
  {
    s[LeadingSpace(s)..]
  }

  /** Removes trailing whitespace. */
  function TrimEnd(s: string): string
  {
    s[..|s| - TrailingSpace(s)]
  }

  /** Python's `s.strip()`: what is left after removing the whitespace at
      both ends. */
  function Strip(s: string): (r: string)
    ensures |r| <= |s|
    ensures r == [] || (!IsSpace(r[0]) && !IsSpace(r[|r| - 1]))
  {
    var t := TrimStart(s);
    var m := TrailingSpace(t);
    assert |t| - m > 0 ==> t[..|t| - m][0] == s[LeadingSpace(s)];
    TrimEnd(t)
  }

  /** A string without whitespace at either end is its own strip. */
  lemma StripUnchanged(s: string)
    requires s == [] || (!IsSpace(s[0]) && !IsSpace(s[|s| - 1]))
    ensures Strip(s) == s
  {
    assert LeadingSpace(s) == 0;
    assert s[0..] == s;
    assert TrailingSpace(s) == 0;
    assert s[..|s|] == s;
  }

  /** The stripped string is the infix of `s` between a whitespace-only
      prefix and a whitespace-only suffix. */
  lemma StripIsInfix(s: string)
    ensures exists i, j :: 0 <= i <= j <= |s| && Strip(s) == s[i..j] && AllSpace(s[..i]) && AllSpace(s[j..])
  {
    var i := LeadingSpace(s);
    var t := s[i..];
    var m := TrailingSpace(t);
    var j := |s| - m;
    assert Strip(s) == s[i..j];
    assert AllSpace(s[..i]) by {
      forall k | 0 <= k < i ensures IsSpace(s[..i][k]) {
        assert s[..i][k] == s[k];
      }
    }
    assert AllSpace(s[j..]) by {
      forall k | 0 <= k < m ensures IsSpace(s[j..][k]) {
        assert s[j..][k] == t[|t| - m + k];
      }
    }
  }

  /** A string strips to nothing exactly when it is all whitespace. */
  lemma StripEmptyIffAllSpace(s: string)
    ensures Strip(s) == [] <==> AllSpace(s)
  {
    StripIsInfix(s);
    var i, j :| 0 <= i <= j <= |s| && Strip(s) == s[i..j] && AllSpace(s[..i]) && AllSpace(s[j..]);
    if Strip(s) == [] {
      forall k | 0 <= k < |s| ensures IsSpace(s[k]) {
        if k < i { assert s[..i][k] == s[k]; } else { assert s[j..][k - j] == s[k]; }
      }
    }
  }

  /** The strings of a list, as a set. */
  function Elements(s: seq<string>): set<string>
  {
    set x | x in s
  }

  /** Index of the first occurrence of `c` in `s`. */
  function IndexOf(s: string, c: char): (i: nat)
    requires c in s
    ensures i < |s| && s[i] == c && c !in s[..i]
  {
    if s[0] == c then 0 else 1 + IndexOf(s[1..], c)
  }

  /** Number of occurrences of `c` in `s`. */
  function Occurrences(s: string, c: char): nat
  {
    if s == [] then 0 else (if s[0] == c then 1 else 0) + Occurrences(s[1..], c)
  }

  /** Python's `s.split(sep)` for a one-character separator: the pieces
      between the separators, keeping empty pieces. */
  function Split(s: string, sep: char): (r: seq<string>)
    ensures |r| > 0
    ensures forall k :: 0 <= k < |r| ==> sep !in r[k]
    decreases |s|
  {
    if sep !in s then [s]
    else
      var i := IndexOf(s, sep);
      [s[..i]] + Split(s[i + 1..], sep)
  }

  /** Python's `sep.join(parts)` for a one-character separator. */
  function Join(parts: seq<string>, sep: char): string
  {
    if |parts| == 0 then ""
    else if |parts| == 1 then parts[0]
    else parts[0] + [sep] + Join(parts[1..], sep)
  }

  /** Joining the pieces of a split gives back the original string. */
  lemma {:induction false} JoinSplit(s: string, sep: char)
    ensures Join(Split(s, sep), sep) == s
    decreases |s|
  {
    if sep in s {
      var i := IndexOf(s, sep);
      var parts := Split(s, sep);
      assert parts[0] == s[..i] && parts[1..] == Split(s[i + 1..], sep);
      assert Join(parts, sep) == parts[0] + [sep] + Join(parts[1..], sep);
      JoinSplit(s[i + 1..], sep);
      assert s == s[..i] + [sep] + s[i + 1..];
    }
  }

  /** Splitting a join of separator-free pieces gives back the pieces. */
  lemma {:induction false} SplitJoin(parts: seq<string>, sep: char)
    requires |parts| > 0
    requires forall k :: 0 <= k < |parts| ==> sep !in parts[k]
    ensures Split(Join(parts, sep), sep) == parts
  {
    if |parts| > 1 {
      var rest := Join(parts[1..], sep);
      var s := parts[0] + [sep] + rest;
      assert s[|parts[0]|] == sep;
      assert s[..|parts[0]|] == parts[0];
      assert IndexOf(s, sep) == |parts[0]|;
      assert s[|parts[0]| + 1..] == rest;
      SplitJoin(parts[1..], sep);
    }
  }

  /** A split has one more piece than the string has separators. */
  lemma {:induction false} SplitLength(s: string, sep: char)
    ensures |Split(s, sep)| == Occurrences(s, sep) + 1
    decreases |s|
  {
    if sep in s {
      var i := IndexOf(s, sep);
      SplitLength(s[i + 1..], sep);
      OccurrencesFirst(s, sep);
    } else {
      OccurrencesAbsent(s, sep);
    }
  }

  /** The first separator and the ones after it. */
  lemma {:induction false} OccurrencesFirst(s: string, sep: char)
    requires sep in s
    ensures Occurrences(s, sep) == 1 + Occurrences(s[IndexOf(s, sep) + 1..], sep)
  {
    if s[0] != sep {
      var j := IndexOf(s[1..], sep);
      assert IndexOf(s, sep) == j + 1;
      assert Occurrences(s, sep) == Occurrences(s[1..], sep);
      OccurrencesFirst(s[1..], sep);
      assert s[1..][j + 1..] == s[j + 2..];
    }
  }

  lemma {:induction false} OccurrencesAbsent(s: string, c: char)
    requires c !in s
    ensures Occurrences(s, c) == 0
  {
    if s != [] {
      OccurrencesAbsent(s[1..], c);
    }
  }

  predicate IsDigit(c: char)
  {
    '0' <= c <= '9'
  }

  predicate AllDigits(s: string)
  {
    forall k :: 0 <= k < |s| ==> IsDigit(s[k])
  }

  /** The value of a string of decimal digits, most significant first. */
  function DigitsValue(s: string): nat
    requires AllDigits(s)
  {
    if s == [] then 0
    else DigitsValue(s[..|s| - 1]) * 10 + ((s[|s| - 1] as int) - ('0' as int))
  }

  function DigitChar(d: nat): (c: char)
    requires d < 10
    ensures IsDigit(c) && (c as int) - ('0' as int) == d
  {
    (('0' as int) + d) as char
  }

  /** Python's `str(n)` for a natural number: its decimal digits. */
  function DecimalString(n: nat): (r: string)
    ensures |r| > 0 && AllDigits(r)
  {
    if n < 10 then [DigitChar(n)] else DecimalString(n / 10) + [DigitChar(n % 10)]
  }

  /** Reading back the decimal digits of `n` gives `n`. */
  lemma {:induction false} DecimalRoundTrip(n: nat)
    ensures DigitsValue(DecimalString(n)) == n
  {
    var s := DecimalString(n);
    if n < 10 {
      assert s[..|s| - 1] == [];
    } else {
      assert s[..|s| - 1] == DecimalString(n / 10);
      DecimalRoundTrip(n / 10);
    }
  }

  /** Distinct numbers have distinct decimal strings. */
  lemma DecimalInjective(m: nat, n: nat)
    requires DecimalString(m) == DecimalString(n)
    ensures m == n
  {
    DecimalRoundTrip(m);
    DecimalRoundTrip(n);
  }
}
