/**
 * String helpers the report pipeline relies on: ASCII lower-casing and
 * substring search (pandas' `str.contains(..., case=False)` on a literal
 * pattern), Python's code-point order on strings, the sorted listing of a
 * set of names, and the decimal rendering of a percentage.
 */
module Text {
  import opened Wrappers

  function LowerChar(c: char): char {
    if 'A' <= c <= 'Z' then (c as int + 32) as char else c
  }

  function Lower(s: string): string {
    seq(|s|, i requires 0 <= i < |s| => LowerChar(s[i]))
  }

  predicate StartsWith(s: string, prefix: string) {
    |prefix| <= |s| && s[..|prefix|] == prefix
  }

  /** `t` occurs somewhere in `s`, found by trying every start position in turn. */
  predicate Contains(s: string, t: string)
    decreases |s|
  {
    StartsWith(s, t) || (|s| > 0 && Contains(s[1..], t))
  }

  /** `t` sits in `s` starting at position `i`. */
  predicate OccursAt(s: string, t: string, i: int) {
    0 <= i <= |s| - |t| && s[i..i + |t|] == t
  }

  /** The positional reading of Contains: some slice of `s` equals `t`. */
  lemma {:induction false} ContainsAt(s: string, t: string)
    ensures Contains(s, t) <==> exists i :: OccursAt(s, t, i)
    decreases |s|
  {
    if StartsWith(s, t) {
      assert OccursAt(s, t, 0);
    }
    if |s| > 0 {
      ContainsAt(s[1..], t);
      if Contains(s[1..], t) {
        var i :| OccursAt(s[1..], t, i);
        assert s[i + 1..i + 1 + |t|] == s[1..][i..i + |t|];
        assert OccursAt(s, t, i + 1);
      }
      if exists i :: OccursAt(s, t, i) {
        var i :| OccursAt(s, t, i);
        if i == 0 {
          assert s[..|t|] == t;
        } else {
          assert s[1..][i - 1..i - 1 + |t|] == s[i..i + |t|];
          assert OccursAt(s[1..], t, i - 1);
        }
      }
    } else {
      if exists i :: OccursAt(s, t, i) {
        var i :| OccursAt(s, t, i);
        assert t == [];
        assert s[..|t|] == t;
      }
    }
  }

  /** Case-insensitive containment, as `str.contains(t, case=False)` for a literal `t`. */
  predicate ContainsIgnoringCase(s: string, t: string) {
    Contains(Lower(s), Lower(t))
  }

  /** Lower-casing commutes with slicing. */
  lemma LowerSlice(s: string, i: int, j: int)
    requires 0 <= i <= j <= |s|
    ensures Lower(s)[i..j] == Lower(s[i..j])
  {
    assert forall k :: 0 <= k < j - i ==> Lower(s)[i..j][k] == LowerChar(s[i + k]) == Lower(s[i..j])[k];
  }

  /** The stretch of `s` starting at `i` reads `t` when both are lower-cased. */
  predicate MatchesIgnoringCaseAt(s: string, t: string, i: int) {
    0 <= i <= |s| - |t| && Lower(s[i..i + |t|]) == Lower(t)
  }

  /** Case-insensitive containment means some stretch of `s` matches `t` ignoring case. */
  lemma ContainsIgnoringCaseAt(s: string, t: string)
    ensures ContainsIgnoringCase(s, t) <==> exists i :: MatchesIgnoringCaseAt(s, t, i)
  {
    ContainsAt(Lower(s), Lower(t));
    forall i | OccursAt(Lower(s), Lower(t), i)
      ensures MatchesIgnoringCaseAt(s, t, i)
    {
      LowerSlice(s, i, i + |t|);
    }
    forall i | MatchesIgnoringCaseAt(s, t, i)
      ensures OccursAt(Lower(s), Lower(t), i)
    {
      LowerSlice(s, i, i + |t|);
    }
  }

  // ---------------------------------------------------------------------------
  // Python's string order: lexicographic by code point, a proper prefix first.

  predicate LexLess(a: string, b: string)
    decreases |a|
  {
    |b| > 0 && (|a| == 0 || a[0] < b[0] || (a[0] == b[0] && LexLess(a[1..], b[1..])))
  }

  lemma {:induction false} LexIrreflexive(a: string)
    ensures !LexLess(a, a)
    decreases |a|
  {
    if |a| > 0 {
      LexIrreflexive(a[1..]);
    }
  }

  lemma {:induction false} LexTransitive(a: string, b: string, c: string)
    requires LexLess(a, b) && LexLess(b, c)
    ensures LexLess(a, c)
    decreases |a|
  {
    if |a| > 0 && a[0] == b[0] && b[0] == c[0] {
      LexTransitive(a[1..], b[1..], c[1..]);
    }
  }

  lemma {:induction false} LexTotal(a: string, b: string)
    ensures a == b || LexLess(a, b) || LexLess(b, a)
    decreases |a|
  {
    if |a| > 0 && |b| > 0 && a[0] == b[0] {
      LexTotal(a[1..], b[1..]);
      if a[1..] == b[1..] {
        assert a == [a[0]] + a[1..] && b == [b[0]] + b[1..];
      }
    }
  }

  lemma LexAsymmetric(a: string, b: string)
    ensures !(LexLess(a, b) && LexLess(b, a))
  {
    if LexLess(a, b) && LexLess(b, a) {
      LexTransitive(a, b, a);
      LexIrreflexive(a);
    }
  }

  predicate IsLeast(m: string, names: set<string>) {
    m in names && forall y :: y in names ==> y == m || LexLess(m, y)
  }

  lemma {:induction false} LeastExists(names: set<string>)
    requires names != {}
    ensures exists m :: IsLeast(m, names)
    decreases |names|
  {
    var x :| x in names;
    if names - {x} == {} {
      assert names == {x};
      assert IsLeast(x, names);
    } else {
      LeastExists(names - {x});
      var m :| IsLeast(m, names - {x});
      LexTotal(x, m);
      if LexLess(x, m) {
        forall y | y in names
          ensures y == x || LexLess(x, y)
        {
          if y != x && y != m {
            LexTransitive(x, m, y);
          }
        }
        assert IsLeast(x, names);
      } else {
        assert IsLeast(m, names);
      }
    }
  }

  lemma LeastUnique(names: set<string>)
    ensures forall m, n :: IsLeast(m, names) && IsLeast(n, names) ==> m == n
  {
    forall m, n | IsLeast(m, names) && IsLeast(n, names)
      ensures m == n
    {
      LexAsymmetric(m, n);
    }
  }

  /** The least name of a non-empty set. */
  function Least(names: set<string>): (m: string)
    requires names != {}
    ensures IsLeast(m, names)
  {
    LeastExists(names);
    LeastUnique(names);
    var m :| m in names && IsLeast(m, names);
    m
  }

  /** The names of a set in increasing order, as `sort_values` lists unique keys. */
  function SortedNames(names: set<string>): (r: seq<string>)
    ensures |r| == |names|
    ensures forall x :: x in r <==> x in names
    ensures forall i :: 0 <= i < |r| ==> r[i] in names
    ensures forall i, j :: 0 <= i < j < |r| ==> LexLess(r[i], r[j])
    decreases |names|
  {
    if names == {} then []
    else
      var m := Least(names);
      var rest := SortedNames(names - {m});
      SortedCons(m, rest, names);
      [m] + rest
  }

  /** Putting the least name in front of the sorted rest sorts the whole set. */
  lemma SortedCons(m: string, rest: seq<string>, names: set<string>)
    requires IsLeast(m, names)
    requires |rest| == |names - {m}|
    requires forall i :: 0 <= i < |rest| ==> rest[i] in names - {m}
    requires forall x :: x in rest <==> x in names - {m}
    requires forall i, j :: 0 <= i < j < |rest| ==> LexLess(rest[i], rest[j])
    ensures |[m] + rest| == |names|
    ensures forall x :: x in [m] + rest <==> x in names
    ensures forall i :: 0 <= i < |[m] + rest| ==> ([m] + rest)[i] in names
    ensures forall i, j :: 0 <= i < j < |[m] + rest| ==> LexLess(([m] + rest)[i], ([m] + rest)[j])
  {
    var r := [m] + rest;
    forall i, j | 0 <= i < j < |r|
      ensures LexLess(r[i], r[j])
    {
      if i > 0 {
        assert r[i] == rest[i - 1] && r[j] == rest[j - 1];
      } else {
        assert r[j] == rest[j - 1];
      }
    }
  }

  // ---------------------------------------------------------------------------
  // Decimal rendering of a natural number, as Python's `str(int)`.

  function DigitChar(d: nat): char
    requires d < 10
  {
    (d + '0' as int) as char
  }

  function DigitValue(c: char): Option<nat> {
    if '0' <= c <= '9' then Some(c as int - '0' as int) else None
  }

  function DecimalText(n: nat): (s: string)
    ensures |s| >= 1
    ensures forall i :: 0 <= i < |s| ==> '0' <= s[i] <= '9'
    ensures |s| > 1 ==> s[0] != '0'
    decreases n
  {
    if n < 10 then [DigitChar(n)] else DecimalText(n / 10) + [DigitChar(n % 10)]
  }

  function ParseDecimal(s: string): Option<nat>
    decreases |s|
  {
    if |s| == 0 then None
    else
      var last := DigitValue(s[|s| - 1]);
      if last.None? then None
      else if |s| == 1 then last
      else
        match ParseDecimal(s[..|s| - 1])
        case None => None
        case Some(high) => Some(10 * high + last.value)
  }

  lemma {:induction false} ParseDecimalText(n: nat)
    ensures ParseDecimal(DecimalText(n)) == Some(n)
    decreases n
  {
    if n >= 10 {
      ParseDecimalText(n / 10);
      var s := DecimalText(n);
      assert s[..|s| - 1] == DecimalText(n / 10);
    }
  }

  /** A percentage as the report prints it: the digits followed by `%`. */
  function PercentText(n: nat): string {
    DecimalText(n) + "%"
  }

  function ParsePercent(s: string): Option<nat> {
    if |s| > 0 && s[|s| - 1] == '%' then ParseDecimal(s[..|s| - 1]) else None
  }

  lemma ParsePercentText(n: nat)
    ensures ParsePercent(PercentText(n)) == Some(n)
  {
    var s := PercentText(n);
    assert s[..|s| - 1] == DecimalText(n);
    ParseDecimalText(n);
  }

  /** The form of Python's `str` of a natural number: digits only, no leading zero. */
  predicate IsDecimalText(s: string) {
    && |s| >= 1
    && (forall i :: 0 <= i < |s| ==> '0' <= s[i] <= '9')
    && (|s| > 1 ==> s[0] != '0')
  }

  predicate IsPercentText(s: string) {
    |s| >= 1 && s[|s| - 1] == '%' && IsDecimalText(s[..|s| - 1])
  }

  /** Digits that do not start with zero stand for a positive number. */
  lemma {:induction false} ParseDecimalPositive(t: string, v: nat)
    requires |t| >= 1 && t[0] != '0' && ParseDecimal(t) == Some(v)
    ensures v >= 1
    decreases |t|
  {
    if |t| > 1 {
      var high :| ParseDecimal(t[..|t| - 1]) == Some(high);
      ParseDecimalPositive(t[..|t| - 1], high);
    }
  }

  /** A text in decimal form is the only such text for its value. */
  lemma {:induction false} DecimalTextUnique(s: string, n: nat)
    requires IsDecimalText(s) && ParseDecimal(s) == Some(n)
    ensures s == DecimalText(n)
    decreases |s|
  {
    var last := s[|s| - 1];
    var d := DigitValue(last).value;
    assert DigitChar(d) == last;
    if |s| > 1 {
      var init := s[..|s| - 1];
      var high := ParseDecimal(init).value;
      assert n == 10 * high + d;
      assert init[0] == s[0];
      DecimalTextUnique(init, high);
      ParseDecimalPositive(init, high);
      LastDigit(high, d);
      assert s == init + [last];
    }
  }

  lemma LastDigit(high: nat, d: nat)
    requires high >= 1 && d < 10
    ensures 10 * high + d >= 10
    ensures (10 * high + d) / 10 == high && (10 * high + d) % 10 == d
  {
  }

  /** The rendered percentage has the canonical form. */
  lemma PercentTextForm(n: nat)
    ensures IsPercentText(PercentText(n))
  {
    var s := PercentText(n);
    assert s[..|s| - 1] == DecimalText(n);
  }

  /** A percentage text in canonical form that reads as `n` is the rendering of `n`. */
  lemma PercentTextUnique(s: string, n: nat)
    requires IsPercentText(s) && ParsePercent(s) == Some(n)
    ensures s == PercentText(n)
  {
    DecimalTextUnique(s[..|s| - 1], n);
    assert s == s[..|s| - 1] + "%";
  }
}
