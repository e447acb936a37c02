/**
 * Whole-table operations on sequences of rows, as the report pipeline uses
 * them from pandas: boolean-mask filtering, `drop_duplicates` (keep the
 * first row of each key), `groupby(...).size()`, and the sum of a column of
 * group sizes.
 */
module Tables {
  import opened Wrappers

  /** `r` is the subsequence of `xs` at the strictly increasing positions `idx`. */
  ghost predicate PicksAt<T>(r: seq<T>, xs: seq<T>, idx: seq<nat>) {
    && |idx| == |r|
    && (forall k :: 0 <= k < |idx| ==> idx[k] < |xs| && r[k] == xs[idx[k]])
    && (forall k, l :: 0 <= k < l < |idx| ==> idx[k] < idx[l])
  }

  // ---------------------------------------------------------------------------
  // Boolean-mask selection, `df[mask]`.

  function Filter<T(!new)>(xs: seq<T>, keep: T -> bool): (r: seq<T>)
    ensures |r| <= |xs|
    ensures forall i :: 0 <= i < |r| ==> keep(r[i])
    decreases |xs|
  {
    if xs == [] then []
    else
      var init := Filter(xs[..|xs| - 1], keep);
      var last := xs[|xs| - 1];
      if keep(last) then init + [last] else init
  }

  /** Filter keeps every selected row as often as it occurs, and no other row. */
  lemma {:induction false} FilterCounts<T(!new)>(xs: seq<T>, keep: T -> bool)
    ensures forall x :: multiset(Filter(xs, keep))[x] == if keep(x) then multiset(xs)[x] else 0
    decreases |xs|
  {
    if xs != [] {
      var init := xs[..|xs| - 1];
      FilterCounts(init, keep);
      assert xs == init + [xs[|xs| - 1]];
    }
  }

  lemma FilterMembership<T(!new)>(xs: seq<T>, keep: T -> bool)
    ensures forall x :: x in Filter(xs, keep) <==> x in xs && keep(x)
  {
    FilterCounts(xs, keep);
    forall x
      ensures x in Filter(xs, keep) <==> x in xs && keep(x)
    {
      assert x in Filter(xs, keep) <==> multiset(Filter(xs, keep))[x] > 0;
      assert x in xs <==> multiset(xs)[x] > 0;
    }
  }

  /** Filter keeps exactly the rows the mask selects, in their original order. */
  lemma {:induction false} FilterPicks<T(!new)>(xs: seq<T>, keep: T -> bool) returns (idx: seq<nat>)
    ensures PicksAt(Filter(xs, keep), xs, idx)
    ensures forall i :: 0 <= i < |xs| ==> (i in idx <==> keep(xs[i]))
    decreases |xs|
  {
    if xs == [] {
      idx := [];
    } else {
      var n := |xs| - 1;
      var init := xs[..n];
      var idx0 := FilterPicks(init, keep);
      var prev := Filter(init, keep);
      var r := Filter(xs, keep);
      assert forall i :: 0 <= i < n ==> init[i] == xs[i];
      assert forall k :: 0 <= k < |idx0| ==> idx0[k] < n && prev[k] == xs[idx0[k]];
      if keep(xs[n]) {
        idx := idx0 + [n];
        assert r == prev + [xs[n]];
        forall k | 0 <= k < |idx|
          ensures idx[k] < |xs| && r[k] == xs[idx[k]]
        {
          if k < |idx0| {
            assert idx[k] == idx0[k] && r[k] == prev[k];
          }
        }
        forall i | 0 <= i < |xs|
          ensures i in idx <==> keep(xs[i])
        {
          if i < n {
            assert i in idx <==> i in idx0;
          }
        }
      } else {
        idx := idx0;
        assert r == prev;
        assert n !in idx;
      }
    }
  }

  /** Selecting from a table without repeated rows gives a table without repeated rows. */
  lemma FilterDistinct<T(!new)>(xs: seq<T>, keep: T -> bool)
    requires forall i, j :: 0 <= i < j < |xs| ==> xs[i] != xs[j]
    ensures forall i, j :: 0 <= i < j < |Filter(xs, keep)| ==> Filter(xs, keep)[i] != Filter(xs, keep)[j]
  {
    var idx := FilterPicks(xs, keep);
    var r := Filter(xs, keep);
    forall i, j | 0 <= i < j < |r|
      ensures r[i] != r[j]
    {
      assert r[i] == xs[idx[i]] && r[j] == xs[idx[j]] && idx[i] < idx[j];
    }
  }

  function Both<T>(p: T -> bool, q: T -> bool): T -> bool {
    x => p(x) && q(x)
  }

  /** Filter selects nothing exactly when no row passes the mask. */
  lemma FilterEmpty<T(!new)>(xs: seq<T>, keep: T -> bool)
    ensures Filter(xs, keep) == [] <==> forall x :: x in xs ==> !keep(x)
  {
    FilterMembership(xs, keep);
    if Filter(xs, keep) != [] {
      assert Filter(xs, keep)[0] in Filter(xs, keep);
    }
  }

  /** Masks that agree on every row select the same rows. */
  lemma {:induction false} FilterExtensional<T(!new)>(xs: seq<T>, p: T -> bool, q: T -> bool)
    requires forall x :: p(x) == q(x)
    ensures Filter(xs, p) == Filter(xs, q)
    decreases |xs|
  {
    if xs != [] {
      FilterExtensional(xs[..|xs| - 1], p, q);
    }
  }

  /** Two successive masks select what their conjunction selects. */
  lemma {:induction false} FilterFilter<T(!new)>(xs: seq<T>, p: T -> bool, q: T -> bool)
    ensures Filter(Filter(xs, p), q) == Filter(xs, Both(p, q))
    decreases |xs|
  {
    if xs != [] {
      var init := xs[..|xs| - 1];
      var last := xs[|xs| - 1];
      FilterFilter(init, p, q);
      var once := Filter(xs, p);
      if p(last) {
        assert once == Filter(init, p) + [last];
        assert once[..|once| - 1] == Filter(init, p);
      }
    }
  }

  /** The distinct rows of `xs` that pass `keep`. */
  function Selected<T(!new)>(xs: seq<T>, keep: T -> bool): set<T> {
    set x | x in xs && keep(x)
  }

  /** On a table without repeated rows, a mask selects as many rows as there are distinct selected values. */
  lemma {:induction false} FilterDistinctSize<T(!new)>(xs: seq<T>, keep: T -> bool)
    requires forall i, j :: 0 <= i < j < |xs| ==> xs[i] != xs[j]
    ensures |Filter(xs, keep)| == |Selected(xs, keep)|
    decreases |xs|
  {
    if xs != [] {
      var init := xs[..|xs| - 1];
      var last := xs[|xs| - 1];
      FilterDistinctSize(init, keep);
      assert last !in init;
      var before := Selected(init, keep);
      var after := Selected(xs, keep);
      assert xs == init + [last];
      if keep(last) {
        assert after == before + {last};
      } else {
        assert after == before;
      }
    }
  }

  /** The values `f` takes on `a`. */
  function Image<T(!new), U>(a: set<T>, f: T -> U): set<U> {
    set x | x in a :: f(x)
  }

  /** An injective projection keeps the number of distinct values. */
  lemma {:induction false} InjectiveImageSize<T(!new), U(!new)>(a: set<T>, f: T -> U)
    requires forall x, y :: x in a && y in a && f(x) == f(y) ==> x == y
    ensures |Image(a, f)| == |a|
    decreases |a|
  {
    if a != {} {
      var x :| x in a;
      var rest := a - {x};
      InjectiveImageSize(rest, f);
      assert Image(a, f) == Image(rest, f) + {f(x)};
      assert f(x) !in Image(rest, f);
    }
  }

  // ---------------------------------------------------------------------------
  // `drop_duplicates(subset=...)`: keep the first row of every key.

  function KeysOf<T, K>(xs: seq<T>, key: T -> K): set<K> {
    set i | 0 <= i < |xs| :: key(xs[i])
  }

  ghost predicate DistinctKeys<T, K>(xs: seq<T>, key: T -> K) {
    forall i, j :: 0 <= i < j < |xs| ==> key(xs[i]) != key(xs[j])
  }

  /** Row `i` is the first row of `xs` with its key. */
  ghost predicate IsFirst<T, K>(xs: seq<T>, key: T -> K, i: int) {
    0 <= i < |xs| && forall j :: 0 <= j < i ==> key(xs[j]) != key(xs[i])
  }

  lemma KeysOfSnoc<T, K>(xs: seq<T>, x: T, key: T -> K)
    ensures KeysOf(xs + [x], key) == KeysOf(xs, key) + {key(x)}
  {
    var ys := xs + [x];
    forall k | k in KeysOf(ys, key)
      ensures k in KeysOf(xs, key) + {key(x)}
    {
      var i :| 0 <= i < |ys| && key(ys[i]) == k;
      if i < |xs| {
        assert key(xs[i]) == k;
      }
    }
    forall k | k in KeysOf(xs, key)
      ensures k in KeysOf(ys, key)
    {
      var i :| 0 <= i < |xs| && key(xs[i]) == k;
      assert key(ys[i]) == k;
    }
    assert key(ys[|xs|]) == key(x);
  }

  function DropDuplicates<T, K(==)>(xs: seq<T>, key: T -> K): (r: seq<T>)
    ensures KeysOf(r, key) == KeysOf(xs, key)
    ensures DistinctKeys(r, key)
    ensures |r| <= |xs|
    decreases |xs|
  {
    if xs == [] then []
    else
      var init := xs[..|xs| - 1];
      var last := xs[|xs| - 1];
      var kept := DropDuplicates(init, key);
      assert xs == init + [last];
      KeysOfSnoc(init, last, key);
      KeysOfSnoc(kept, last, key);
      if key(last) in KeysOf(kept, key) then kept
      else
        assert forall i :: 0 <= i < |kept| ==> key(kept[i]) in KeysOf(kept, key);
        kept + [last]
  }

  /**
   * drop_duplicates returns, in their original order, exactly the rows that
   * are the first of their key.
   */
  lemma {:induction false} DropDuplicatesKeepsFirst<T, K>(xs: seq<T>, key: T -> K) returns (idx: seq<nat>)
    ensures PicksAt(DropDuplicates(xs, key), xs, idx)
    ensures forall i :: 0 <= i < |xs| ==> (i in idx <==> IsFirst(xs, key, i))
    decreases |xs|
  {
    if xs == [] {
      idx := [];
    } else {
      var n := |xs| - 1;
      var init := xs[..n];
      var idx0 := DropDuplicatesKeepsFirst(init, key);
      var kept := DropDuplicates(init, key);
      assert xs == init + [xs[n]];
      assert forall i :: 0 <= i < n ==> (IsFirst(xs, key, i) <==> IsFirst(init, key, i));
      assert forall k :: 0 <= k < |idx0| ==> idx0[k] < n && kept[k] == xs[idx0[k]];
      if key(xs[n]) in KeysOf(kept, key) {
        assert DropDuplicates(xs, key) == kept;
        var j :| 0 <= j < n && key(init[j]) == key(xs[n]);
        assert !IsFirst(xs, key, n);
        idx := idx0;
        assert n !in idx;
      } else {
        assert DropDuplicates(xs, key) == kept + [xs[n]];
        assert forall j :: 0 <= j < n ==> key(init[j]) in KeysOf(init, key);
        assert IsFirst(xs, key, n);
        idx := idx0 + [n];
        assert forall i :: 0 <= i < n ==> (i in idx <==> i in idx0);
      }
    }
  }

  /** A table whose keys are already distinct is left as it is. */
  lemma {:induction false} DropDuplicatesOfDistinct<T, K>(xs: seq<T>, key: T -> K)
    requires DistinctKeys(xs, key)
    ensures DropDuplicates(xs, key) == xs
    decreases |xs|
  {
    if xs != [] {
      var n := |xs| - 1;
      var init := xs[..n];
      DropDuplicatesOfDistinct(init, key);
      assert forall j :: 0 <= j < n ==> key(init[j]) != key(xs[n]);
      assert key(xs[n]) !in KeysOf(init, key);
      assert xs == init + [xs[n]];
    }
  }

  lemma DropDuplicatesIdempotent<T, K>(xs: seq<T>, key: T -> K)
    ensures DropDuplicates(DropDuplicates(xs, key), key) == DropDuplicates(xs, key)
  {
    DropDuplicatesOfDistinct(DropDuplicates(xs, key), key);
  }

  // ---------------------------------------------------------------------------
  // `groupby(keys).size()`: one entry per distinct key with its row count.

  function GroupSizes<K(!new)>(ks: seq<K>): map<K, nat>
    decreases |ks|
  {
    if ks == [] then map[]
    else
      var sizes := GroupSizes(ks[..|ks| - 1]);
      var k := ks[|ks| - 1];
      sizes[k := (if k in sizes then sizes[k] else 0) + 1]
  }

  /** A key has a group exactly when it occurs, and the group's size is its number of occurrences. */
  lemma {:induction false} GroupSizesAt<K(!new)>(ks: seq<K>, k: K)
    ensures k in GroupSizes(ks) <==> k in ks
    ensures k in GroupSizes(ks) ==> GroupSizes(ks)[k] == multiset(ks)[k] >= 1
    decreases |ks|
  {
    if ks != [] {
      var init := ks[..|ks| - 1];
      GroupSizesAt(init, k);
      assert ks == init + [ks[|ks| - 1]];
    }
  }

  lemma GroupSizesMeaning<K(!new)>(ks: seq<K>)
    ensures forall k :: k in GroupSizes(ks) <==> k in ks
    ensures forall k :: k in GroupSizes(ks) ==> GroupSizes(ks)[k] == multiset(ks)[k] >= 1
  {
    forall k
      ensures k in GroupSizes(ks) <==> k in ks
      ensures k in GroupSizes(ks) ==> GroupSizes(ks)[k] == multiset(ks)[k] >= 1
    {
      GroupSizesAt(ks, k);
    }
  }

  /** The sum of a map's values (a column sum over a grouped table). */
  ghost function SumValues<K>(m: map<K, nat>): nat
    decreases |m|
  {
    if m == map[] then 0
    else
      var k :| k in m;
      m[k] + SumValues(m - {k})
  }

  lemma {:induction false} SumValuesRemove<K>(m: map<K, nat>, k: K)
    requires k in m
    ensures SumValues(m) == m[k] + SumValues(m - {k})
    decreases |m|
  {
    var j :| j in m && SumValues(m) == m[j] + SumValues(m - {j});
    if j != k {
      SumValuesRemove(m - {j}, k);
      SumValuesRemove(m - {k}, j);
      assert (m - {j}) - {k} == (m - {k}) - {j};
    }
  }

  /** The group sizes add up to the number of rows grouped. */
  lemma {:induction false} SumGroupSizes<K(!new)>(ks: seq<K>)
    ensures SumValues(GroupSizes(ks)) == |ks|
    decreases |ks|
  {
    if ks != [] {
      var init := ks[..|ks| - 1];
      var k := ks[|ks| - 1];
      var before := GroupSizes(init);
      var after := GroupSizes(ks);
      var count := (if k in before then before[k] else 0) + 1;
      assert after == before[k := count];
      SumGroupSizes(init);
      SumValuesRemove(after, k);
      UpdateRemove(before, k, count);
      if k in before {
        SumValuesRemove(before, k);
      } else {
        assert before - {k} == before;
      }
    }
  }

  lemma UpdateRemove<K, V>(m: map<K, V>, k: K, v: V)
    ensures m[k := v] - {k} == m - {k}
  {
  }

  // ---------------------------------------------------------------------------
  // `groupby(keys).size()` with pandas' default `dropna=True`: rows whose key
  // holds a missing value form no group.

  /** The non-missing keys of `xs`, in row order. */
  function PresentKeys<T, K>(xs: seq<T>, key: T -> Option<K>): seq<K>
    decreases |xs|
  {
    if xs == [] then []
    else
      var init := PresentKeys(xs[..|xs| - 1], key);
      var k := key(xs[|xs| - 1]);
      if k.Some? then init + [k.value] else init
  }

  function HasKey<T, K(==)>(key: T -> Option<K>, k: K): T -> bool {
    x => key(x) == Some(k)
  }

  function HasSomeKey<T, K>(key: T -> Option<K>): T -> bool {
    x => key(x).Some?
  }

  lemma {:induction false} PresentKeysCount<T(!new), K(!new)>(xs: seq<T>, key: T -> Option<K>, k: K)
    ensures multiset(PresentKeys(xs, key))[k] == |Filter(xs, HasKey(key, k))|
    decreases |xs|
  {
    if xs != [] {
      var init := xs[..|xs| - 1];
      PresentKeysCount(init, key, k);
    }
  }

  lemma {:induction false} PresentKeysLength<T(!new), K>(xs: seq<T>, key: T -> Option<K>)
    ensures |PresentKeys(xs, key)| == |Filter(xs, HasSomeKey(key))|
    decreases |xs|
  {
    if xs != [] {
      PresentKeysLength(xs[..|xs| - 1], key);
    }
  }

  /** Group sizes with missing keys dropped: one group per present key, sized by its rows. */
  function GroupBySize<T(!new), K(==,!new)>(xs: seq<T>, key: T -> Option<K>): (sizes: map<K, nat>)
    ensures forall k :: k in sizes <==> exists x :: x in xs && key(x) == Some(k)
    ensures forall k :: k in sizes ==> sizes[k] == |Filter(xs, HasKey(key, k))| >= 1
  {
    GroupBySizeFacts(xs, key);
    GroupSizesMeaning(PresentKeys(xs, key));
    GroupSizes(PresentKeys(xs, key))
  }

  lemma GroupBySizeFacts<T(!new), K(!new)>(xs: seq<T>, key: T -> Option<K>)
    ensures forall k :: multiset(PresentKeys(xs, key))[k] == |Filter(xs, HasKey(key, k))|
    ensures forall k :: k in PresentKeys(xs, key) <==> exists x :: x in xs && key(x) == Some(k)
  {
    forall k
      ensures multiset(PresentKeys(xs, key))[k] == |Filter(xs, HasKey(key, k))|
      ensures k in PresentKeys(xs, key) <==> exists x :: x in xs && key(x) == Some(k)
    {
      PresentKeysCount(xs, key, k);
      FilterMembership(xs, HasKey(key, k));
      assert k in PresentKeys(xs, key) <==> multiset(PresentKeys(xs, key))[k] > 0;
      if exists x :: x in xs && key(x) == Some(k) {
        var x :| x in xs && key(x) == Some(k);
        assert x in Filter(xs, HasKey(key, k));
      }
    }
  }

  /** The group sizes add up to the number of rows with a present key. */
  lemma SumGroupBySize<T(!new), K(!new)>(xs: seq<T>, key: T -> Option<K>)
    ensures SumValues(GroupBySize(xs, key)) == |Filter(xs, HasSomeKey(key))|
  {
    PresentKeysLength(xs, key);
    SumGroupSizes(PresentKeys(xs, key));
  }
}
