/** Group keys in ascending order, as pandas' `groupby(..., sort=True)`
    produces them: every distinct key once, sorted by a strict total order. */
module Grouping {

  ghost predicate StrictTotalOrder<K(!new)>(less: (K, K) -> bool) {
    && (forall a :: !less(a, a))
    && (forall a, b, c :: less(a, b) && less(b, c) ==> less(a, c))
    && (forall a, b :: a != b ==> less(a, b) || less(b, a))
  }

  ghost predicate StrictlySorted<K>(s: seq<K>, less: (K, K) -> bool) {
    forall i, j :: 0 <= i < j < |s| ==> less(s[i], s[j])
  }

  /** Adds `k` to a sorted key list unless it is already there. */
  function Insert<K(==,!new)>(s: seq<K>, k: K, less: (K, K) -> bool): (r: seq<K>)
    requires StrictTotalOrder(less) && StrictlySorted(s, less)
    ensures StrictlySorted(r, less)
    ensures forall x :: x in r <==> x in s || x == k
  {
    if |s| == 0 then [k]
    else if k == s[0] then s
    else if less(k, s[0]) then [k] + s
    else
      var tail := Insert(s[1..], k, less);
      assert forall j :: 0 <= j < |tail| ==> less(s[0], tail[j]) by {
        forall j | 0 <= j < |tail|
          ensures less(s[0], tail[j])
        {
          if tail[j] != k {
            assert tail[j] in tail;
            assert tail[j] in s[1..];
            var t :| 0 <= t < |s[1..]| && s[1..][t] == tail[j];
            assert s[t + 1] == tail[j];
          }
        }
      }
      [s[0]] + tail
  }

  /** The distinct keys of `ks`, strictly ascending. */
  function SortedKeys<K(==,!new)>(ks: seq<K>, less: (K, K) -> bool): (r: seq<K>)
    requires StrictTotalOrder(less)
    ensures StrictlySorted(r, less)
    ensures forall x :: x in r <==> x in ks
  {
    if |ks| == 0 then [] else Insert(SortedKeys(ks[1..], less), ks[0], less)
  }

  /** A strictly sorted sequence holds no key twice. */
  lemma SortedDistinct<K(!new)>(s: seq<K>, less: (K, K) -> bool)
    requires StrictTotalOrder(less) && StrictlySorted(s, less)
    ensures forall i, j :: 0 <= i < j < |s| ==> s[i] != s[j]
  {
  }

  lemma HeadIn<K>(s: seq<K>)
    ensures |s| == 0 || s[0] in s
  {
  }

  /** Two keys each equal to or below the other are equal. */
  lemma Antisymmetric<K(!new)>(x: K, y: K, less: (K, K) -> bool)
    requires StrictTotalOrder(less)
    requires (x == y || less(x, y)) && (y == x || less(y, x))
    ensures x == y
  {
  }

  /** A set of keys has exactly one strictly sorted arrangement. */
  lemma {:induction false} SortedUnique<K(!new)>(a: seq<K>, b: seq<K>, less: (K, K) -> bool)
    requires StrictTotalOrder(less) && StrictlySorted(a, less) && StrictlySorted(b, less)
    requires forall x :: x in a <==> x in b
    ensures a == b
    decreases |a|
  {
    if |a| == 0 {
      HeadIn(b);
    } else {
      assert a[0] in b;
      assert |b| > 0;
      var j :| 0 <= j < |b| && b[j] == a[0];
      assert b[0] in b;
      var i :| 0 <= i < |a| && a[i] == b[0];
      assert i == 0 || less(a[0], b[0]);
      assert j == 0 || less(b[0], a[0]);
      Antisymmetric(a[0], b[0], less);
      forall x
        ensures x in a[1..] <==> x in b[1..]
      {
        if x in a[1..] {
          var i :| 1 <= i < |a| && a[i] == x;
          assert less(a[0], x);
          assert x in b && x != b[0];
          var j :| 0 <= j < |b| && b[j] == x;
        }
        if x in b[1..] {
          var j :| 1 <= j < |b| && b[j] == x;
          assert less(b[0], x);
          assert x in a && x != a[0];
          var i :| 0 <= i < |a| && a[i] == x;
        }
      }
      SortedUnique(a[1..], b[1..], less);
      assert a == [a[0]] + a[1..];
      assert b == [b[0]] + b[1..];
    }
  }

  /** Sorting the distinct keys forgets the order in which keys arrived. */
  lemma SortedKeysOrderIndependent<K(!new)>(ks: seq<K>, ks': seq<K>, less: (K, K) -> bool)
    requires StrictTotalOrder(less)
    requires forall x :: x in ks <==> x in ks'
    ensures SortedKeys(ks, less) == SortedKeys(ks', less)
  {
    SortedUnique(SortedKeys(ks, less), SortedKeys(ks', less), less);
  }

  // ---------------------------------------------------------------------------
  // The two key orders the program sorts by

  predicate IntLess(a: int, b: int) {
    a < b
  }

  lemma IntOrder()
    ensures StrictTotalOrder(IntLess)
  {
  }

  /** Strictly sorted by `IntLess` is strictly ascending. */
  lemma IntAscending(s: seq<int>)
    requires StrictlySorted(s, IntLess)
    ensures forall i, j :: 0 <= i < j < |s| ==> s[i] < s[j]
  {
    forall i, j | 0 <= i < j < |s|
      ensures s[i] < s[j]
    {
      assert IntLess(s[i], s[j]);
    }
  }

  /** Python's string order: lexicographic by code point, a proper prefix first. */
  predicate StringLess(a: string, b: string) {
    |b| > 0 && (|a| == 0 || a[0] < b[0] || (a[0] == b[0] && StringLess(a[1..], b[1..])))
  }

  lemma {:induction false} StringLessIrreflexive(a: string)
    ensures !StringLess(a, a)
    decreases |a|
  {
    if |a| > 0 {
      StringLessIrreflexive(a[1..]);
    }
  }

  lemma {:induction false} StringLessTransitive(a: string, b: string, c: string)
    requires StringLess(a, b) && StringLess(b, c)
    ensures StringLess(a, c)
    decreases |a|
  {
    if |a| > 0 && a[0] == b[0] && b[0] == c[0] {
      StringLessTransitive(a[1..], b[1..], c[1..]);
    }
  }

  lemma {:induction false} StringLessTotal(a: string, b: string)
    requires a != b
    ensures StringLess(a, b) || StringLess(b, a)
    decreases |a|
  {
    if |a| > 0 && |b| > 0 && a[0] == b[0] {
      assert a == [a[0]] + a[1..];
      assert b == [b[0]] + b[1..];
      StringLessTotal(a[1..], b[1..]);
    }
  }

  lemma StringOrder()
    ensures StrictTotalOrder(StringLess)
  {
    forall a
      ensures !StringLess(a, a)
    {
      StringLessIrreflexive(a);
    }
    forall a, b, c | StringLess(a, b) && StringLess(b, c)
      ensures StringLess(a, c)
    {
      StringLessTransitive(a, b, c);
    }
    forall a, b | a != b
      ensures StringLess(a, b) || StringLess(b, a)
    {
      StringLessTotal(a, b);
    }
  }
}
