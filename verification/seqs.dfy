/** Element-wise map and filter over sequences, and how they interact with
    concatenation and permutation. */
module Seqs {

  function Map<T, U>(s: seq<T>, f: T -> U): (r: seq<U>)
    ensures |r| == |s|
    ensures forall i {:trigger r[i]} :: 0 <= i < |s| ==> r[i] == f(s[i])
  {
    if |s| == 0 then [] else [f(s[0])] + Map(s[1..], f)
  }

  /** The elements of `s` satisfying `p`, in their original order. */
  function Filter<T>(s: seq<T>, p: T -> bool): (r: seq<T>)
    ensures |r| <= |s|
    ensures forall i :: 0 <= i < |r| ==> r[i] in s && p(r[i])
    ensures forall i :: 0 <= i < |s| && p(s[i]) ==> s[i] in r
  {
    if |s| == 0 then [] else (if p(s[0]) then [s[0]] else []) + Filter(s[1..], p)
  }

  /** The first element `Filter` keeps is the earliest element of `s` that
      satisfies `p`: filtering does not reorder. */
  lemma {:induction false} FilterHeadIsFirst<T>(s: seq<T>, p: T -> bool, j: nat)
    requires j < |s| && p(s[j])
    requires forall t :: 0 <= t < j ==> !p(s[t])
    ensures |Filter(s, p)| > 0 && Filter(s, p)[0] == s[j]
    decreases j
  {
    if j > 0 {
      FilterHeadIsFirst(s[1..], p, j - 1);
    }
  }

  /** Filtering keeps every occurrence of a kept element and none of a
      dropped one. */
  lemma {:induction false} FilterCount<T>(s: seq<T>, p: T -> bool, x: T)
    ensures multiset(Filter(s, p))[x] == if p(x) then multiset(s)[x] else 0
    decreases |s|
  {
    if |s| > 0 {
      FilterCount(s[1..], p, x);
      var head := if p(s[0]) then [s[0]] else [];
      assert Filter(s, p) == head + Filter(s[1..], p);
      assert multiset(Filter(s, p)) == multiset(head) + multiset(Filter(s[1..], p));
      assert s == [s[0]] + s[1..];
      assert multiset(s) == multiset{s[0]} + multiset(s[1..]);
    }
  }

  /** `s` with its `i`-th element removed. */
  function RemoveAt<T>(s: seq<T>, i: nat): (r: seq<T>)
    requires i < |s|
    ensures |r| == |s| - 1
    ensures multiset(r) == multiset(s) - multiset{s[i]}
  {
    assert s == s[..i] + [s[i]] + s[i+1..];
    s[..i] + s[i+1..]
  }

  /** A sequence is determined by its length and its elements. */
  lemma Elements3<T>(r: seq<T>, a: T, b: T, c: T)
    requires |r| == 3 && r[0] == a && r[1] == b && r[2] == c
    ensures r == [a, b, c]
  {
  }

  lemma Elements4<T>(r: seq<T>, a: T, b: T, c: T, d: T)
    requires |r| == 4 && r[0] == a && r[1] == b && r[2] == c && r[3] == d
    ensures r == [a, b, c, d]
  {
  }

  lemma MapConcat<T, U>(a: seq<T>, b: seq<T>, f: T -> U)
    ensures Map(a + b, f) == Map(a, f) + Map(b, f)
  {
  }

  lemma {:induction false} FilterConcat<T>(a: seq<T>, b: seq<T>, p: T -> bool)
    ensures Filter(a + b, p) == Filter(a, p) + Filter(b, p)
    decreases |a|
  {
    if |a| == 0 {
      assert a + b == b;
    } else {
      assert (a + b)[0] == a[0];
      assert (a + b)[1..] == a[1..] + b;
      FilterConcat(a[1..], b, p);
    }
  }

  /** Two functions that agree on every element give the same map. */
  lemma MapAgree<T, U>(s: seq<T>, f: T -> U, g: T -> U)
    requires forall x :: x in s ==> f(x) == g(x)
    ensures Map(s, f) == Map(s, g)
  {
  }

  /** Mapping through `f` then `g` is mapping through their composition `h`. */
  lemma MapCompose<T, U, W>(s: seq<T>, f: T -> U, g: U -> W, h: T -> W)
    requires forall x :: x in s ==> h(x) == g(f(x))
    ensures Map(Map(s, f), g) == Map(s, h)
  {
  }

  /** Filtering by a predicate that only looks at `f(x)` commutes with mapping by `f`. */
  lemma {:induction false} MapFilter<T, U>(s: seq<T>, f: T -> U, p: T -> bool, q: U -> bool)
    requires forall x :: x in s ==> p(x) == q(f(x))
    ensures Map(Filter(s, p), f) == Filter(Map(s, f), q)
    decreases |s|
  {
    if |s| > 0 {
      MapFilter(s[1..], f, p, q);
      assert Map(s, f)[1..] == Map(s[1..], f);
      MapConcat(if p(s[0]) then [s[0]] else [], Filter(s[1..], p), f);
    }
  }

  /** `s` is the part before `i`, `s[i]`, and the part after; removing `s[i]` joins the two parts. */
  lemma RemoveAtSplit<T>(s: seq<T>, i: nat)
    requires i < |s|
    ensures s == s[..i] + [s[i]] + s[i+1..]
    ensures RemoveAt(s, i) == s[..i] + s[i+1..]
  {
  }

  /** Taking a middle part out of a sequence takes its elements out of the multiset. */
  lemma MiddleOut<T>(l: seq<T>, x: seq<T>, r: seq<T>)
    ensures multiset(l + x + r) == multiset(l + r) + multiset(x)
  {
  }

  /** Removing one element from the input removes its image from the mapped output. */
  lemma MapRemoveAt<T, U>(b: seq<T>, i: nat, f: T -> U)
    requires i < |b|
    ensures multiset(Map(b, f)) == multiset(Map(RemoveAt(b, i), f)) + multiset{f(b[i])}
  {
    var l, r := b[..i], b[i+1..];
    RemoveAtSplit(b, i);
    MapConcat(l + [b[i]], r, f);
    MapConcat(l, [b[i]], f);
    MapConcat(l, r, f);
    assert Map([b[i]], f) == [f(b[i])];
    MiddleOut(Map(l, f), Map([b[i]], f), Map(r, f));
  }

  /** Rearrangements have the same elements. */
  lemma PermutationMembers<T>(a: seq<T>, b: seq<T>)
    requires multiset(a) == multiset(b)
    ensures forall x :: x in a <==> x in b
  {
    forall x
      ensures x in a <==> x in b
    {
      assert x in a <==> x in multiset(a);
      assert x in b <==> x in multiset(b);
    }
  }

  /** Adding the same element to equal multisets gives equal multisets. */
  lemma SwapOne<U>(m: multiset<U>, m': multiset<U>, n': multiset<U>, n: multiset<U>, x: U)
    requires m == multiset{x} + m' && m' == n' && n == n' + multiset{x}
    ensures m == n
  {
  }

  /** A multiset-preserving rearrangement of the input rearranges the mapped output. */
  lemma {:induction false} MapPermutation<T, U>(a: seq<T>, b: seq<T>, f: T -> U)
    requires multiset(a) == multiset(b)
    ensures multiset(Map(a, f)) == multiset(Map(b, f))
    decreases |a|
  {
    if |a| == 0 {
      assert |b| == |multiset(b)| == 0;
    } else {
      assert a[0] in multiset(b);
      var i :| 0 <= i < |b| && b[i] == a[0];
      var rest := RemoveAt(b, i);
      assert a == [a[0]] + a[1..];
      assert multiset(a[1..]) == multiset(rest);
      MapPermutation(a[1..], rest, f);
      MapRemoveAt(b, i, f);
      MapConcat([a[0]], a[1..], f);
      assert Map([a[0]], f) == [f(a[0])];
      SwapOne(multiset(Map(a, f)), multiset(Map(a[1..], f)), multiset(Map(rest, f)), multiset(Map(b, f)), f(a[0]));
    }
  }

  /** A multiset-preserving rearrangement of the input rearranges the filtered output. */
  lemma FilterPermutation<T>(a: seq<T>, b: seq<T>, p: T -> bool)
    requires multiset(a) == multiset(b)
    ensures multiset(Filter(a, p)) == multiset(Filter(b, p))
  {
    forall x
      ensures multiset(Filter(a, p))[x] == multiset(Filter(b, p))[x]
    {
      FilterCount(a, p, x);
      FilterCount(b, p, x);
    }
  }
}
