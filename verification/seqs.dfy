/** Generic sequence helpers: element-wise mapping, filtering, and how both
    interact with permutations (multiset equality). */
module Seqs {

  function Map<A, B>(f: A -> B, s: seq<A>): (r: seq<B>)
    ensures |r| == |s|
    ensures forall i :: 0 <= i < |s| ==> r[i] == f(s[i])
  {
    seq(|s|, i requires 0 <= i < |s| => f(s[i]))
  }

  /** Keeps the elements satisfying `p`, in their original order. */
  function Filter<A(!new)>(p: A -> bool, s: seq<A>): (r: seq<A>)
    ensures |r| <= |s|
    ensures forall x :: x in r <==> x in s && p(x)
  {
    if |s| == 0 then []
    else
      assert s == [s[0]] + s[1..];
      (if p(s[0]) then [s[0]] else []) + Filter(p, s[1..])
  }

  /** Filtering keeps every occurrence of a kept element and none of the others. */
  lemma {:induction false} FilterCounts<A(!new)>(p: A -> bool, s: seq<A>)
    ensures forall x :: multiset(Filter(p, s))[x] == if p(x) then multiset(s)[x] else 0
    decreases |s|
  {
    if |s| > 0 {
      FilterCounts(p, s[1..]);
      assert s == [s[0]] + s[1..];
    }
  }

  lemma MapAppend<A, B>(f: A -> B, a: seq<A>, b: seq<A>)
    ensures Map(f, a + b) == Map(f, a) + Map(f, b)
  {
  }

  /** Mapping a permutation gives a permutation. */
  lemma {:induction false} MapPreservesPermutation<A, B>(f: A -> B, a: seq<A>, b: seq<A>)
    requires multiset(a) == multiset(b)
    ensures multiset(Map(f, a)) == multiset(Map(f, b))
    decreases |a|
  {
    if |a| == 0 {
      assert |b| == |multiset(b)| == 0;
    } else {
      var x := a[0];
      assert x in multiset(b);
      var j :| 0 <= j < |b| && b[j] == x;
      var b' := b[..j] + b[j + 1..];
      assert b == b[..j] + [x] + b[j + 1..];
      assert a == [x] + a[1..];
      assert multiset(a) == multiset{x} + multiset(a[1..]);
      assert multiset(b) == multiset(b[..j]) + multiset{x} + multiset(b[j + 1..]);
      assert multiset(a[1..]) == multiset(a) - multiset{x};
      assert multiset(b') == multiset(b) - multiset{x};
      MapPreservesPermutation(f, a[1..], b');
      MapAppend(f, [x], a[1..]);
      MapAppend(f, b[..j], [x]);
      MapAppend(f, b[..j] + [x], b[j + 1..]);
      MapAppend(f, b[..j], b[j + 1..]);
    }
  }

  /** Filtering a permutation gives a permutation. */
  lemma FilterPreservesPermutation<A(!new)>(p: A -> bool, a: seq<A>, b: seq<A>)
    requires multiset(a) == multiset(b)
    ensures multiset(Filter(p, a)) == multiset(Filter(p, b))
  {
    var fa, fb := Filter(p, a), Filter(p, b);
    FilterCounts(p, a);
    FilterCounts(p, b);
    forall x
      ensures multiset(fa)[x] == multiset(fb)[x]
    {
    }
  }
}
