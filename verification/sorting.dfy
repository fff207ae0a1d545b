/** `sort.Slice` of the split-mode Ingress list by name. Go's sort is not
    stable, so the only promise is a non-decreasing permutation; insertion
    sort is one such arrangement. */
module Sorting {
  import Text
  import Seqs
  import opened Resource

  function Name(r: Ingress): string {
    r.name
  }

  function Names(rs: seq<Ingress>): seq<string> {
    Seqs.Map(Name, rs)
  }

  /** Names in non-decreasing Go string order. */
  predicate SortedByName(rs: seq<Ingress>) {
    forall i, j :: 0 <= i < j < |rs| ==> !Text.Less(rs[j].name, rs[i].name)
  }

  /** Putting an element in front of a sorted list keeps it sorted when no
      element of the list has a smaller name. */
  lemma ConsSorted(h: Ingress, t: seq<Ingress>)
    requires SortedByName(t)
    requires forall y :: y in t ==> !Text.Less(y.name, h.name)
    ensures SortedByName([h] + t)
  {
    var r := [h] + t;
    forall i, j | 0 <= i < j < |r|
      ensures !Text.Less(r[j].name, r[i].name)
    {
      assert r[j] == t[j - 1];
      if i > 0 {
        assert r[i] == t[i - 1];
      } else {
        assert r[j] in t;
      }
    }
  }

  /** An element with a strictly smaller name than the head of a sorted list
      is not greater than any element of it. */
  lemma SmallerThanAll(x: Ingress, rs: seq<Ingress>)
    requires SortedByName(rs) && |rs| > 0 && Text.Less(x.name, rs[0].name)
    ensures forall y :: y in rs ==> !Text.Less(y.name, x.name)
  {
    forall y | y in rs
      ensures !Text.Less(y.name, x.name)
    {
      var j :| 0 <= j < |rs| && rs[j] == y;
      if j == 0 {
        Text.LessIrreflexive(x.name);
        if Text.Less(rs[0].name, x.name) {
          Text.LessTransitive(x.name, rs[0].name, x.name);
        }
      } else if Text.Less(rs[j].name, x.name) {
        Text.LessTransitive(rs[j].name, x.name, rs[0].name);
      }
    }
  }

  /** Every element of `rs[1..]` plus `x` is not smaller than the head. */
  lemma HeadBelowRest(x: Ingress, rs: seq<Ingress>, rest: seq<Ingress>)
    requires SortedByName(rs) && |rs| > 0 && !Text.Less(x.name, rs[0].name)
    requires multiset(rest) == multiset(rs[1..]) + multiset{x}
    ensures forall y :: y in rest ==> !Text.Less(y.name, rs[0].name)
  {
    forall y | y in rest
      ensures !Text.Less(y.name, rs[0].name)
    {
      assert y in multiset(rest);
      if y != x {
        assert y in multiset(rs[1..]);
        var k :| 0 <= k < |rs[1..]| && rs[1..][k] == y;
        assert rs[k + 1] == y;
      }
    }
  }

  function Insert(x: Ingress, rs: seq<Ingress>): (r: seq<Ingress>)
    requires SortedByName(rs)
    ensures SortedByName(r)
    ensures multiset(r) == multiset(rs) + multiset{x}
    decreases |rs|
  {
    if |rs| == 0 then [x]
    else if Text.Less(x.name, rs[0].name) then
      SmallerThanAll(x, rs);
      ConsSorted(x, rs);
      [x] + rs
    else
      var rest := Insert(x, rs[1..]);
      HeadBelowRest(x, rs, rest);
      ConsSorted(rs[0], rest);
      assert rs == [rs[0]] + rs[1..];
      [rs[0]] + rest
  }

  /** Sorts by name: a non-decreasing permutation of the input. */
  function SortByName(rs: seq<Ingress>): (r: seq<Ingress>)
    ensures SortedByName(r)
    ensures multiset(r) == multiset(rs)
    decreases |rs|
  {
    if |rs| == 0 then []
    else
      assert rs == [rs[0]] + rs[1..];
      Insert(rs[0], SortByName(rs[1..]))
  }

  lemma SortedNames(rs: seq<Ingress>)
    requires SortedByName(rs)
    ensures Text.SortedStrings(Names(rs))
  {
  }

  /** Any two name-sorted arrangements of the same Ingresses agree on the
      sequence of names; they agree entirely when the names are distinct. */
  lemma SortedArrangementsAgree(a: seq<Ingress>, b: seq<Ingress>)
    requires SortedByName(a) && SortedByName(b)
    requires multiset(a) == multiset(b)
    ensures Names(a) == Names(b)
    ensures DistinctNames(a) ==> a == b
  {
    Seqs.MapPreservesPermutation(Name, a, b);
    SortedNames(a);
    SortedNames(b);
    Text.SortedPermutationsEqual(Names(a), Names(b));
    if DistinctNames(a) {
      forall i | 0 <= i < |a|
        ensures a[i] == b[i]
      {
        assert Names(a)[i] == Names(b)[i];
        assert b[i] in multiset(a);
        var k :| 0 <= k < |a| && a[k] == b[i];
      }
    }
  }

  predicate DistinctNames(rs: seq<Ingress>) {
    forall i, j :: 0 <= i < j < |rs| ==> rs[i].name != rs[j].name
  }
}
