/** `Array.prototype.filter` over sequences, and what it means for the
    order of the elements it keeps. */
module Seqs {

  /** `r` can be obtained from `s` by deleting elements, keeping the order of the rest. */
  ghost predicate IsSubsequence<T>(r: seq<T>, s: seq<T>)
  {
    if r == [] then true
    else if s == [] then false
    else (r[0] == s[0] && IsSubsequence(r[1..], s[1..])) || IsSubsequence(r, s[1..])
  }

  /** No element occurs twice. */
  ghost predicate Distinct<T>(s: seq<T>)
  {
    forall i, j :: 0 <= i < j < |s| ==> s[i] != s[j]
  }

  /** `s.filter(p)`: the elements of `s` that satisfy `p`, in their order in `s`. */
  function Filter<T>(s: seq<T>, p: T -> bool): (r: seq<T>)
    ensures |r| <= |s|
    ensures forall x :: x in r ==> x in s && p(x)
    ensures forall x :: x in s && p(x) ==> x in r
    ensures IsSubsequence(r, s)
    ensures multiset(r) <= multiset(s)
    ensures forall x :: x in s ==> multiset(r)[x] == if p(x) then multiset(s)[x] else 0
    ensures r == s <==> forall x :: x in s ==> p(x)
    ensures r == [] <==> forall x :: x in s ==> !p(x)
  {
    if s == [] then []
    else
      var rest := Filter(s[1..], p);
      var r := if p(s[0]) then [s[0]] + rest else rest;
      FilterCountStep(s, p, rest, r);
      assert s[0] in s && (p(s[0]) || s[0] !in rest);
      r
  }

  /** One step of `Filter`: keeping or dropping the head of `s` keeps each
      kept element's multiplicity and drops the others entirely. */
  lemma FilterCountStep<T>(s: seq<T>, p: T -> bool, rest: seq<T>, r: seq<T>)
    requires s != []
    requires multiset(rest) <= multiset(s[1..])
    requires forall x :: x in s[1..] ==> multiset(rest)[x] == if p(x) then multiset(s[1..])[x] else 0
    requires r == if p(s[0]) then [s[0]] + rest else rest
    ensures multiset(r) <= multiset(s)
    ensures forall x :: x in s ==> multiset(r)[x] == if p(x) then multiset(s)[x] else 0
  {
    assert s == [s[0]] + s[1..];
    assert multiset(s) == multiset{s[0]} + multiset(s[1..]);
    forall x | x in s
      ensures multiset(r)[x] == if p(x) then multiset(s)[x] else 0
    {
      if x !in s[1..] {
        assert multiset(s[1..])[x] == 0;
        assert multiset(rest)[x] == 0;
      }
    }
  }

  /** Every element of a subsequence is an element of the whole. */
  lemma {:induction false} SubsequenceMembers<T>(r: seq<T>, s: seq<T>)
    ensures IsSubsequence(r, s) ==> forall x :: x in r ==> x in s
  {
    if r != [] && s != [] {
      if r[0] == s[0] && IsSubsequence(r[1..], s[1..]) {
        SubsequenceMembers(r[1..], s[1..]);
        assert forall x :: x in r ==> x == r[0] || x in r[1..];
      } else {
        SubsequenceMembers(r, s[1..]);
      }
    }
  }

  /** The tail of a sequence without repetitions has none and lacks the head. */
  lemma DistinctTail<T>(s: seq<T>)
    requires s != [] && Distinct(s)
    ensures Distinct(s[1..]) && s[0] !in s[1..]
  {
    var tail := s[1..];
    forall i, j | 0 <= i < j < |tail| ensures tail[i] != tail[j] {
      assert tail[i] == s[i + 1] && tail[j] == s[j + 1];
    }
    forall i | 0 <= i < |tail| ensures tail[i] != s[0] {
      assert tail[i] == s[i + 1];
    }
  }

  /** Elements of `tail` that `r` must hold, other than its head, are in `r[1..]`. */
  lemma KeptAfterHead<T>(r: seq<T>, tail: seq<T>, p: T -> bool)
    requires r != [] && r[0] !in tail
    requires forall x :: x in tail && p(x) ==> x in r
    ensures forall x :: x in tail && p(x) ==> x in r[1..]
  {
    assert forall y :: y in r ==> y == r[0] || y in r[1..];
  }

  /** Within a sequence without repetitions, the order-preserving subsequence
      holding exactly the elements that satisfy `p` is `Filter(s, p)`. */
  lemma {:induction false} FilterUnique<T>(r: seq<T>, s: seq<T>, p: T -> bool)
    requires Distinct(s)
    requires IsSubsequence(r, s)
    requires forall x :: x in r ==> x in s && p(x)
    requires forall x :: x in s && p(x) ==> x in r
    ensures r == Filter(s, p)
  {
    if s == [] {
      assert r == [];
    } else if r == [] {
      assert forall x :: x in s ==> !p(x);
    } else {
      var tail := s[1..];
      DistinctTail(s);
      if p(s[0]) {
        assert s[0] in r;
        SubsequenceMembers(r, tail);
        assert r[0] == s[0] && IsSubsequence(r[1..], tail);
        SubsequenceMembers(r[1..], tail);
        KeptAfterHead(r, tail, p);
        FilterUnique(r[1..], tail, p);
        assert r == [r[0]] + r[1..];
      } else {
        assert r[0] in s && p(r[0]);
        assert r[0] != s[0];
        SubsequenceMembers(r, tail);
        FilterUnique(r, tail, p);
      }
    }
  }
}
