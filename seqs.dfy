/** Python's filtering list comprehension `[x for x in s if keep(x)]`,
    shared by the position table and the edge partition. */
module Seqs {

  /** a can be obtained from b by deleting elements: b's order is kept. */
  ghost predicate IsSubsequence<T>(a: seq<T>, b: seq<T>)
    decreases |b|
  {
    if a == [] then true
    else if b == [] then false
    else (a[0] == b[0] && IsSubsequence(a[1..], b[1..])) || IsSubsequence(a, b[1..])
  }

  /** No element occurs twice in s. */
  predicate Distinct<T(==)>(s: seq<T>)
  {
    forall i, j :: 0 <= i < j < |s| ==> s[i] != s[j]
  }

  /** `[x for x in s if keep(x)]`. */
  function Filter<T(==)>(s: seq<T>, keep: T -> bool): (r: seq<T>)
    ensures forall i :: 0 <= i < |r| ==> r[i] in s && keep(r[i])
    ensures forall i :: 0 <= i < |s| && keep(s[i]) ==> s[i] in r
    ensures IsSubsequence(r, s)
  {
    if s == [] then []
    else if keep(s[0]) then [s[0]] + Filter(s[1..], keep)
    else Filter(s[1..], keep)
  }

  /** Two filters with complementary conditions split s: every element
      of s, with its multiplicity, lands in exactly one of the two. */
  lemma {:induction false} FilterSplits<T>(s: seq<T>, keep: T -> bool, other: T -> bool)
    requires forall i :: 0 <= i < |s| ==> (keep(s[i]) <==> !other(s[i]))
    ensures multiset(Filter(s, keep)) + multiset(Filter(s, other)) == multiset(s)
  {
    if s != [] {
      FilterSplits(s[1..], keep, other);
      assert s == [s[0]] + s[1..];
      assert multiset(Filter(s, keep)) ==
        (if keep(s[0]) then multiset{s[0]} else multiset{}) + multiset(Filter(s[1..], keep));
      assert multiset(Filter(s, other)) ==
        (if keep(s[0]) then multiset{} else multiset{s[0]}) + multiset(Filter(s[1..], other));
    }
  }
}
