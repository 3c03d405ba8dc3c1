/** `Array.prototype.sort((a, b) => a - b)` on the numeric breakpoint keys: ascending order. */
module Sorting {

  predicate SortedAsc(s: seq<nat>) {
    forall i, j :: 0 <= i < j < |s| ==> s[i] <= s[j]
  }

  /** Every element of `s` is at least `lo`. */
  predicate AllAtLeast(lo: nat, s: seq<nat>) {
    forall i :: 0 <= i < |s| ==> lo <= s[i]
  }

  lemma PrependSorted(lo: nat, s: seq<nat>)
    requires SortedAsc(s) && AllAtLeast(lo, s)
    ensures SortedAsc([lo] + s)
  {
  }

  /** A lower bound of `s` and of `x` bounds every arrangement of `s` with `x` added. */
  lemma LowerBoundOfPermutation(lo: nat, x: nat, s: seq<nat>, t: seq<nat>)
    requires lo <= x && AllAtLeast(lo, s)
    requires multiset(t) == multiset(s) + multiset{x}
    ensures AllAtLeast(lo, t)
  {
    forall i | 0 <= i < |t| ensures lo <= t[i] {
      assert t[i] in multiset(t);
      if t[i] != x {
        assert t[i] in multiset(s);
      }
    }
  }

  /** Places `x` in front of the first element not smaller than it. */
  function Insert(x: nat, s: seq<nat>): (r: seq<nat>)
    requires SortedAsc(s)
    ensures SortedAsc(r) && multiset(r) == multiset(s) + multiset{x}
  {
    if s == [] || x <= s[0] then
      PrependSorted(x, s);
      [x] + s
    else
      var t := Insert(x, s[1..]);
      assert s == [s[0]] + s[1..];
      LowerBoundOfPermutation(s[0], x, s[1..], t);
      PrependSorted(s[0], t);
      [s[0]] + t
  }

  /** The numbers of `s` in ascending order: sorted, and a permutation of `s`. */
  function SortAsc(s: seq<nat>): (r: seq<nat>)
    ensures SortedAsc(r) && multiset(r) == multiset(s)
  {
    if s == [] then []
    else
      assert s == [s[0]] + s[1..];
      Insert(s[0], SortAsc(s[1..]))
  }
}
