// Ordering facts shared by the search and the merge: what "sorted ascending"
// means for the int arrays of a2.c, and why a sorted arrangement of a given
// multiset of values is unique.
module Ordering {

  /** Non-decreasing order, the shape every input array of the program has. */
  ghost predicate Sorted(s: seq<int>)
  {
    forall i, j :: 0 <= i < j < |s| ==> s[i] <= s[j]
  }

  /** Every element of `s` is at least `x`. */
  ghost predicate AtLeast(s: seq<int>, x: int)
  {
    forall e :: e in s ==> x <= e
  }

  /** Prepending a lower bound to a sorted sequence keeps it sorted. */
  lemma ConsSorted(x: int, s: seq<int>)
    requires Sorted(s) && AtLeast(s, x)
    ensures Sorted([x] + s)
  {
    var t := [x] + s;
    forall i, j | 0 <= i < j < |t| ensures t[i] <= t[j] {
      if i > 0 {
        assert t[i] == s[i - 1] && t[j] == s[j - 1];
      } else {
        assert t[j] == s[j - 1] && s[j - 1] in s;
      }
    }
  }

  /** The head of a sorted sequence bounds all of it from below. */
  lemma SortedHeadIsLowerBound(s: seq<int>)
    requires Sorted(s) && s != []
    ensures AtLeast(s, s[0])
  {
  }

  /**
   * Two sorted sequences holding the same multiset of values are equal:
   * a sorted permutation is determined by its values alone.
   */
  lemma {:induction false} SortedPermutationUnique(s: seq<int>, t: seq<int>)
    requires Sorted(s) && Sorted(t)
    requires multiset(s) == multiset(t)
    ensures s == t
  {
    assert |s| == |multiset(s)| == |multiset(t)| == |t|;
    if s != [] {
      assert s[0] in multiset(t);
      assert t[0] in multiset(s);
      SortedHeadIsLowerBound(s);
      SortedHeadIsLowerBound(t);
      assert s[0] == t[0];
      assert s == [s[0]] + s[1..];
      assert t == [t[0]] + t[1..];
      assert multiset(s[1..]) == multiset(s) - multiset{s[0]};
      assert multiset(t[1..]) == multiset(t) - multiset{t[0]};
      SortedPermutationUnique(s[1..], t[1..]);
    }
  }
}
