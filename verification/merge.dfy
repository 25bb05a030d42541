// The local merge of a2.c's worker branch: the process's chunk of A
// (sub_arr_a) and its chunk of B (sub_arr_b) are merged with two pointers
// into a fresh sub_arr_c, then whichever chunk is left over is appended.
module Merge {
  import opened Ordering

  /**
   * Reference definition of the merge. The comparison is strict
   * (`sub_arr_a[i] < sub_arr_b[j]`), so on equal heads the B element is
   * emitted first.
   */
  function Merged(xs: seq<int>, ys: seq<int>): (r: seq<int>)
    ensures |r| == |xs| + |ys|
    decreases |xs| + |ys|
  {
    if xs == [] then ys
    else if ys == [] then xs
    else if xs[0] < ys[0] then [xs[0]] + Merged(xs[1..], ys)
    else [ys[0]] + Merged(xs, ys[1..])
  }

  /** The merge neither loses, duplicates nor invents an element. */
  lemma {:induction false} MergedMultiset(xs: seq<int>, ys: seq<int>)
    ensures multiset(Merged(xs, ys)) == multiset(xs) + multiset(ys)
    decreases |xs| + |ys|
  {
    if xs != [] && ys != [] {
      if xs[0] < ys[0] {
        MergedMultiset(xs[1..], ys);
        assert Merged(xs, ys) == [xs[0]] + Merged(xs[1..], ys);
        assert multiset(xs) == multiset{xs[0]} + multiset(xs[1..]) by {
          assert xs == [xs[0]] + xs[1..];
        }
      } else {
        MergedMultiset(xs, ys[1..]);
        assert Merged(xs, ys) == [ys[0]] + Merged(xs, ys[1..]);
        assert multiset(ys) == multiset{ys[0]} + multiset(ys[1..]) by {
          assert ys == [ys[0]] + ys[1..];
        }
      }
    }
  }

  /** A lower bound of both inputs is a lower bound of their merge. */
  lemma MergedAtLeast(xs: seq<int>, ys: seq<int>, x: int)
    requires AtLeast(xs, x) && AtLeast(ys, x)
    ensures AtLeast(Merged(xs, ys), x)
  {
    MergedMultiset(xs, ys);
    forall e | e in Merged(xs, ys) ensures x <= e {
      assert e in multiset(Merged(xs, ys));
      if e in multiset(xs) {
        assert e in xs;
      } else {
        assert e in ys;
      }
    }
  }

  /** Merging two sorted chunks gives a sorted chunk. */
  lemma {:induction false} MergedSorted(xs: seq<int>, ys: seq<int>)
    requires Sorted(xs) && Sorted(ys)
    ensures Sorted(Merged(xs, ys))
    decreases |xs| + |ys|
  {
    if xs != [] && ys != [] {
      SortedHeadIsLowerBound(xs);
      SortedHeadIsLowerBound(ys);
      if xs[0] < ys[0] {
        var rest := xs[1..];
        assert Sorted(rest) by {
          forall i, j | 0 <= i < j < |rest| ensures rest[i] <= rest[j] {
            assert rest[i] == xs[i + 1] && rest[j] == xs[j + 1];
          }
        }
        MergedSorted(rest, ys);
        assert AtLeast(rest, xs[0]) by {
          forall e | e in rest ensures xs[0] <= e {
            assert e in xs;
          }
        }
        MergedAtLeast(rest, ys, xs[0]);
        ConsSorted(xs[0], Merged(rest, ys));
      } else {
        var rest := ys[1..];
        assert Sorted(rest) by {
          forall i, j | 0 <= i < j < |rest| ensures rest[i] <= rest[j] {
            assert rest[i] == ys[i + 1] && rest[j] == ys[j + 1];
          }
        }
        MergedSorted(xs, rest);
        assert AtLeast(rest, ys[0]) by {
          forall e | e in rest ensures ys[0] <= e {
            assert e in ys;
          }
        }
        MergedAtLeast(xs, rest, ys[0]);
        ConsSorted(ys[0], Merged(xs, rest));
      }
    }
  }

  /**
   * For sorted chunks the merge is the one sorted arrangement of their
   * combined values: any sorted sequence with that multiset equals it.
   */
  lemma MergedIsTheSortedUnion(xs: seq<int>, ys: seq<int>, s: seq<int>)
    requires Sorted(xs) && Sorted(ys)
    requires Sorted(s) && multiset(s) == multiset(xs) + multiset(ys)
    ensures s == Merged(xs, ys)
  {
    MergedSorted(xs, ys);
    MergedMultiset(xs, ys);
    SortedPermutationUnique(s, Merged(xs, ys));
  }

  /**
   * Tie-break towards B: when no element of B exceeds any element of A, the
   * whole of B is emitted before A, equal values included.
   */
  lemma {:induction false} MergedBFirst(xs: seq<int>, ys: seq<int>)
    requires forall i, j :: 0 <= i < |xs| && 0 <= j < |ys| ==> ys[j] <= xs[i]
    ensures Merged(xs, ys) == ys + xs
    decreases |ys|
  {
    if xs != [] && ys != [] {
      MergedBFirst(xs, ys[1..]);
      assert ys == [ys[0]] + ys[1..];
    }
  }

  /**
   * The other side of the tie-break: A is emitted as a block before B
   * when every element of A is strictly below every element of B.
   */
  lemma {:induction false} MergedAFirst(xs: seq<int>, ys: seq<int>)
    requires forall i, j :: 0 <= i < |xs| && 0 <= j < |ys| ==> xs[i] < ys[j]
    ensures Merged(xs, ys) == xs + ys
    decreases |xs|
  {
    if xs != [] && ys != [] {
      MergedAFirst(xs[1..], ys);
      assert xs == [xs[0]] + xs[1..];
    }
  }

  /**
   * The merge block of the worker branch, lifted out of main. The result
   * has room for exactly |a| + |b| elements and every slot is written:
   * it is Merged(a, b), sorted when both chunks are, and a permutation of
   * the two chunks together. The two-pointer loop is MergeHeads; each of
   * the two tail loops, guarded as in a2.c, is a CopyRest.
   */
  method MergeChunks(a: array<int>, b: array<int>) returns (c: array<int>)
    ensures fresh(c)
    ensures c.Length == a.Length + b.Length
    ensures c[..] == Merged(a[..], b[..])
    ensures multiset(c[..]) == multiset(a[..]) + multiset(b[..])
    ensures Sorted(a[..]) && Sorted(b[..]) ==> Sorted(c[..])
  {
    ghost var whole := Merged(a[..], b[..]);
    c := new int[a.Length + b.Length];
    var k, i, j := MergeHeads(a, b, c);
    if i >= a.Length {
      assert a[i..] == [];
      k, j := CopyRest(b, j, c, k);
    }
    if j >= b.Length {
      assert b[j..] == [];
      k, i := CopyRest(a, i, c, k);
    }
    assert k == c.Length;
    assert c[..] == whole;
    MergedMultiset(a[..], b[..]);
    if Sorted(a[..]) && Sorted(b[..]) {
      MergedSorted(a[..], b[..]);
    }
  }

  /**
   * The two-pointer loop: while both chunks have elements left, the smaller
   * head is written at the next slot of `c`, B's head on a tie. It stops
   * with one chunk used up, having written the first i + j elements of the
   * merge and nothing else; the rest of the merge is the merge of the two
   * suffixes.
   */
  method MergeHeads(a: array<int>, b: array<int>, c: array<int>) returns (k: int, i: int, j: int)
    requires c != a && c != b
    requires c.Length == a.Length + b.Length
    modifies c
    ensures 0 <= i <= a.Length && 0 <= j <= b.Length && k == i + j
    ensures i == a.Length || j == b.Length
    ensures forall m :: 0 <= m < k ==> c[m] == Merged(a[..], b[..])[m]
    ensures Merged(a[..], b[..])[k..] == Merged(a[i..], b[j..])
    ensures forall m :: k <= m < c.Length ==> c[m] == old(c[m])
  {
    ghost var xs, ys := a[..], b[..];
    ghost var whole := Merged(xs, ys);
    k, i, j := 0, 0, 0;
    assert xs[0..] == xs && ys[0..] == ys && whole[0..] == whole;
    while i < a.Length && j < b.Length
      invariant 0 <= i <= |xs| && 0 <= j <= |ys| && k == i + j
      invariant forall m :: 0 <= m < k ==> c[m] == whole[m]
      invariant whole[k..] == Merged(xs[i..], ys[j..])
      invariant forall m :: k <= m < c.Length ==> c[m] == old(c[m])
    {
      if a[i] < b[j] {
        TakeA(xs, ys, i, j, whole, k);
        c[k] := a[i];
        k, i := k + 1, i + 1;
      } else {
        TakeB(xs, ys, i, j, whole, k);
        c[k] := b[j];
        k, j := k + 1, j + 1;
      }
    }
  }

  /**
   * A tail loop: the rest of `src` from index `from` is appended to `dst`
   * from slot `at` on, leaving the slots below `at` and from the new write
   * index on alone. Returns the new
   * write index and the new read index, which has reached the end of `src`.
   */
  method CopyRest(src: array<int>, from: int, dst: array<int>, at: int) returns (next: int, read: int)
    requires dst != src
    requires 0 <= from <= src.Length && 0 <= at
    requires at + (src.Length - from) <= dst.Length
    modifies dst
    ensures read == src.Length && next == at + (src.Length - from)
    ensures forall m :: 0 <= m < at ==> dst[m] == old(dst[m])
    ensures forall m :: at <= m < next ==> dst[m] == src[from + (m - at)]
    ensures forall m :: next <= m < dst.Length ==> dst[m] == old(dst[m])
  {
    next, read := at, from;
    while read < src.Length
      invariant from <= read <= src.Length && next == at + (read - from)
      invariant forall m :: 0 <= m < at ==> dst[m] == old(dst[m])
      invariant forall m :: at <= m < next ==> dst[m] == src[from + (m - at)]
      invariant forall m :: next <= m < dst.Length ==> dst[m] == old(dst[m])
    {
      dst[next] := src[read];
      next, read := next + 1, read + 1;
    }
  }

  /**
   * The loop step that copies the A head: when the merge still to be
   * written is that of the suffixes from i and j and the A head is
   * strictly smaller (or B is used up), it starts with xs[i] and continues
   * with the merge of the suffixes from i + 1 and j.
   */
  lemma TakeA(xs: seq<int>, ys: seq<int>, i: int, j: int, whole: seq<int>, k: int)
    requires 0 <= i < |xs| && 0 <= j <= |ys| && 0 <= k <= |whole|
    requires j == |ys| || xs[i] < ys[j]
    requires whole[k..] == Merged(xs[i..], ys[j..])
    ensures k < |whole| && whole[k] == xs[i] && whole[k + 1..] == Merged(xs[i + 1..], ys[j..])
  {
  }

  /** The loop step that copies the B head, taken on a tie as well. */
  lemma TakeB(xs: seq<int>, ys: seq<int>, i: int, j: int, whole: seq<int>, k: int)
    requires 0 <= i <= |xs| && 0 <= j < |ys| && 0 <= k <= |whole|
    requires i == |xs| || ys[j] <= xs[i]
    requires whole[k..] == Merged(xs[i..], ys[j..])
    ensures k < |whole| && whole[k] == ys[j] && whole[k + 1..] == Merged(xs[i..], ys[j + 1..])
  {
  }
}
