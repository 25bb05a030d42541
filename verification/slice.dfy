// The worker's copy of its B range: arr_b[start..end], both ends inclusive,
// is copied into a fresh buffer sub_arr_b of end - start + 1 elements.
module Slice {

  /**
   * The counting loop of the worker branch, lifted out of main. An empty
   * range (end == start - 1) copies nothing; otherwise the range must lie
   * inside `b`, the only cells the loop reads. The buffer comes out with
   * sub[k] == b[start + k] for every k.
   */
  method CopyRange(b: array<int>, start: int, end: int) returns (sub: array<int>)
    requires start <= end + 1
    requires start <= end ==> 0 <= start && end < b.Length
    ensures fresh(sub)
    ensures sub.Length == end - start + 1
    ensures forall k :: 0 <= k < sub.Length ==> sub[k] == b[start + k]
  {
    var size := end - start + 1;
    sub := new int[size];
    var index := 0;
    var i := start;
    while i < end + 1
      invariant start <= i <= end + 1
      invariant index == i - start
      invariant forall k :: 0 <= k < index ==> sub[k] == b[start + k]
    {
      sub[index] := b[i];
      index := index + 1;
      i := i + 1;
    }
  }
}
