// binary_search of a2.c: the index of the LAST occurrence of a key in a
// sorted int array, or -1 when the key is not present at all.
module Search {
  import opened Ordering

  /** The -1 that binary_search starts from (a2.c:81); a2.c:24 names the same value INDEX_NOT_FOUND. */
  const NotFound := -1

  /**
   * C's `x / 2` on int: the quotient truncated toward zero, so the
   * remainder x - 2 * h takes the sign of x.
   */
  function HalfTowardZero(x: int): (h: int)
    ensures x >= 0 ==> 0 <= x - 2 * h <= 1
    ensures x < 0 ==> -1 <= x - 2 * h <= 0
  {
    if x < 0 then -((-x) / 2) else x / 2
  }

  /**
   * Reference definition of the result: scan from the right and report the
   * first position holding `key`, or NotFound.
   */
  function LastIndexOf(s: seq<int>, key: int): (r: int)
    ensures NotFound <= r < |s|
  {
    if s == [] then NotFound
    else if s[|s| - 1] == key then |s| - 1
    else LastIndexOf(s[..|s| - 1], key)
  }

  /** What LastIndexOf means: NotFound exactly when the key is absent, else a rightmost hit. */
  lemma {:induction false} LastIndexOfMeaning(s: seq<int>, key: int)
    ensures LastIndexOf(s, key) == NotFound <==> key !in s
    ensures LastIndexOf(s, key) != NotFound ==>
      s[LastIndexOf(s, key)] == key &&
      forall j :: LastIndexOf(s, key) < j < |s| ==> s[j] != key
  {
    if s != [] && s[|s| - 1] != key {
      var init := s[..|s| - 1];
      LastIndexOfMeaning(init, key);
      assert s == init + [s[|s| - 1]];
      var r := LastIndexOf(init, key);
      if r != NotFound {
        forall j | r < j < |s| ensures s[j] != key {
          if j < |s| - 1 {
            assert s[j] == init[j];
          }
        }
      }
    }
  }

  /** Any index that is a rightmost hit (or NotFound for an absent key) is LastIndexOf. */
  lemma {:induction false} LastIndexOfUnique(s: seq<int>, key: int, r: int)
    requires (r == NotFound && key !in s) ||
             (0 <= r < |s| && s[r] == key && forall j :: r < j < |s| ==> s[j] != key)
    ensures LastIndexOf(s, key) == r
  {
    LastIndexOfMeaning(s, key);
  }

  /**
   * In a sorted sequence the last occurrence of a present key is followed only
   * by strictly greater elements, and the key is found whenever it occurs.
   */
  lemma {:induction false} LastIndexOfSorted(s: seq<int>, key: int)
    requires Sorted(s)
    ensures key in s ==> LastIndexOf(s, key) != NotFound
    ensures LastIndexOf(s, key) != NotFound ==>
      forall j :: LastIndexOf(s, key) < j < |s| ==> s[j] > key
  {
    LastIndexOfMeaning(s, key);
    var r := LastIndexOf(s, key);
    if r != NotFound {
      forall j | r < j < |s| ensures s[j] > key {
        assert s[r] <= s[j] && s[j] != key;
      }
    }
  }

  /**
   * binary_search(array, num_to_find, array_size). The array holds at least
   * `size` elements; a size of zero or less searches nothing and yields
   * NotFound. Any other result is an index below `size` that holds the key;
   * when the searched prefix is sorted the result is exactly its last
   * occurrence, and NotFound only when the key does not occur.
   */
  method BinarySearch(a: array<int>, key: int, size: int) returns (found: int)
    requires size <= a.Length
    ensures found == NotFound || (0 <= found < size && a[found] == key)
    ensures size <= 0 ==> found == NotFound
    ensures 0 <= size && Sorted(a[..size]) ==> found == LastIndexOf(a[..size], key)
    ensures 0 <= size && Sorted(a[..size]) ==> (found == NotFound <==> key !in a[..size])
    ensures 0 <= size && Sorted(a[..size]) && found != NotFound ==>
      forall j :: found < j < size ==> a[j] > key
  {
    ghost var sorted := 0 <= size && Sorted(a[..size]);
    var first := 0;
    var last := size - 1;
    var mid := HalfTowardZero(first + last);
    found := NotFound;
    while first <= last
      invariant 0 <= first && last < size
      invariant sorted ==> first <= size && -1 <= last
      invariant mid == HalfTowardZero(first + last)
      invariant first <= last ==> first <= mid <= last
      invariant found == NotFound || (0 <= found < size && a[found] == key)
      invariant sorted && found == NotFound ==> forall k :: 0 <= k < first ==> a[k] < key
      invariant sorted && found != NotFound ==> found == first - 1
      invariant sorted ==> forall k :: last < k < size ==> a[k] > key
      decreases last - first
    {
      if a[mid] < key {
        first := mid + 1;
      } else if a[mid] == key {
        found := mid;
        first := mid + 1;
      } else {
        last := mid - 1;
      }
      mid := HalfTowardZero(first + last);
    }
    if sorted {
      var s := a[..size];
      if found == NotFound {
        assert forall k :: 0 <= k < size ==> s[k] != key;
        LastIndexOfUnique(s, key, NotFound);
      } else {
        LastIndexOfUnique(s, key, found);
      }
      LastIndexOfMeaning(s, key);
    }
  }
}
