# Parallel merge (a2.c): the sequential kernels

`a2.c` is an MPI program that merges two sorted int arrays A and B across a
group of processes. The file is an unfinished draft: the coordinator's
partition loop and the send/receive of results are missing, and it refers to
symbols it never declares. What it does contain, and what this project
models and proves, are its three sequential kernels:

- `binary_search`: the index of the **last occurrence** of a key in a sorted
  int array, or `-1` (`INDEX_NOT_FOUND`) when the key is not there
  (`search.dfy`, module `Search`);
- the worker's copy of its inclusive range `arr_b[start..end]` into a fresh
  buffer (`slice.dfy`, module `Slice`);
- the worker's two-pointer merge of its A chunk and B chunk into a fresh
  buffer, with the two tail-copy loops (`merge.dfy`, module `Merge`). The
  block is split along its own loops: `MergeHeads` is the two-pointer loop,
  and both tail loops, which have the same shape, are calls of `CopyRest`
  under the guards of a2.c.

`ordering.dfy` (module `Ordering`) holds what "sorted" means and the fact
that a sorted arrangement of a multiset of values is unique.

Each kernel is a Dafny method over arrays, with the loop structure of the C
code. The search and the merge are proved against a reference function on
sequences (`LastIndexOf`, `Merged`), and the lemmas about those functions
give the properties the program relies on; the slice copy's contract gives
every element of the buffer outright.

Notes on reading the C code:

- `binary_search` reports a position only on an exact match. It does not
  return "the last index whose element is at most the key", which a
  partitioning step would want; the model follows the code.
- `floor((first_index + last_index) / 2)` is C integer division followed by a
  no-op `floor`. C division truncates toward zero, so the model uses an
  explicit truncating halving (`HalfTowardZero`). It differs from Dafny's
  Euclidean `/` for negative odd sums, which arise only at `0 + (-1)` on
  loop exit or from a size of -2 or less; none of those midpoints is read.
- In the merge the comparison is `sub_arr_a[i] < sub_arr_b[j]`: on equal
  heads the B element goes first. `MergedBFirst` and `MergedAFirst` show the
  asymmetry.
- `binary_search` takes the array size as a separate argument;
  `BinarySearch` keeps that `size` parameter and requires only that the
  array holds that many elements (a size of zero or less searches nothing).

## Model

| member | source | states |
|---|---|---|
| `Search.BinarySearch` | a2.c:74-103 | the result is -1 or an index below the size holding the key; a size of 0 or less gives -1; on a sorted prefix the result equals `LastIndexOf`, is -1 exactly when the key is absent, and every later element is strictly greater; every probe is in bounds and the loop terminates |
| `Search.HalfTowardZero` | a2.c:78 | C's int `x / 2` as used for `midpoint` (a2.c:78 and a2.c:99), truncated toward zero: the remainder `x - 2 * h` has the sign of `x` and magnitude at most 1 |
| `Search.LastIndexOf` | a2.c:65-72 | reference for the search result: -1 or a valid index |
| `Search.LastIndexOfMeaning` | a2.c:65-72 | the reference is -1 if and only if the key does not occur; otherwise it holds the key and no later position does |
| `Search.LastIndexOfUnique` | a2.c:65-72 | any rightmost occurrence of the key (or -1 for an absent key) is the reference result, so the contract fixes the answer |
| `Search.LastIndexOfSorted` | a2.c:65-72 | on a sorted array a present key is always found, and everything after its last occurrence is strictly greater |
| `Slice.CopyRange` | a2.c:173-181 | the fresh buffer has `end - start + 1` elements and element k is `arr_b[start + k]`; an empty range reads nothing |
| `Merge.Merged` | a2.c:184-203 | reference merge with B first on equal heads; its length is the sum of the two chunk lengths |
| `Merge.MergedMultiset` | a2.c:189-203 | the merge is a permutation of the two chunks together |
| `Merge.MergedSorted` | a2.c:189-203 | two sorted chunks merge into a sorted chunk |
| `Merge.MergedIsTheSortedUnion` | a2.c:189-203 | for sorted chunks, the merge is the only sorted sequence with their combined values |
| `Merge.MergedBFirst` | a2.c:191-194 | when no B element exceeds any A element, all of B comes out before A, ties included |
| `Merge.MergedAFirst` | a2.c:191-192 | when every A element is strictly below every B element, A comes out as a block before B |
| `Merge.MergeHeads` | a2.c:187-195 | the two-pointer loop stays in bounds, stops with one chunk used up, and has written the first i + j elements of `Merged` and left every later slot as it was; what is left to write is the merge of the two suffixes |
| `Merge.CopyRest` | a2.c:197-203 | a tail loop appends the rest of its chunk after the written prefix, leaves that prefix and every slot after the new write index alone, and ends with the read index at the chunk's end |
| `Merge.MergeChunks` | a2.c:184-203 | the fresh output has `|a| + |b|` elements, every one written (the write index ends at exactly that bound, asserted after the tail loops), equal to `Merged`, a permutation of the inputs, and sorted when both inputs are |

## Left out

- MPI (`MPI_Init`, `MPI_Comm_rank`, `MPI_Comm_size`, `MPI_Scatter`, `MPI_Recv`, `MPI_Finalize`): inter-process transport, outside a sequential model. The start and end of the B range, received by message, are parameters of `CopyRange`.
- `gen_arrays`: it draws from `rand()` seeded with the clock; the inputs are parameters instead.
- `print_array` and the usage message: console output.
- `atoi` and `pow(2, arr_pow)`: argument parsing and floating point; array sizes are the lengths of the Dafny arrays.
- The coordinator's loop at a2.c:150-153 and `arr_a_group_size = arr_pow`: the loop searches `sub_arr_a` for its own last element and discards the answer, so there is no behaviour to model; no partition plan exists in this file.
- `calloc`/`free`, including the undeclared `sub_arr_C`: memory management. Fresh Dafny arrays stand for the `calloc` buffers; a failed allocation is not modelled.
- CopyRange: a range with `end < start - 1` gives `calloc` a negative size; this allocation case is excluded by a precondition rather than modelled.
- CopyRange: a Dafny method cannot carry a reads clause, so "only `arr_b[start..end]` is read" is shown only through the preconditions, which guarantee just those cells when the range is non-empty.
- BinarySearch: indices are unbounded integers. In C, `first_index + last_index` could overflow `int` for sizes above 2^30, which this program never allocates (`pow(2, arr_pow)` stored in an `int`).
- Elements are unbounded integers rather than 32-bit `int`; the kernels only compare and copy them, so the width does not change any result.
