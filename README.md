# Parallel node sort: a Dafny model

This project models the sort pipeline of `threadperf.go`. The program sorts
records (`Node`: a `data` value and an `id`) in two ways:

- **Sequential.** `singleThreadedTask` copies the slice and sorts the copy with
  `sortNodes`. That comparator orders by `data`, and `id` breaks ties.
- **Parallel.** `multiThreadedTask` copies the slice. If it holds at most 1000
  records, or there is at most one worker, it sorts the copy the same way.
  Otherwise it:
  1. cuts the copy into `numWorkers` contiguous, independently copied chunks of
     `n / numWorkers` records each, with the last chunk running to the end;
  2. sorts every chunk in its own goroutine and waits for all of them;
  3. folds `merge`, a two-pointer merge, over the sorted chunks from left to right.

`comparePerformance` then scans the two results for the first index where
`data` or `id` differ.

Files, one module each:

- `nodes.dfy` (`Nodes`): the record, the order `Less`, `Sorted`, and `CopyOf`,
  which is `make` plus `copy` of a slice range.
- `sorting.dfy` (`Sorting`): `Sort`, the reference sort (an insertion sort on
  sequences), and its characterisation as the unique sorted permutation of the
  input. It also holds the in-place `SortNodes` and `SingleThreadedTask`.
- `merging.dfy` (`Merging`): `Merged`, the merge stated recursively, with its
  lemmas. It also holds the loop `Merge`.
- `partitioning.dfy` (`Partitioning`): `Chunk`, `Chunks` and `Flatten`, the
  coverage lemmas, and the copying loop `SplitIntoChunks`.
- `orchestrator.dfy` (`Orchestrator`): `MergeAll`, which is the fold, and
  `ParallelSorted`, the function that specifies the whole parallel task. It
  also holds the fan-out `SortChunks`, the fold `MergeChunks` and
  `MultiThreadedTask`.
- `equivalence.dfy` (`Equivalence`): the scan `CompareResults`, and
  `ComparePerformance`, whose verdict is proved to be a match for every input
  and every worker count.

The central results:

- `SortCharacterization`: a sequence equals `Sort(s)` exactly when it is
  sorted and a permutation of `s`.
- `ParallelSortedIsSort`: the parallel pipeline returns `Sort(s)` for every
  input and every worker count.

Both tasks take the caller's slice as an `array<Node>`, and neither has a
`modifies` clause. The verifier therefore checks that the input is never
written. Results are returned as `seq<Node>` values that the caller owns.

## Model

| member | source | states |
|---|---|---|
| `Nodes.LessIsStrictTotalOrder` | threadperf.go:37-44 | The comparator is irreflexive, asymmetric, transitive and total on distinct records, and it is the lexicographic order on `(data, id)`. Its reflexive closure is "not after". |
| `Nodes.CopyOf` | threadperf.go:67-68 | `make` plus `copy` returns a fresh slice whose contents are exactly the source range. |
| `Sorting.InsertPermutes` | threadperf.go:37-44 | One insertion step adds exactly the inserted record and loses none. |
| `Sorting.SortPermutes` | threadperf.go:37-44 | The reference sort keeps every record with its multiplicity and keeps the length. |
| `Sorting.SortIsSorted` | threadperf.go:37-44 | The reference sort's result is non-decreasing under the comparator. |
| `Sorting.SortedPermutationIsUnique` | threadperf.go:37-44 | Two sorted sequences with the same records are equal, because the order is total. So any correct sort under this comparator gives the same result. |
| `Sorting.SortCharacterization` | threadperf.go:37-44 | `r == Sort(s)` if and only if `r` is sorted and a permutation of `s`. |
| `Sorting.SortExample` | threadperf.go:39-42 | `[{5,1},{3,2},{5,3}]` sorts to `[{3,2},{5,1},{5,3}]`: equal values are ordered by id. The empty input sorts to empty. |
| `Sorting.InsertInPlace` | threadperf.go:37-44 | One in-place insertion pass turns `a[..i+1]` into `Insert(a[..i], a[i])` and leaves the rest of the array unchanged. |
| `Sorting.SortNodes` | threadperf.go:37-44 | Sorting in place leaves the slice equal to `Sort` of its old contents: sorted, and a permutation of them. |
| `Sorting.SingleThreadedTask` | threadperf.go:63-74 | Returns `Sort` of the input, a sorted permutation of it. The input slice is only read. |
| `Merging.MergedLength` | threadperf.go:77-94 | A merge has length `len(left)+len(right)`. |
| `Merging.MergedPermutes` | threadperf.go:77-94 | A merge holds the multiset union of both sides, with no deduplication. |
| `Merging.MergedSorted` | threadperf.go:77-94 | Merging two sorted sequences gives a sorted sequence. |
| `Merging.MergedWithEmpty` | threadperf.go:91-92 | When one side is empty, the merge is the other side unchanged. |
| `Merging.MergedStep` | threadperf.go:81-92 | One unfolding of the merge: while both sides have records it emits the head the comparison picks. Once a side is exhausted it appends the rest of both sides verbatim. |
| `Merging.MergeLoopStep` | threadperf.go:81-89 | Each iteration of the main loop keeps its invariant. The records emitted so far, followed by the merge of what is left, make up the whole merge. |
| `Merging.MergeLoopExit` | threadperf.go:91-92 | When the main loop stops, appending the rest of `left` and then the rest of `right` completes the merge. |
| `Merging.MergeLoopEmitsInOrder` | threadperf.go:81-89 | At every state of the main loop on sorted inputs, `result` is sorted and no element of it comes after `left[i]` or `right[j]`. |
| `Merging.Merge` | threadperf.go:77-94 | The two-pointer loop returns `Merged(left, right)`. It has length `len(left)+len(right)`, is the multiset union of both sides, and is sorted when both inputs are. `merge(s, [])` and `merge([], s)` both return `s`. |
| `Partitioning.ChunkBounds` | threadperf.go:113-121 | Every chunk's start and end satisfy `0 <= start <= end <= n`. |
| `Partitioning.Chunk` | threadperf.go:113-124 | Every chunk but the last has `n / numWorkers` records. The last has `n - (numWorkers-1)*chunkSize` records, which is at least `chunkSize` and less than `chunkSize + numWorkers`. |
| `Partitioning.FlattenLength` | threadperf.go:113-124 | The length of a concatenation of chunks is the sum of the chunk lengths. |
| `Partitioning.ChunksPrefix` | threadperf.go:116-124 | The first `k` chunks, concatenated, are the first `k*chunkSize` records. |
| `Partitioning.ChunksCoverInput` | threadperf.go:113-124 | Concatenating the chunks in order gives back the input exactly, and their lengths sum to `n`. |
| `Partitioning.MoreWorkersThanRecords` | threadperf.go:113-121 | With more workers than records, `chunkSize` is 0: every chunk but the last is empty, and the last is the whole input. |
| `Partitioning.TenRecordsFourWorkers` | threadperf.go:113-124 | Ten records over four workers give chunks of 2, 2, 2 and 4 records, which concatenate back to the input. |
| `Partitioning.SplitIntoChunks` | threadperf.go:113-124 | The loop produces `numWorkers` fresh, pairwise distinct slices. Slice `i` holds exactly `Chunk(nodes, numWorkers, i)`. |
| `Orchestrator.MergeAllPermutes` | threadperf.go:140-143 | The left fold of `merge` holds exactly the records of all chunks. |
| `Orchestrator.MergeAllSorted` | threadperf.go:140-143 | The left fold of `merge` over sorted chunks is sorted. |
| `Orchestrator.FlattenPermutes` | threadperf.go:130-137 | Sorting each chunk does not change the multiset of the concatenation of the chunks. |
| `Orchestrator.ParallelSortedIsSort` | threadperf.go:96-146 | For every input and every worker count, the value `multiThreadedTask` computes equals the sequential sort. This holds on the fallback path and on the partition, sort and fold path. |
| `Orchestrator.SortChunks` | threadperf.go:126-137 | After the fan-out and the barrier, every chunk slice holds `Sort` of its old contents, and each worker touches only its own chunk. |
| `Orchestrator.MergeChunks` | threadperf.go:139-145 | The fold loop returns `MergeAll` of the chunks, a permutation of their concatenation. It is sorted when every chunk is. |
| `Orchestrator.PartitionSortMerge` | threadperf.go:113-145 | Partitioning the copy, sorting every chunk and folding `merge` over the chunks returns `MergeAll` of the sorted chunks of the input. |
| `Orchestrator.MultiThreadedTask` | threadperf.go:96-146 | Returns `ParallelSorted(nodes, numWorkers)`. That value equals `Sort(nodes)`, which is sorted and a permutation of the input, on both the fallback path and the parallel path. The input slice is only read. |
| `Equivalence.CompareResults` | threadperf.go:161-171 | When the lengths differ, the scan gives no verdict. Otherwise it reports a match exactly when the sequences are equal. If they are not, it reports the smallest index where `data` or `id` differ, together with both records. |
| `Equivalence.ComparePerformance` | threadperf.go:148-171 | For every input and every worker count, the single-threaded and multi-threaded results compare as a match. This is the outcome the test at threadperf_test.go:57 expects. |

## Left out

- Goroutines and `sync.WaitGroup` (threadperf.go:127-137) are not modelled as concurrency. Each goroutine sorts a chunk it alone owns, and the fold starts only after `wg.Wait()`. So `SortChunks` sorts the chunks one after another in a loop. The frame of `SortChunks` (only the chunk slices) and the distinctness of the chunks carry the disjoint-ownership argument.
- `runtime.NumCPU()` is replaced by the parameter `numWorkers`, which may be any integer. Values `<= 1` take the fallback path, as in the source.
- `sort.Slice` internals (the pattern-defeating quicksort in Go's library) are not modelled. `SortNodes` uses an in-place insertion sort with the same comparator. The order is total on `(data, id)`, and records with equal `data` and `id` are indistinguishable. So every correct sort under this comparator yields the same sequence (`SortedPermutationIsUnique`), and the result is the one `sort.Slice` produces. Running time is not modelled.
- Record generation (`genRandomNum`, `genNodes`), timing (`timeTrack`), and all printing (`printNode`, `outputNodes`, the reports in `comparePerformance`, `main`) are I/O and randomness. The model takes the records as an input. `Comparison` carries what the report would print.
- The `next`/`prev` pointer fields of `Node` are never set or read by the sort, so they are not part of the record. The mismatch report prints them, but they are always nil.
- Integer width: Go's `int` is 64 bits. Comparisons of `data` and `id` cannot overflow. Chunk boundaries stay between 0 and `n` (`ChunkBounds`), so no arithmetic here can wrap, and unbounded integers are used.
- The capacity reserved by `make(..., 0, len(left)+len(right))` in `merge` is an allocation detail. The model keeps only the contents.
- threadperf_test.go only captures standard output around `comparePerformance`. Its assertion (line 57) is what `ComparePerformance` proves. hello.go is a separate channel demo and is not part of this model.
- The partition does not avoid empty chunks. With more workers than records, every chunk but the last is empty (`MoreWorkersThanRecords`), and such chunks are still sorted and merged. The model follows the code here. A design that fell back instead of creating empty work would differ only in speed, not in the result.
- When the two lengths differ, the scan in `comparePerformance` reports nothing. The model follows the code (`NoVerdict`) rather than treating this case as "not equivalent".
