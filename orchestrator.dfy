/** `multiThreadedTask`: the small-input fallback, the per-chunk sorts and the
    left fold of `merge` over the sorted chunks.

    The goroutines of the source each sort one chunk that no other goroutine
    touches, and the fold starts only after all of them have finished; the
    chunk sorts are therefore modelled as a loop that sorts the chunks one
    after the other. */
module Orchestrator {
  import opened Nodes
  import opened Sorting
  import opened Merging
  import opened Partitioning

  /** The input size at or below which the parallel path is not taken. */
  const SmallInput := 1000

  /** The left fold `result := cs[0]; result := merge(result, cs[i])` for `i = 1, 2, ...`. */
  function MergeAll(cs: seq<seq<Node>>): seq<Node>
    requires |cs| >= 1
  {
    if |cs| == 1 then cs[0] else Merged(MergeAll(cs[..|cs| - 1]), cs[|cs| - 1])
  }

  /** The fold keeps every record of every chunk. */
  lemma {:induction false} MergeAllPermutes(cs: seq<seq<Node>>)
    requires |cs| >= 1
    ensures multiset(MergeAll(cs)) == multiset(Flatten(cs))
  {
    if |cs| == 1 {
      assert cs[..0] == [];
      assert Flatten(cs) == cs[0];
    } else {
      MergeAllPermutes(cs[..|cs| - 1]);
      MergedPermutes(MergeAll(cs[..|cs| - 1]), cs[|cs| - 1]);
    }
  }

  /** The fold of sorted chunks is sorted. */
  lemma {:induction false} MergeAllSorted(cs: seq<seq<Node>>)
    requires |cs| >= 1
    requires forall k :: 0 <= k < |cs| ==> Sorted(cs[k])
    ensures Sorted(MergeAll(cs))
  {
    if |cs| > 1 {
      MergeAllSorted(cs[..|cs| - 1]);
      MergedSorted(MergeAll(cs[..|cs| - 1]), cs[|cs| - 1]);
    }
  }

  /** The chunks of `s` after each has been sorted by its worker. */
  function SortedChunks(s: seq<Node>, w: int): (cs: seq<seq<Node>>)
    requires w >= 1
    ensures |cs| == w
    ensures forall i :: 0 <= i < w ==> cs[i] == Sort(Chunk(s, w, i))
  {
    seq(w, i requires 0 <= i < w => Sort(Chunk(s, w, i)))
  }

  /** Concatenations of chunk-wise permutations are permutations of each other. */
  lemma {:induction false} FlattenPermutes(a: seq<seq<Node>>, b: seq<seq<Node>>)
    requires |a| == |b|
    requires forall k :: 0 <= k < |a| ==> multiset(a[k]) == multiset(b[k])
    ensures multiset(Flatten(a)) == multiset(Flatten(b))
  {
    if a != [] {
      FlattenPermutes(a[..|a| - 1], b[..|b| - 1]);
    }
  }

  /** What `multiThreadedTask` returns for input `s` with `w` workers. */
  function ParallelSorted(s: seq<Node>, w: int): seq<Node>
  {
    if |s| <= SmallInput || w <= 1 then Sort(s)
    else MergeAll(SortedChunks(s, w))
  }

  /** The parallel pipeline agrees with the sequential sort on every input and
      every worker count: the fold of the sorted chunks is the sorted input. */
  lemma ParallelSortedIsSort(s: seq<Node>, w: int)
    ensures ParallelSorted(s, w) == Sort(s)
  {
    if !(|s| <= SmallInput || w <= 1) {
      var cs := SortedChunks(s, w);
      forall k | 0 <= k < w ensures Sorted(cs[k]) && multiset(cs[k]) == multiset(Chunks(s, w)[k]) {
        SortIsSorted(Chunk(s, w, k));
        SortPermutes(Chunk(s, w, k));
      }
      MergeAllSorted(cs);
      MergeAllPermutes(cs);
      FlattenPermutes(cs, Chunks(s, w));
      ChunksCoverInput(s, w);
      SortCharacterization(s, MergeAll(cs));
    }
  }

  /** The records currently held by each chunk slice. */
  function Contents(chunks: seq<array<Node>>): (cs: seq<seq<Node>>)
    reads set k | 0 <= k < |chunks| :: chunks[k]
    ensures |cs| == |chunks|
    ensures forall k :: 0 <= k < |chunks| ==> cs[k] == chunks[k][..]
  {
    if chunks == [] then [] else Contents(chunks[..|chunks| - 1]) + [chunks[|chunks| - 1][..]]
  }

  /** The fan-out at the heart of the parallel path: every chunk is sorted in
      place by its own worker, and the caller waits for all of them. */
  method SortChunks(chunks: seq<array<Node>>)
    requires forall k, l :: 0 <= k < l < |chunks| ==> chunks[k] != chunks[l]
    modifies set k | 0 <= k < |chunks| :: chunks[k]
    ensures forall k :: 0 <= k < |chunks| ==> chunks[k][..] == Sort(old(chunks[k][..]))
  {
    var i := 0;
    while i < |chunks|
      invariant 0 <= i <= |chunks|
      invariant forall k :: 0 <= k < i ==> chunks[k][..] == Sort(old(chunks[k][..]))
      invariant forall k :: i <= k < |chunks| ==> chunks[k][..] == old(chunks[k][..])
    {
      SortNodes(chunks[i]);
      i := i + 1;
    }
  }

  /** The fold after the barrier: `result := chunks[0]`, then
      `result := merge(result, chunks[i])` for every further chunk. */
  method MergeChunks(chunks: seq<seq<Node>>) returns (result: seq<Node>)
    requires |chunks| >= 1
    ensures result == MergeAll(chunks)
    ensures multiset(result) == multiset(Flatten(chunks))
    ensures (forall k :: 0 <= k < |chunks| ==> Sorted(chunks[k])) ==> Sorted(result)
  {
    result := chunks[0];
    assert chunks[..1] == [chunks[0]];
    var i := 1;
    while i < |chunks|
      invariant 1 <= i <= |chunks|
      invariant result == MergeAll(chunks[..i])
    {
      assert chunks[..i + 1][..i] == chunks[..i];
      result := Merge(result, chunks[i]);
      i := i + 1;
    }
    assert chunks[..|chunks|] == chunks;
    MergeAllPermutes(chunks);
    if forall k :: 0 <= k < |chunks| ==> Sorted(chunks[k]) {
      MergeAllSorted(chunks);
    }
  }

  /** The parallel path of `multiThreadedTask`: partition the copy, sort the
      chunks, wait, and fold them with `merge`. */
  method PartitionSortMerge(nodesCopy: array<Node>, numWorkers: int) returns (result: seq<Node>)
    requires numWorkers >= 1
    ensures result == MergeAll(SortedChunks(nodesCopy[..], numWorkers))
  {
    ghost var s := nodesCopy[..];
    var chunks := SplitIntoChunks(nodesCopy, numWorkers);
    SortChunks(chunks);
    ghost var expected := SortedChunks(s, numWorkers);
    var sortedChunks := Contents(chunks);
    assert sortedChunks == expected by {
      forall k | 0 <= k < numWorkers ensures sortedChunks[k] == expected[k] {
        assert sortedChunks[k] == chunks[k][..];
      }
    }
    result := MergeChunks(sortedChunks);
  }

  /** `multiThreadedTask(nodes)` with the worker count `runtime.NumCPU()` as a
      parameter. Works on a copy; the caller's slice is only read. */
  method MultiThreadedTask(nodes: array<Node>, numWorkers: int) returns (result: seq<Node>)
    ensures result == ParallelSorted(nodes[..], numWorkers)
    ensures result == Sort(nodes[..])
    ensures Sorted(result) && multiset(result) == multiset(nodes[..])
  {
    var nodesCopy := CopyOf(nodes, 0, nodes.Length);
    assert nodesCopy[..] == nodes[..];
    ParallelSortedIsSort(nodes[..], numWorkers);
    SortIsSorted(nodes[..]);
    SortPermutes(nodes[..]);

    if nodesCopy.Length <= SmallInput || numWorkers <= 1 {
      SortNodes(nodesCopy);
      result := nodesCopy[..];
    } else {
      result := PartitionSortMerge(nodesCopy, numWorkers);
    }
  }
}
