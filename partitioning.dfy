/** The partition step of `multiThreadedTask`: `numWorkers` contiguous,
    independently copied chunks of `chunkSize = n / numWorkers` records each,
    the last one running to the end. */
module Partitioning {
  import opened Nodes

  /** Multiplying by a non-negative factor keeps `<=`. */
  lemma {:induction false} MulMonotone(a: int, b: int, c: nat)
    requires a <= b
    ensures a * c <= b * c
  {
    if c > 0 {
      MulMonotone(a, b, c - 1);
      assert a * c == a * (c - 1) + a && b * c == b * (c - 1) + b;
    }
  }

  /** Chunk boundaries stay inside the input and do not go backwards. */
  lemma ChunkBounds(n: nat, w: int, i: int)
    requires w >= 1 && 0 <= i < w
    ensures 0 <= i * (n / w) <= (i + 1) * (n / w) <= n
    ensures (w - 1) * (n / w) <= n
  {
    var size := n / w;
    assert w * size <= n by {
      assert w * size + n % w == n;
    }
    MulMonotone(0, i, size);
    MulMonotone(i, i + 1, size);
    MulMonotone(i + 1, w, size);
    MulMonotone(w - 1, w, size);
  }

  /** Chunk `i` of `s` split among `w` workers: `s[i*size .. (i+1)*size]`,
      except that the last chunk runs to the end of `s`. */
  function Chunk(s: seq<Node>, w: int, i: int): (c: seq<Node>)
    requires w >= 1 && 0 <= i < w
    ensures i < w - 1 ==> |c| == |s| / w
    ensures i == w - 1 ==> |c| == |s| - (w - 1) * (|s| / w)
    ensures i == w - 1 ==> |s| / w <= |c| < |s| / w + w
  {
    ChunkBounds(|s|, w, i);
    var size := |s| / w;
    assert (i + 1) * size == i * size + size;
    assert |s| - (w - 1) * size == size + |s| % w by {
      assert w * size + |s| % w == |s|;
      assert (w - 1) * size == w * size - size;
    }
    s[i * size .. if i == w - 1 then |s| else (i + 1) * size]
  }

  /** All `w` chunks, in order. */
  function Chunks(s: seq<Node>, w: int): (cs: seq<seq<Node>>)
    requires w >= 1
    ensures |cs| == w
    ensures forall i :: 0 <= i < w ==> cs[i] == Chunk(s, w, i)
  {
    seq(w, i requires 0 <= i < w => Chunk(s, w, i))
  }

  /** The concatenation of a sequence of chunks, in order. */
  function Flatten(cs: seq<seq<Node>>): seq<Node>
  {
    if cs == [] then [] else Flatten(cs[..|cs| - 1]) + cs[|cs| - 1]
  }

  /** The sum of the chunk lengths. */
  function TotalLength(cs: seq<seq<Node>>): nat
  {
    if cs == [] then 0 else TotalLength(cs[..|cs| - 1]) + |cs[|cs| - 1]|
  }

  lemma {:induction false} FlattenLength(cs: seq<seq<Node>>)
    ensures |Flatten(cs)| == TotalLength(cs)
  {
    if cs != [] {
      FlattenLength(cs[..|cs| - 1]);
    }
  }

  /** The first `k` chunks (`k < w`) together are the first `k * size` records. */
  lemma {:induction false} ChunksPrefix(s: seq<Node>, w: int, k: int)
    requires w >= 1 && 0 <= k < w
    ensures Flatten(Chunks(s, w)[..k]) == s[..k * (|s| / w)]
  {
    var size := |s| / w;
    if k == 0 {
      assert Chunks(s, w)[..0] == [];
    } else {
      ChunksPrefix(s, w, k - 1);
      ChunkBounds(|s|, w, k - 1);
      var cs := Chunks(s, w)[..k];
      assert cs[..k - 1] == Chunks(s, w)[..k - 1];
      assert cs[k - 1] == s[(k - 1) * size .. k * size];
      assert s[..(k - 1) * size] + s[(k - 1) * size .. k * size] == s[..k * size];
    }
  }

  /** Concatenating the chunks in order gives back the input, so their
      lengths sum to its length. */
  lemma ChunksCoverInput(s: seq<Node>, w: int)
    requires w >= 1
    ensures Flatten(Chunks(s, w)) == s
    ensures TotalLength(Chunks(s, w)) == |s|
  {
    var cs := Chunks(s, w);
    var size := |s| / w;
    ChunksPrefix(s, w, w - 1);
    ChunkBounds(|s|, w, w - 1);
    assert cs[..w] == cs;
    assert cs[w - 1] == s[(w - 1) * size..];
    assert Flatten(cs) == s[..(w - 1) * size] + s[(w - 1) * size..];
    assert s[..(w - 1) * size] + s[(w - 1) * size..] == s;
    FlattenLength(cs);
  }

  /** With more workers than records, `chunkSize` is 0: every chunk but the
      last is empty and the last one holds the whole input. */
  lemma MoreWorkersThanRecords(s: seq<Node>, w: int)
    requires w > |s|
    ensures forall i :: 0 <= i < w - 1 ==> Chunk(s, w, i) == []
    ensures Chunk(s, w, w - 1) == s
  {
    assert |s| / w == 0;
  }

  /** Ten records over four workers: chunks of 2, 2, 2 and 4 records. */
  lemma TenRecordsFourWorkers(s: seq<Node>)
    requires |s| == 10
    ensures |Chunk(s, 4, 0)| == 2 && |Chunk(s, 4, 1)| == 2 && |Chunk(s, 4, 2)| == 2
    ensures |Chunk(s, 4, 3)| == 4
    ensures Flatten(Chunks(s, 4)) == s
  {
    ChunksCoverInput(s, 4);
  }

  /** The loop at the start of the parallel path: for each worker, a fresh
      slice holding a copy of its chunk of `nodesCopy`. */
  method SplitIntoChunks(nodesCopy: array<Node>, numWorkers: int) returns (chunks: seq<array<Node>>)
    requires numWorkers >= 1
    ensures |chunks| == numWorkers
    ensures forall k :: 0 <= k < numWorkers ==> fresh(chunks[k])
    ensures forall k :: 0 <= k < numWorkers ==> chunks[k][..] == Chunk(nodesCopy[..], numWorkers, k)
    ensures forall k, l :: 0 <= k < l < numWorkers ==> chunks[k] != chunks[l]
  {
    var chunkSize := nodesCopy.Length / numWorkers;
    chunks := [];
    var i := 0;
    while i < numWorkers
      invariant 0 <= i <= numWorkers && |chunks| == i
      invariant forall k :: 0 <= k < i ==> fresh(chunks[k])
      invariant forall k :: 0 <= k < i ==> chunks[k][..] == Chunk(nodesCopy[..], numWorkers, k)
      invariant forall k, l :: 0 <= k < l < i ==> chunks[k] != chunks[l]
    {
      ChunkBounds(nodesCopy.Length, numWorkers, i);
      var start := i * chunkSize;
      var end := start + chunkSize;
      if i == numWorkers - 1 {
        end := nodesCopy.Length;
      }
      var chunk := CopyOf(nodesCopy, start, end);
      assert chunk[..] == Chunk(nodesCopy[..], numWorkers, i);
      chunks := chunks + [chunk];
      i := i + 1;
    }
  }
}
