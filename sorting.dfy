/** The sequential baseline: `sortNodes` and `singleThreadedTask`.

    The order of `sort.Slice` is total on (data, id), so its result is the one
    sorted permutation of its input; `Sort` below names that permutation
    (computed here by insertion), and `SortNodes` reaches it in place. */
module Sorting {
  import opened Nodes

  /** Places `x` into `s`, scanning from the back: `x` moves in front of every
      trailing element it is `Less` than. */
  function Insert(s: seq<Node>, x: Node): seq<Node>
  {
    if s == [] || !Less(x, s[|s| - 1]) then s + [x]
    else Insert(s[..|s| - 1], x) + [s[|s| - 1]]
  }

  /** The records of `s` in (data, id) order. */
  function Sort(s: seq<Node>): seq<Node>
  {
    if s == [] then []
    else Insert(Sort(s[..|s| - 1]), s[|s| - 1])
  }

  /** Inserting adds exactly one record and loses none. */
  lemma {:induction false} InsertPermutes(s: seq<Node>, x: Node)
    ensures multiset(Insert(s, x)) == multiset(s) + multiset{x}
    ensures |Insert(s, x)| == |s| + 1
  {
    if s != [] && Less(x, s[|s| - 1]) {
      InsertPermutes(s[..|s| - 1], x);
      assert s == s[..|s| - 1] + [s[|s| - 1]];
    }
  }

  /** `Sort` only reorders: it keeps every record with its multiplicity. */
  lemma {:induction false} SortPermutes(s: seq<Node>)
    ensures multiset(Sort(s)) == multiset(s)
    ensures |Sort(s)| == |s|
  {
    if s != [] {
      SortPermutes(s[..|s| - 1]);
      InsertPermutes(Sort(s[..|s| - 1]), s[|s| - 1]);
      assert s == s[..|s| - 1] + [s[|s| - 1]];
    }
  }

  /** Inserting into a sorted sequence keeps it sorted. */
  lemma {:induction false} InsertSorted(s: seq<Node>, x: Node)
    requires Sorted(s)
    ensures Sorted(Insert(s, x))
  {
    if s == [] || !Less(x, s[|s| - 1]) {
    } else {
      var init, last := s[..|s| - 1], s[|s| - 1];
      InsertSorted(init, x);
      InsertPermutes(init, x);
      var t := Insert(init, x);
      forall y | y in t ensures LessOrEqual(y, last) {
        assert y in multiset(t);
        if y != x {
          assert y in multiset(init);
          var k :| 0 <= k < |init| && init[k] == y;
          assert s[k] == y;
        }
      }
      SortedSnoc(t, last);
    }
  }

  /** The result of `Sort` is sorted. */
  lemma {:induction false} SortIsSorted(s: seq<Node>)
    ensures Sorted(Sort(s))
  {
    if s != [] {
      SortIsSorted(s[..|s| - 1]);
      InsertSorted(Sort(s[..|s| - 1]), s[|s| - 1]);
    }
  }

  /** Two sorted arrangements of the same records start with the same record. */
  lemma SortedPermutationsShareHead(a: seq<Node>, b: seq<Node>)
    requires Sorted(a) && Sorted(b)
    requires multiset(a) == multiset(b)
    requires a != []
    ensures b != [] && a[0] == b[0]
  {
    assert a[0] in multiset(b) && b[0] in multiset(a);
    var k :| 0 <= k < |b| && b[k] == a[0];
    var m :| 0 <= m < |a| && a[m] == b[0];
    assert LessOrEqual(b[0], a[0]) && LessOrEqual(a[0], b[0]);
  }

  /** Two arrangements of the same records that start with the same record
      hold the same records after it. */
  lemma SameHeadTailsPermute(a: seq<Node>, b: seq<Node>)
    requires a != [] && b != [] && a[0] == b[0]
    requires multiset(a) == multiset(b)
    ensures multiset(a[1..]) == multiset(b[1..])
  {
    var ma, mb := multiset(a[1..]), multiset(b[1..]);
    assert multiset(a) == multiset{a[0]} + ma by {
      assert a == [a[0]] + a[1..];
    }
    assert multiset(b) == multiset{a[0]} + mb by {
      assert b == [b[0]] + b[1..];
    }
    forall y ensures ma[y] == mb[y] {
      assert (multiset{a[0]} + ma)[y] == (multiset{a[0]} + mb)[y];
    }
  }

  /** Under a total order there is only one sorted arrangement of a multiset. */
  lemma {:induction false} SortedPermutationIsUnique(a: seq<Node>, b: seq<Node>)
    requires Sorted(a) && Sorted(b)
    requires multiset(a) == multiset(b)
    ensures a == b
  {
    if a == [] {
      assert |b| == |multiset(b)| == 0;
    } else {
      SortedPermutationsShareHead(a, b);
      var at, bt := a[1..], b[1..];
      assert a == [a[0]] + at && b == [b[0]] + bt;
      SameHeadTailsPermute(a, b);
      SortedTail(a);
      SortedTail(b);
      SortedPermutationIsUnique(at, bt);
    }
  }

  /** `Sort(s)` is exactly the sorted permutations of `s`: a sequence equals
      `Sort(s)` if and only if it is sorted and holds the same records. */
  lemma SortCharacterization(s: seq<Node>, r: seq<Node>)
    ensures r == Sort(s) <==> Sorted(r) && multiset(r) == multiset(s)
  {
    SortIsSorted(s);
    SortPermutes(s);
    if Sorted(r) && multiset(r) == multiset(s) {
      SortedPermutationIsUnique(r, Sort(s));
    }
  }

  /** Worked example: equal values are ordered by id. */
  lemma SortExample()
    ensures Sort([Node(5, 1), Node(3, 2), Node(5, 3)]) == [Node(3, 2), Node(5, 1), Node(5, 3)]
    ensures Sort([]) == []
  {
    var a, b, c := Node(5, 1), Node(3, 2), Node(5, 3);
    assert [a, b, c][..2] == [a, b] && [a, b][..1] == [a] && [a][..0] == [];
    assert Sort([a]) == [a];
    assert Insert([a], b) == [b, a] by {
      assert [a][..0] == [];
    }
    assert Sort([a, b]) == [b, a];
    assert Insert([b, a], c) == [b, a, c];
  }

  /** `x` moves in front of a last element that comes after it. */
  lemma InsertPastLast(p: seq<Node>, y: Node, x: Node)
    requires Less(x, y)
    ensures Insert(p + [y], x) == Insert(p, x) + [y]
  {
    assert (p + [y])[..|p|] == p;
  }

  /** Swapping `x` at `j` with the record before it, which comes after `x`,
      keeps the insertion pass's invariant one position further left. */
  lemma SwapStep(before: seq<Node>, after: seq<Node>, i: int, j: int, done: seq<Node>, x: Node)
    requires 0 < j <= i < |before|
    requires before[j] == x && Less(x, before[j - 1])
    requires Insert(done, x) == Insert(before[..j], x) + before[j + 1..i + 1]
    requires after == before[j - 1 := x][j := before[j - 1]]
    ensures after[j - 1] == x
    ensures Insert(done, x) == Insert(after[..j - 1], x) + after[j..i + 1]
    ensures after[i + 1..] == before[i + 1..]
  {
    var y, p, rest := before[j - 1], before[..j - 1], before[j + 1..i + 1];
    assert before[..j] == p + [y];
    InsertPastLast(p, y, x);
    assert after[..j - 1] == p;
    assert after[j..i + 1] == [y] + rest;
    assert Insert(p, x) + [y] + rest == Insert(p, x) + ([y] + rest);
  }

  /** One pass of the insertion sort: moves `a[i]` back over the records of
      `a[..i]` that come after it, so that `a[..i+1]` becomes `Insert(a[..i], a[i])`. */
  method InsertInPlace(a: array<Node>, i: int)
    requires 0 <= i < a.Length
    modifies a
    ensures a[..i + 1] == Insert(old(a[..i]), old(a[i]))
    ensures a[i + 1..] == old(a[i + 1..])
  {
    ghost var done, x := a[..i], a[i];
    var j := i;
    while j > 0 && Less(a[j], a[j - 1])
      invariant 0 <= j <= i
      invariant a[j] == x
      invariant Insert(done, x) == Insert(a[..j], x) + a[j + 1..i + 1]
      invariant a[i + 1..] == old(a[i + 1..])
    {
      ghost var before := a[..];
      a[j - 1], a[j] := a[j], a[j - 1];
      SwapStep(before, a[..], i, j, done, x);
      j := j - 1;
    }
    ghost var final := a[..];
    assert final[..j] + [x] + final[j + 1..i + 1] == final[..i + 1] by {
      assert final[j..i + 1] == [x] + final[j + 1..i + 1];
    }
  }

  /** `sortNodes`: sorts the slice in place (here by insertion; the order, and
      hence the result, is that of `sort.Slice` with the same comparator). */
  method SortNodes(a: array<Node>)
    modifies a
    ensures a[..] == Sort(old(a[..]))
    ensures Sorted(a[..]) && multiset(a[..]) == multiset(old(a[..]))
  {
    ghost var input := a[..];
    var i := 0;
    while i < a.Length
      invariant 0 <= i <= a.Length
      invariant a[..i] == Sort(input[..i])
      invariant a[i..] == input[i..]
    {
      assert input[..i + 1][..i] == input[..i];
      InsertInPlace(a, i);
      i := i + 1;
    }
    assert a[..] == a[..a.Length];
    assert input == input[..a.Length];
    SortIsSorted(input);
    SortPermutes(input);
  }

  /** `singleThreadedTask`: sorts a copy and returns it; the caller's slice is
      only read (the method has no right to modify it). */
  method SingleThreadedTask(nodes: array<Node>) returns (sorted: seq<Node>)
    ensures sorted == Sort(nodes[..])
    ensures Sorted(sorted) && multiset(sorted) == multiset(nodes[..])
  {
    var nodesCopy := CopyOf(nodes, 0, nodes.Length);
    assert nodesCopy[..] == nodes[..];
    SortNodes(nodesCopy);
    sorted := nodesCopy[..];
  }
}
