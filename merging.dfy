/** `merge`: the two-pointer merge of two sorted slices. */
module Merging {
  import opened Nodes

  /** The merge, stated recursively: emit the left head when it is `Less`
      than the right head, otherwise the right head; once one side is empty
      the other side follows unchanged. */
  function Merged(left: seq<Node>, right: seq<Node>): seq<Node>
    decreases |left| + |right|
  {
    if left == [] then right
    else if right == [] then left
    else if Less(left[0], right[0]) then [left[0]] + Merged(left[1..], right)
    else [right[0]] + Merged(left, right[1..])
  }

  /** A merge is as long as both sides together. */
  lemma {:induction false} MergedLength(left: seq<Node>, right: seq<Node>)
    ensures |Merged(left, right)| == |left| + |right|
    decreases |left| + |right|
  {
    if left != [] && right != [] {
      if Less(left[0], right[0]) {
        MergedLength(left[1..], right);
      } else {
        MergedLength(left, right[1..]);
      }
    }
  }

  /** Putting the same record in front of two sequences with matching records
      keeps them matching. */
  lemma ConsPermutes(h: Node, m: seq<Node>, t: seq<Node>, other: seq<Node>)
    requires multiset(m) == multiset(t) + multiset(other)
    ensures multiset([h] + m) == multiset([h] + t) + multiset(other)
  {
  }

  /** Merging keeps every record of both sides, duplicates included. */
  lemma {:induction false} MergedPermutes(left: seq<Node>, right: seq<Node>)
    ensures multiset(Merged(left, right)) == multiset(left) + multiset(right)
    decreases |left| + |right|
  {
    if left != [] && right != [] {
      if Less(left[0], right[0]) {
        MergedPermutes(left[1..], right);
        ConsPermutes(left[0], Merged(left[1..], right), left[1..], right);
        assert left == [left[0]] + left[1..];
      } else {
        MergedPermutes(left, right[1..]);
        ConsPermutes(right[0], Merged(left, right[1..]), right[1..], left);
        assert right == [right[0]] + right[1..];
      }
    }
  }

  /** Merging two sorted sequences yields a sorted sequence. */
  lemma {:induction false} MergedSorted(left: seq<Node>, right: seq<Node>)
    requires Sorted(left) && Sorted(right)
    ensures Sorted(Merged(left, right))
    decreases |left| + |right|
  {
    if left != [] && right != [] {
      if Less(left[0], right[0]) {
        var t := Merged(left[1..], right);
        MergedSorted(left[1..], right);
        MergedPermutes(left[1..], right);
        forall y | y in t ensures LessOrEqual(left[0], y) {
          assert y in multiset(left[1..]) + multiset(right);
          if y in multiset(left[1..]) {
            var k :| 0 <= k < |left[1..]| && left[1..][k] == y;
            assert left[k + 1] == y;
          } else {
            var k :| 0 <= k < |right| && right[k] == y;
            assert LessOrEqual(right[0], y);
          }
        }
        SortedCons(left[0], t);
      } else {
        var t := Merged(left, right[1..]);
        MergedSorted(left, right[1..]);
        MergedPermutes(left, right[1..]);
        forall y | y in t ensures LessOrEqual(right[0], y) {
          assert y in multiset(left) + multiset(right[1..]);
          if y in multiset(right[1..]) {
            var k :| 0 <= k < |right[1..]| && right[1..][k] == y;
            assert right[k + 1] == y;
          } else {
            var k :| 0 <= k < |left| && left[k] == y;
            assert LessOrEqual(left[0], y);
          }
        }
        SortedCons(right[0], t);
      }
    }
  }

  /** Merging with an empty side returns the other side unchanged. */
  lemma MergedWithEmpty(left: seq<Node>, right: seq<Node>)
    ensures left == [] ==> Merged(left, right) == right
    ensures right == [] ==> Merged(left, right) == left
  {
  }

  /** `Merged` on the suffixes `left[i..]` and `right[j..]`, unfolded once. */
  lemma MergedStep(left: seq<Node>, right: seq<Node>, i: int, j: int)
    requires 0 <= i <= |left| && 0 <= j <= |right|
    ensures i == |left| || j == |right| ==> Merged(left[i..], right[j..]) == left[i..] + right[j..]
    ensures i < |left| && j < |right| && Less(left[i], right[j]) ==>
      Merged(left[i..], right[j..]) == [left[i]] + Merged(left[i + 1..], right[j..])
    ensures i < |left| && j < |right| && !Less(left[i], right[j]) ==>
      Merged(left[i..], right[j..]) == [right[j]] + Merged(left[i..], right[j + 1..])
  {
    if i < |left| && j < |right| {
      assert left[i..][1..] == left[i + 1..] && right[j..][1..] == right[j + 1..];
    } else if i == |left| {
      assert left[i..] == [];
    } else {
      assert right[j..] == [];
    }
  }

  /** One iteration of the main loop of `merge` keeps `Merge`'s loop invariant:
      the emitted records followed by the merge of what is left are the whole merge. */
  lemma MergeLoopStep(left: seq<Node>, right: seq<Node>, i: int, j: int, result: seq<Node>)
    requires 0 <= i < |left| && 0 <= j < |right|
    requires result + Merged(left[i..], right[j..]) == Merged(left, right)
    ensures Less(left[i], right[j]) ==>
      (result + [left[i]]) + Merged(left[i + 1..], right[j..]) == Merged(left, right)
    ensures !Less(left[i], right[j]) ==>
      (result + [right[j]]) + Merged(left[i..], right[j + 1..]) == Merged(left, right)
  {
    MergedStep(left, right, i, j);
    if Less(left[i], right[j]) {
      var rest := Merged(left[i + 1..], right[j..]);
      assert result + ([left[i]] + rest) == (result + [left[i]]) + rest;
    } else {
      var rest := Merged(left[i..], right[j + 1..]);
      assert result + ([right[j]] + rest) == (result + [right[j]]) + rest;
    }
  }

  /** When the main loop of `merge` stops, appending both leftovers verbatim
      completes the merge. */
  lemma MergeLoopExit(left: seq<Node>, right: seq<Node>, i: int, j: int, result: seq<Node>)
    requires 0 <= i <= |left| && 0 <= j <= |right|
    requires i == |left| || j == |right|
    requires result + Merged(left[i..], right[j..]) == Merged(left, right)
    ensures result + left[i..] + right[j..] == Merged(left, right)
  {
    var rest := Merged(left[i..], right[j..]);
    assert rest == left[i..] + right[j..] by {
      MergedStep(left, right, i, j);
    }
    assert result + rest == result + left[i..] + right[j..];
  }

  /** The invariant of the main loop of `merge` on sorted inputs: the records
      emitted so far are sorted, and none comes after a pending head. */
  predicate EmittedInOrder(left: seq<Node>, right: seq<Node>, i: int, j: int, result: seq<Node>)
  {
    && Sorted(result)
    && (forall k :: 0 <= k < |result| && 0 <= i < |left| ==> LessOrEqual(result[k], left[i]))
    && (forall k :: 0 <= k < |result| && 0 <= j < |right| ==> LessOrEqual(result[k], right[j]))
  }

  /** Every state of the main loop of `merge` on sorted inputs (that is, every
      `result`, `i`, `j` meeting the loop invariant of `Merge`) satisfies
      `EmittedInOrder`. */
  lemma MergeLoopEmitsInOrder(left: seq<Node>, right: seq<Node>, i: int, j: int, result: seq<Node>)
    requires Sorted(left) && Sorted(right)
    requires 0 <= i <= |left| && 0 <= j <= |right|
    requires result + Merged(left[i..], right[j..]) == Merged(left, right)
    ensures EmittedInOrder(left, right, i, j, result)
  {
    var whole, rest := Merged(left, right), Merged(left[i..], right[j..]);
    MergedSorted(left, right);
    MergedPermutes(left[i..], right[j..]);
    assert Sorted(result) by {
      forall a, b | 0 <= a < b < |result| ensures LessOrEqual(result[a], result[b]) {
        assert result[a] == whole[a] && result[b] == whole[b];
      }
    }
    if i < |left| {
      assert left[i] in multiset(rest) by {
        assert left[i..][0] == left[i];
      }
      var p :| 0 <= p < |rest| && rest[p] == left[i];
      assert whole[|result| + p] == left[i];
      forall k | 0 <= k < |result| ensures LessOrEqual(result[k], left[i]) {
        assert whole[k] == result[k];
      }
    }
    if j < |right| {
      assert right[j] in multiset(rest) by {
        assert right[j..][0] == right[j];
      }
      var p :| 0 <= p < |rest| && rest[p] == right[j];
      assert whole[|result| + p] == right[j];
      forall k | 0 <= k < |result| ensures LessOrEqual(result[k], right[j]) {
        assert whole[k] == result[k];
      }
    }
  }

  /** What `Merge` promises about `Merged`, gathered in one place. */
  lemma MergedProperties(left: seq<Node>, right: seq<Node>)
    ensures |Merged(left, right)| == |left| + |right|
    ensures multiset(Merged(left, right)) == multiset(left) + multiset(right)
    ensures Sorted(left) && Sorted(right) ==> Sorted(Merged(left, right))
    ensures left == [] ==> Merged(left, right) == right
    ensures right == [] ==> Merged(left, right) == left
  {
    MergedWithEmpty(left, right);
    MergedLength(left, right);
    MergedPermutes(left, right);
    if Sorted(left) && Sorted(right) {
      MergedSorted(left, right);
    }
  }

  /** `merge(left, right)`: while both sides have records, append the smaller
      head (the left one only when it is strictly before the right one); then
      append what is left of each side. */
  method Merge(left: seq<Node>, right: seq<Node>) returns (result: seq<Node>)
    ensures result == Merged(left, right)
    ensures |result| == |left| + |right|
    ensures multiset(result) == multiset(left) + multiset(right)
    ensures Sorted(left) && Sorted(right) ==> Sorted(result)
    ensures left == [] ==> result == right
    ensures right == [] ==> result == left
  {
    result := [];
    var i, j := 0, 0;
    while i < |left| && j < |right|
      invariant 0 <= i <= |left| && 0 <= j <= |right|
      invariant result + Merged(left[i..], right[j..]) == Merged(left, right)
    {
      MergeLoopStep(left, right, i, j, result);
      if left[i].data < right[j].data || (left[i].data == right[j].data && left[i].id < right[j].id) {
        result := result + [left[i]];
        i := i + 1;
      } else {
        result := result + [right[j]];
        j := j + 1;
      }
    }
    MergeLoopExit(left, right, i, j, result);
    result := result + left[i..];
    result := result + right[j..];
    MergedProperties(left, right);
  }
}
