/** Records, the (data, id) order every sort of the pipeline uses, and the
    copy of a slice range into a freshly allocated slice. */
module Nodes {

  /** A record: its value and the identifier that breaks ties between equal values.
      The `next`/`prev` pointers of the Go struct are never used by the sort and are
      not part of the model. */
  datatype Node = Node(data: int, id: int)

  /** The comparator of `sortNodes`: lower `data` first; on equal `data`, lower `id` first. */
  predicate Less(a: Node, b: Node) {
    if a.data != b.data then a.data < b.data else a.id < b.id
  }

  predicate LessOrEqual(a: Node, b: Node) {
    Less(a, b) || a == b
  }

  /** Non-decreasing under the (data, id) order. */
  predicate Sorted(s: seq<Node>) {
    forall i, j :: 0 <= i < j < |s| ==> LessOrEqual(s[i], s[j])
  }

  /** `Less` is a strict total order on records, and `LessOrEqual` is its reflexive
      closure, i.e. "not after". */
  lemma LessIsStrictTotalOrder(a: Node, b: Node, c: Node)
    ensures !Less(a, a)
    ensures Less(a, b) ==> !Less(b, a)
    ensures Less(a, b) && Less(b, c) ==> Less(a, c)
    ensures a != b ==> Less(a, b) || Less(b, a)
    ensures LessOrEqual(a, b) <==> !Less(b, a)
    ensures Less(a, b) <==> a.data < b.data || (a.data == b.data && a.id < b.id)
  {
  }

  /** A sorted sequence with a record in front stays sorted when that record
      comes no later than any element. */
  lemma SortedCons(h: Node, t: seq<Node>)
    requires Sorted(t)
    requires forall y :: y in t ==> LessOrEqual(h, y)
    ensures Sorted([h] + t)
  {
    var s := [h] + t;
    forall i, j | 0 <= i < j < |s| ensures LessOrEqual(s[i], s[j]) {
      if i == 0 {
        assert s[j] == t[j - 1];
      } else {
        assert s[i] == t[i - 1] && s[j] == t[j - 1];
      }
    }
  }

  /** A sorted sequence with a record appended stays sorted when no element
      comes after that record. */
  lemma SortedSnoc(t: seq<Node>, last: Node)
    requires Sorted(t)
    requires forall y :: y in t ==> LessOrEqual(y, last)
    ensures Sorted(t + [last])
  {
    var s := t + [last];
    forall i, j | 0 <= i < j < |s| ensures LessOrEqual(s[i], s[j]) {
      if j == |s| - 1 {
        assert s[i] == t[i];
      } else {
        assert s[i] == t[i] && s[j] == t[j];
      }
    }
  }

  /** Dropping the first record of a sorted sequence leaves it sorted. */
  lemma SortedTail(s: seq<Node>)
    requires Sorted(s) && s != []
    ensures Sorted(s[1..])
  {
    forall p, q | 0 <= p < q < |s| - 1 ensures LessOrEqual(s[1..][p], s[1..][q]) {
      assert s[1..][p] == s[p + 1] && s[1..][q] == s[q + 1];
    }
  }

  /** `make([]Node, hi-lo)` followed by `copy(dst, src[lo:hi])`: a fresh slice
      holding exactly the records of the range. */
  method CopyOf(src: array<Node>, lo: int, hi: int) returns (dst: array<Node>)
    requires 0 <= lo <= hi <= src.Length
    ensures fresh(dst)
    ensures dst[..] == src[lo..hi]
  {
    dst := new Node[hi - lo];
    var k := 0;
    while k < hi - lo
      invariant 0 <= k <= hi - lo
      invariant dst[..k] == src[lo..lo + k]
    {
      dst[k] := src[lo + k];
      k := k + 1;
    }
  }
}
