/** The result check of `comparePerformance`: the single-threaded and the
    multi-threaded results are scanned index by index for the first record whose
    `data` or `id` differ. Generating the records and printing the verdict are
    not part of the model. */
module Equivalence {
  import opened Nodes
  import opened Sorting
  import opened Orchestrator

  /** What the scan reports. `NoVerdict` stands for the case where the two
      lengths differ: the source then compares nothing and reports nothing. */
  datatype Comparison =
    | NoVerdict
    | Match
    | DifferAt(index: nat, single: Node, multi: Node)

  /** The scan: only when the lengths agree, find the smallest index where
      `data` or `id` differ (stopping there), or report a match. */
  method CompareResults(single: seq<Node>, multi: seq<Node>) returns (c: Comparison)
    ensures |single| != |multi| <==> c == NoVerdict
    ensures c == Match <==> |single| == |multi| && single == multi
    ensures c.DifferAt? ==>
      && |single| == |multi|
      && c.index < |single|
      && c.single == single[c.index] && c.multi == multi[c.index]
      && (single[c.index].data != multi[c.index].data || single[c.index].id != multi[c.index].id)
      && forall k :: 0 <= k < c.index ==> single[k] == multi[k]
  {
    c := NoVerdict;
    if |single| == |multi| {
      var correct := true;
      var firstDifferentIndex := 0;
      var i := 0;
      while i < |single|
        invariant 0 <= i <= |single|
        invariant correct
        invariant forall k :: 0 <= k < i ==> single[k] == multi[k]
      {
        if single[i].data != multi[i].data || single[i].id != multi[i].id {
          correct := false;
          firstDifferentIndex := i;
          break;
        }
        i := i + 1;
      }
      if correct {
        c := Match;
      } else {
        c := DifferAt(firstDifferentIndex, single[firstDifferentIndex], multi[firstDifferentIndex]);
      }
    }
  }

  /** `comparePerformance` on a given input and worker count: sort it both
      ways and compare. The verdict is always a match. */
  method ComparePerformance(originalNodes: array<Node>, numWorkers: int) returns (c: Comparison)
    ensures c == Match
  {
    var singleThreadedResult := SingleThreadedTask(originalNodes);
    var multiThreadedResult := MultiThreadedTask(originalNodes, numWorkers);
    c := CompareResults(singleThreadedResult, multiThreadedResult);
  }
}
