/** Binary search for the point where a signal crosses a threshold. */
module Threshold {

  ghost predicate Sorted(values: seq<nat>) {
    forall i, j :: 0 <= i <= j < |values| ==> values[i] <= values[j]
  }

  /** An edge lies at i: i satisfies the condition and, unless i is 1, its left neighbour does not. */
  ghost predicate IsEdge<T>(data: seq<T>, above: T -> bool, i: nat) {
    1 <= i < |data| && above(data[i]) && (i == 1 || !above(data[i - 1]))
  }

  /** The condition, once it holds, holds for the rest of the data. */
  ghost predicate OneEdge<T>(data: seq<T>, above: T -> bool) {
    forall i, j :: 0 <= i < j < |data| && above(data[i]) ==> above(data[j])
  }

  /** The first index at or after i that satisfies the condition, or the length if there is none. */
  function LinearScan<T>(data: seq<T>, above: T -> bool, i: nat): (r: nat)
    requires i <= |data|
    ensures i <= r <= |data|
    ensures r < |data| ==> above(data[r])
    ensures forall j :: i <= j < r ==> !above(data[j])
    decreases |data| - i
  {
    if i == |data| || above(data[i]) then i else LinearScan(data, above, i + 1)
  }

  /**
   * Halve the range between a low index and a high one until they meet. The element just past the range
   * may be read; `beyond` is what the condition says of it. On a single element that satisfies the
   * condition the search never ends.
   */
  method FindThreshold<T>(data: seq<T>, above: T -> bool, beyond: bool)
    returns (result: bool, edge: nat, readPastEnd: bool)
    requires |data| == 1 ==> !above(data[0])
    ensures result <==> data != []
    ensures !result ==> edge == |data| && !readPastEnd
    ensures readPastEnd ==> !above(data[|data| - 1]) && edge == if beyond then |data| else |data| - 1
    ensures result && !readPastEnd ==> IsEdge(data, above, edge)
    ensures data != [] && above(data[|data| - 1]) ==> !readPastEnd
  {
    var lowerBound, upperBound := 0, |data|;
    var searchIndex := upperBound / 2;
    result, edge, readPastEnd := false, |data|, false;
    while searchIndex < |data|
      invariant 0 <= lowerBound <= upperBound <= |data| && edge == |data| && !result && !readPastEnd
      invariant 0 <= searchIndex && (data != [] ==> lowerBound <= searchIndex < upperBound)
      invariant |data| >= 2 ==> lowerBound < searchIndex
      invariant lowerBound == 0 || !above(data[lowerBound])
      invariant upperBound == |data| || above(data[upperBound])
      decreases upperBound - lowerBound
    {
      if above(data[searchIndex]) {
        upperBound := searchIndex;
      } else {
        lowerBound := searchIndex;
      }
      searchIndex := lowerBound + (upperBound - lowerBound + 1) / 2;
      if lowerBound == upperBound - 1 {
        readPastEnd := upperBound == |data|;
        if (if upperBound < |data| then above(data[upperBound]) else beyond) {
          edge := upperBound;
        } else {
          edge := lowerBound;
        }
        result := true;
        break;
      }
    }
  }

  /**
   * On data with one edge the outcome is a linear scan's from index 1: the element past the end is read
   * exactly when the last element does not satisfy the condition.
   */
  lemma EdgeIsLinearScan<T>(data: seq<T>, above: T -> bool, edge: nat)
    requires |data| >= 2 && OneEdge(data, above)
    ensures IsEdge(data, above, edge) <==> edge == LinearScan(data, above, 1) && above(data[|data| - 1])
  {
  }

  method FindSingleEdge<T>(data: seq<T>, above: T -> bool, beyond: bool) returns (edge: nat, readPastEnd: bool)
    requires |data| >= 2 && OneEdge(data, above)
    ensures readPastEnd <==> !above(data[|data| - 1])
    ensures readPastEnd <==> LinearScan(data, above, 1) == |data|
    ensures edge == if !readPastEnd then LinearScan(data, above, 1) else if beyond then |data| else |data| - 1
  {
    var result;
    result, edge, readPastEnd := FindThreshold(data, above, beyond);
    EdgeIsLinearScan(data, above, edge);
    var last := |data| - 1;
    assert LinearScan(data, above, 1) < last ==> above(data[last]);
  }
}
