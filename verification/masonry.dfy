/**
 * What the two `MasonryPane.layoutChildren` have in common: the scan for the
 * shortest column and the scan for the tallest one, over the per-column
 * running heights.
 */
module Masonry {

  /** Insets of the pane, in whole pixels. */
  datatype Insets = Insets(top: int, right: int, bottom: int, left: int)

  /**
   * Column `c` is the one the scan settles on: no column is shorter, and every
   * column before it is strictly taller (ties go to the lowest index).
   */
  predicate IsShortest(heights: seq<int>, c: int) {
    && 0 <= c < |heights|
    && (forall j :: 0 <= j < |heights| ==> heights[c] <= heights[j])
    && (forall j :: 0 <= j < c ==> heights[c] < heights[j])
  }

  /** There is only one shortest column, so placement is deterministic. */
  lemma ShortestIsUnique(heights: seq<int>, c1: int, c2: int)
    requires IsShortest(heights, c1) && IsShortest(heights, c2)
    ensures c1 == c2
  {
    assert heights[c1] == heights[c2];
  }

  /** The inner loop of `layoutChildren`: a left-to-right scan that moves only on a strictly smaller height. */
  method FindShortestColumn(columnHeights: seq<int>) returns (shortestColumn: nat)
    requires |columnHeights| > 0
    ensures IsShortest(columnHeights, shortestColumn)
  {
    shortestColumn := 0;
    var minHeight := columnHeights[0];
    var i := 1;
    while i < |columnHeights|
      invariant 1 <= i <= |columnHeights|
      invariant shortestColumn < i && minHeight == columnHeights[shortestColumn]
      invariant forall j :: 0 <= j < i ==> minHeight <= columnHeights[j]
      invariant forall j :: 0 <= j < shortestColumn ==> minHeight < columnHeights[j]
    {
      if columnHeights[i] < minHeight {
        minHeight := columnHeights[i];
        shortestColumn := i;
      }
      i := i + 1;
    }
  }

  /** The closing loop: `maxHeight` starts at 0 and takes the maximum with every column. */
  method TallestColumn(columnHeights: seq<int>) returns (maxHeight: int)
    ensures maxHeight >= 0
    ensures forall c :: 0 <= c < |columnHeights| ==> columnHeights[c] <= maxHeight
    ensures maxHeight == 0 || exists c :: 0 <= c < |columnHeights| && columnHeights[c] == maxHeight
  {
    maxHeight := 0;
    var i := 0;
    while i < |columnHeights|
      invariant 0 <= i <= |columnHeights|
      invariant maxHeight >= 0
      invariant forall c :: 0 <= c < i ==> columnHeights[c] <= maxHeight
      invariant maxHeight == 0 || exists c :: 0 <= c < i && columnHeights[c] == maxHeight
    {
      if columnHeights[i] > maxHeight {
        maxHeight := columnHeights[i];
      }
      i := i + 1;
    }
  }
}
