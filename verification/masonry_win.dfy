/**
 * `MasonryPane` of the wingallery package: columns 300 pixels wide with no
 * gap, stretched to share the available width exactly, and children of
 * varying preferred height. Column width is a rational number (`real`);
 * heights are whole pixels.
 */
module MasonryWin {
  import opened Masonry
  import Seqs

  const ColumnWidth := 300
  const Gap := 0

  datatype Pane = Pane(width: int, insets: Insets, numColumns: int, prefHeight: int)

  predicate Valid(p: Pane) { p.numColumns >= 1 }

  function AvailableWidth(p: Pane): int {
    p.width - p.insets.left - p.insets.right
  }

  /**
   * `calculateColumns`: for a positive available width, how many whole
   * 300-pixel columns fit, but at least one; otherwise the previous count.
   */
  function CalculateColumns(availableWidth: int, numColumns: int): (r: int)
    ensures availableWidth <= 0 ==> r == numColumns
    ensures availableWidth > 0 ==>
              && r >= 1
              && (r == 1 || r * ColumnWidth <= availableWidth)
              && availableWidth < (r + 1) * ColumnWidth
  {
    if availableWidth > 0 then
      var fit := (availableWidth + Gap) / (ColumnWidth + Gap);
      if fit > 1 then fit else 1
    else
      numColumns
  }

  /** `getActualColumnWidth`: the columns share the available width exactly. */
  function ActualColumnWidth(availableWidth: int, numColumns: int): (w: real)
    requires numColumns >= 1
    ensures w * numColumns as real == availableWidth as real
  {
    var totalGapWidth := (numColumns - 1) * Gap;
    (availableWidth - totalGapWidth) as real / numColumns as real
  }

  /** The height of column `c` once the children with these heights have gone to these columns. */
  function ColumnTotal(heights: seq<int>, columns: seq<int>, c: int): int
    requires |heights| == |columns|
  {
    if heights == [] then 0
    else ColumnTotal(heights[..|heights| - 1], columns[..|columns| - 1], c)
         + (if columns[|columns| - 1] == c then heights[|heights| - 1] else 0)
  }

  /** All `n` column heights after the first children have been placed. */
  function Totals(n: nat, heights: seq<int>, columns: seq<int>): (r: seq<int>)
    requires |heights| == |columns|
    ensures |r| == n
    ensures forall c :: 0 <= c < n ==> r[c] == ColumnTotal(heights, columns, c)
  {
    seq(n, c => ColumnTotal(heights, columns, c))
  }

  datatype Placement = Placement(x: real, y: real, width: real, height: real)

  /**
   * The assignment `layoutChildren` makes, stated apart from its loop: every
   * child placed so far went to the column that was shortest (ties to the
   * lowest index) given the children placed before it.
   */
  ghost predicate IsGreedy(n: nat, heights: seq<int>, columns: seq<int>)
    requires |columns| <= |heights|
  {
    forall i :: 0 <= i < |columns| ==>
      && 0 <= columns[i] < n
      && IsShortest(Totals(n, heights[..i], columns[..i]), columns[i])
  }

  /** Where child `i` goes: its column's left edge, at the height that column had reached. */
  function PlacementOf(left: int, top: int, w: real, heights: seq<int>, columns: seq<int>, i: nat): Placement
    requires i < |columns| <= |heights|
  {
    Placement(left as real + columns[i] as real * w,
              (top + ColumnTotal(heights[..i], columns[..i], columns[i])) as real,
              w, heights[i] as real)
  }

  /** The last child placed raises only its own column, by the child's height. */
  lemma TotalsLast(n: nat, heights: seq<int>, columns: seq<int>)
    requires |heights| == |columns| > 0 && 0 <= columns[|columns| - 1] < n
    ensures var k, c := |columns| - 1, columns[|columns| - 1];
            Totals(n, heights, columns)
            == Totals(n, heights[..k], columns[..k])[c := ColumnTotal(heights[..k], columns[..k], c) + heights[k]]
  {
  }

  /** Placing one more child raises only its own column, by the child's height. */
  lemma TotalsStep(n: nat, heights: seq<int>, columns: seq<int>, c: int)
    requires |columns| < |heights| && 0 <= c < n
    ensures Totals(n, heights[..|columns| + 1], columns + [c])
            == Totals(n, heights[..|columns|], columns)[c := ColumnTotal(heights[..|columns|], columns, c) + heights[|columns|]]
  {
    var k := |columns|;
    TotalsLast(n, heights[..k + 1], columns + [c]);
    Seqs.TakeTake(heights, k, k + 1);
    Seqs.AppendSlices(columns, [c]);
  }

  /** Placing one more child leaves the earlier children's placements alone. */
  lemma PlacementsStep(heights: seq<int>, columns: seq<int>, c: int, left: int, top: int, w: real)
    requires |columns| < |heights|
    ensures forall i :: 0 <= i < |columns| ==>
              PlacementOf(left, top, w, heights, columns + [c], i) == PlacementOf(left, top, w, heights, columns, i)
  {
    forall i | 0 <= i < |columns|
      ensures (columns + [c])[..i] == columns[..i]
    {
    }
  }

  /** Placing one more child in the shortest column extends the greedy prefix. */
  lemma GreedyStep(n: nat, heights: seq<int>, columns: seq<int>, c: int)
    requires |columns| < |heights| && 0 <= c < n
    requires IsGreedy(n, heights, columns)
    requires IsShortest(Totals(n, heights[..|columns|], columns), c)
    ensures IsGreedy(n, heights, columns + [c])
  {
    var k := |columns|;
    var columns' := columns + [c];
    assert columns'[..k] == columns;
    forall i | 0 <= i < k
      ensures columns'[..i] == columns[..i]
    {
    }
  }

  /** With no children placed, every column is empty. */
  lemma TotalsOfNothing(n: nat)
    ensures Totals(n, [], []) == seq(n, _ => 0)
  {
  }

  /** Placing child `k` in the shortest column keeps the loop's account of columns, heights and placements. */
  lemma LayoutStep(n: nat, heights: seq<int>, columns: seq<int>, placements: seq<Placement>, totals: seq<int>,
                   c: nat, left: int, top: int, w: real)
    requires |columns| < |heights| && |placements| == |columns|
    requires totals == Totals(n, heights[..|columns|], columns)
    requires IsGreedy(n, heights, columns) && IsShortest(totals, c)
    requires forall i :: 0 <= i < |columns| ==> placements[i] == PlacementOf(left, top, w, heights, columns, i)
    ensures var k := |columns|;
            var columns' := columns + [c];
            var placements' := placements + [Placement(left as real + c as real * (w + Gap as real),
                                                       (top + totals[c]) as real, w, heights[k] as real)];
            && totals[c := totals[c] + heights[k] + Gap] == Totals(n, heights[..k + 1], columns')
            && IsGreedy(n, heights, columns')
            && forall i :: 0 <= i < k + 1 ==> placements'[i] == PlacementOf(left, top, w, heights, columns', i)
  {
    var k := |columns|;
    Seqs.AppendSlices(columns, [c]);
    GreedyStep(n, heights, columns, c);
    TotalsStep(n, heights, columns, c);
    PlacementsStep(heights, columns, c, left, top, w);
    var p := Placement(left as real + c as real * (w + Gap as real), (top + totals[c]) as real, w, heights[k] as real);
    NewPlacement(heights, columns, c, left, top, w);
    assert p == PlacementOf(left, top, w, heights, columns + [c], k);
  }

  /** The new child's placement: the chosen column's left edge, at the height that column had reached. */
  lemma NewPlacement(heights: seq<int>, columns: seq<int>, c: nat, left: int, top: int, w: real)
    requires |columns| < |heights|
    ensures var k := |columns|;
            PlacementOf(left, top, w, heights, columns + [c], k)
            == Placement(left as real + c as real * (w + Gap as real),
                         (top + ColumnTotal(heights[..k], columns, c)) as real, w, heights[k] as real)
  {
    var k := |columns|;
    Seqs.AppendSlices(columns, [c]);
    assert w + Gap as real == w;
  }

  /**
   * `layoutChildren` for children whose preferred heights are `heights`. The
   * column count is recalculated first; with no children nothing else
   * happens. Otherwise child `i` goes greedily to column `columns[i]`, is
   * placed at that column's left edge and at the height the column had
   * reached, sized one column wide and its own height tall; each column ends
   * as high as the sum of its children, and the preferred height is the
   * tallest column (at least 0) plus the vertical insets.
   */
  method LayoutChildren(pane: Pane, heights: seq<int>)
    returns (placements: seq<Placement>, columns: seq<int>, columnHeights: seq<int>, pane': Pane)
    requires Valid(pane)
    ensures Valid(pane')
    ensures pane'.numColumns == CalculateColumns(AvailableWidth(pane), pane.numColumns)
    ensures pane'.width == pane.width && pane'.insets == pane.insets
    ensures |placements| == |heights|
    ensures heights == [] ==> pane'.prefHeight == pane.prefHeight
    ensures heights != [] ==>
              var n := pane'.numColumns;
              var w := ActualColumnWidth(AvailableWidth(pane), n);
              && |columns| == |heights|
              && IsGreedy(n, heights, columns)
              && columnHeights == Totals(n, heights, columns)
              && (forall i :: 0 <= i < |heights| ==>
                    placements[i] == PlacementOf(pane.insets.left, pane.insets.top, w, heights, columns, i))
              && (forall c :: 0 <= c < n ==> columnHeights[c] + pane.insets.top + pane.insets.bottom <= pane'.prefHeight)
              && pane'.prefHeight - pane.insets.top - pane.insets.bottom >= 0
              && (pane'.prefHeight - pane.insets.top - pane.insets.bottom == 0
                  || exists c :: 0 <= c < n && columnHeights[c] + pane.insets.top + pane.insets.bottom == pane'.prefHeight)
  {
    var numColumns := CalculateColumns(AvailableWidth(pane), pane.numColumns);
    pane' := pane.(numColumns := numColumns);
    placements, columns, columnHeights := [], [], [];
    if heights == [] {
      return;
    }
    var columnWidth := ActualColumnWidth(AvailableWidth(pane), numColumns);
    var leftInset := pane.insets.left;
    var topInset := pane.insets.top;
    columnHeights := seq(numColumns, _ => 0);
    TotalsOfNothing(numColumns);
    var k := 0;
    while k < |heights|
      invariant 0 <= k <= |heights|
      invariant |placements| == k && |columns| == k
      invariant columnHeights == Totals(numColumns, heights[..k], columns)
      invariant IsGreedy(numColumns, heights, columns)
      invariant forall i :: 0 <= i < k ==> placements[i] == PlacementOf(leftInset, topInset, columnWidth, heights, columns, i)
    {
      var shortestColumn := FindShortestColumn(columnHeights);
      var y := (topInset + columnHeights[shortestColumn]) as real;
      var x := leftInset as real + shortestColumn as real * (columnWidth + Gap as real);
      LayoutStep(numColumns, heights, columns, placements, columnHeights, shortestColumn, leftInset, topInset, columnWidth);
      placements := placements + [Placement(x, y, columnWidth, heights[k] as real)];
      columnHeights := columnHeights[shortestColumn := columnHeights[shortestColumn] + heights[k] + Gap];
      columns := columns + [shortestColumn];
      k := k + 1;
    }
    assert heights[..k] == heights;
    var maxHeight := TallestColumn(columnHeights);
    pane' := pane'.(prefHeight := maxHeight + topInset + pane.insets.bottom);
  }

  /** `computePrefWidth`: the nominal width of the columns, ignoring insets. */
  function ComputePrefWidth(p: Pane): int {
    p.numColumns * (ColumnWidth + Gap) - Gap
  }

  /**
   * The preferred width is the columns' nominal width: it does not depend on
   * the insets, and once more than one column fits it stays within the
   * available width, which the stretched columns fill exactly.
   */
  lemma PrefWidthIsNominal(p: Pane, insets: Insets)
    requires Valid(p)
    ensures ComputePrefWidth(p) == p.numColumns * ColumnWidth
    ensures ComputePrefWidth(p.(insets := insets)) == ComputePrefWidth(p)
    ensures var n := CalculateColumns(AvailableWidth(p), p.numColumns);
            AvailableWidth(p) > 0 && n > 1 ==> ComputePrefWidth(p.(numColumns := n)) <= AvailableWidth(p)
  {
  }

  /** With non-negative heights, a column only grows as children are added. */
  lemma {:induction false} ColumnTotalGrows(heights: seq<int>, columns: seq<int>, c: int, i: nat, j: nat)
    requires |heights| == |columns| && i <= j <= |heights|
    requires forall t :: 0 <= t < |heights| ==> heights[t] >= 0
    ensures ColumnTotal(heights[..i], columns[..i], c) <= ColumnTotal(heights[..j], columns[..j], c)
    decreases j - i
  {
    if i < j {
      ColumnTotalGrows(heights, columns, c, i, j - 1);
      assert heights[..j][..j - 1] == heights[..j - 1];
      assert columns[..j][..j - 1] == columns[..j - 1];
    }
  }

  /**
   * No overlap: when child `j` follows child `i` in the same column, it starts
   * no higher than where child `i` ends.
   */
  lemma NoOverlapInColumn(heights: seq<int>, columns: seq<int>, i: nat, j: nat)
    requires |heights| == |columns| && i < j < |heights| && columns[i] == columns[j]
    requires forall t :: 0 <= t < |heights| ==> heights[t] >= 0
    ensures ColumnTotal(heights[..i], columns[..i], columns[i]) + heights[i]
            <= ColumnTotal(heights[..j], columns[..j], columns[j])
  {
    assert heights[..i + 1][..i] == heights[..i];
    assert columns[..i + 1][..i] == columns[..i];
    ColumnTotalGrows(heights, columns, columns[i], i + 1, j);
  }

  /**
   * Every child is counted in exactly one column: the column heights add up
   * to the sum of all children's heights.
   */
  lemma {:induction false} TotalsAddUp(n: nat, heights: seq<int>, columns: seq<int>)
    requires |heights| == |columns|
    requires forall i :: 0 <= i < |columns| ==> 0 <= columns[i] < n
    ensures SumOf(Totals(n, heights, columns)) == SumOf(heights)
  {
    if heights == [] {
      TotalsOfNothing(n);
      SumOfZeros(n);
    } else {
      var h', c' := heights[..|heights| - 1], columns[..|columns| - 1];
      TotalsAddUp(n, h', c');
      var last := columns[|columns| - 1];
      var before, after := Totals(n, h', c'), Totals(n, heights, columns);
      assert after == before[last := before[last] + heights[|heights| - 1]];
      SumOfUpdate(before, last, heights[|heights| - 1]);
      assert heights == h' + [heights[|heights| - 1]];
      SumOfAppend(h', heights[|heights| - 1]);
    }
  }

  function SumOf(s: seq<int>): int {
    if s == [] then 0 else SumOf(s[..|s| - 1]) + s[|s| - 1]
  }

  lemma {:induction false} SumOfZeros(n: nat)
    ensures SumOf(seq(n, _ => 0)) == 0
  {
    if n > 0 {
      assert seq(n, _ => 0)[..n - 1] == seq(n - 1, _ => 0);
      SumOfZeros(n - 1);
    }
  }

  lemma SumOfAppend(s: seq<int>, x: int)
    ensures SumOf(s + [x]) == SumOf(s) + x
  {
    assert (s + [x])[..|s|] == s;
  }

  lemma {:induction false} SumOfUpdate(s: seq<int>, i: nat, d: int)
    requires i < |s|
    ensures SumOf(s[i := s[i] + d]) == SumOf(s) + d
  {
    var t := s[i := s[i] + d];
    if i == |s| - 1 {
      assert t[..|t| - 1] == s[..|s| - 1];
    } else {
      SumOfUpdate(s[..|s| - 1], i, d);
      assert t[..|t| - 1] == s[..|s| - 1][i := s[i] + d];
    }
  }
}
