/**
 * `MasonryPane` of the pixz package: fixed 300 x 300 cells separated by a
 * 2-pixel gap, so every quantity is a whole number of pixels.
 */
module MasonryPixz {
  import opened Masonry
  import opened Arith

  const CellSize := 300
  const Gap := 2
  /** Horizontal and vertical distance between the origins of neighbouring cells. */
  const Pitch := CellSize + Gap

  /**
   * The pane's own state: its width, insets, the column count kept from the
   * last calculation (initially 3) and the preferred height set by the last
   * layout that had children.
   */
  datatype Pane = Pane(width: int, insets: Insets, numColumns: int, prefHeight: int)

  predicate Valid(p: Pane) { p.numColumns >= 1 }

  function AvailableWidth(p: Pane): int {
    p.width - p.insets.left - p.insets.right
  }

  /**
   * `calculateColumns`: for a positive available width, the largest number of
   * cells that fit side by side with gaps between them, but at least one; for
   * any other width the previous count stays.
   */
  function CalculateColumns(availableWidth: int, numColumns: int): (r: int)
    ensures availableWidth <= 0 ==> r == numColumns
    ensures availableWidth > 0 ==>
              && r >= 1
              && (r == 1 || r * CellSize + (r - 1) * Gap <= availableWidth)
              && availableWidth < (r + 1) * CellSize + r * Gap
  {
    if availableWidth > 0 then
      var fit := (availableWidth + Gap) / (CellSize + Gap);
      if fit > 1 then fit else 1
    else
      numColumns
  }

  datatype Placement = Placement(x: int, y: int, width: int, height: int)

  /** Among the first `k` children dealt round-robin over `n` columns, how many land in column `c`. */
  function RoundRobinCount(k: nat, n: nat, c: nat): nat
    requires n >= 1
  {
    k / n + (if c < k % n then 1 else 0)
  }

  lemma DivModNext(k: nat, n: nat)
    requires n >= 1
    ensures k % n + 1 < n ==> (k + 1) / n == k / n && (k + 1) % n == k % n + 1
    ensures k % n + 1 == n ==> (k + 1) / n == k / n + 1 && (k + 1) % n == 0
  {
    var q, r := k / n, k % n;
    assert k == q * n + r;
    if r + 1 < n {
      DivModUnique(k + 1, n, q, r + 1);
    } else {
      DivModUnique(k + 1, n, q + 1, 0);
    }
  }

  /** Placing child `k` adds one to its own column's count and nothing to the others. */
  lemma RoundRobinStep(k: nat, n: nat, c: nat)
    requires n >= 1 && c < n
    ensures RoundRobinCount(k + 1, n, c) == RoundRobinCount(k, n, c) + (if c == k % n then 1 else 0)
  {
    DivModNext(k, n);
  }

  /** The number of `i < k` with `i % n == c`, counted one child at a time. */
  function CountInColumn(k: nat, n: nat, c: nat): nat
    requires n >= 1
  {
    if k == 0 then 0 else CountInColumn(k - 1, n, c) + (if (k - 1) % n == c then 1 else 0)
  }

  /** The closed form agrees with counting the children whose index is `c` modulo `n`. */
  lemma {:induction false} RoundRobinCountIsCount(k: nat, n: nat, c: nat)
    requires n >= 1 && c < n
    ensures RoundRobinCount(k, n, c) == CountInColumn(k, n, c)
  {
    if k > 0 {
      RoundRobinCountIsCount(k - 1, n, c);
      RoundRobinStep(k - 1, n, c);
    }
  }

  /** Balance: the column counts differ by at most one, and the leftmost columns hold the extra child. */
  lemma Balanced(k: nat, n: nat, c1: nat, c2: nat)
    requires n >= 1 && c1 <= c2 < n
    ensures 0 <= RoundRobinCount(k, n, c1) - RoundRobinCount(k, n, c2) <= 1
  {
  }

  /** Column `c` of `n` holds one cell per child dealt to it, each a pitch high. */
  function ColumnHeight(k: nat, n: nat, c: nat): int
    requires n >= 1
  {
    Pitch * RoundRobinCount(k, n, c)
  }

  /** After `k` children the running heights are the dealt columns' heights. */
  predicate HeightsAfter(heights: seq<int>, k: nat, n: nat)
    requires n >= 1
  {
    |heights| == n && forall c :: 0 <= c < n ==> heights[c] == ColumnHeight(k, n, c)
  }

  /** Child `i` of a grid with `n` columns: column `i mod n`, row `i div n`, one pitch apart from the top-left inset. */
  function Cell(left: int, top: int, n: nat, i: nat): Placement
    requires n >= 1
  {
    Placement(left + (i % n) * Pitch, top + (i / n) * Pitch, CellSize, CellSize)
  }

  /** The first `k` children are placed in their cells. */
  predicate PlacedSoFar(placements: seq<Placement>, k: nat, n: nat, left: int, top: int)
    requires n >= 1
  {
    |placements| == k && forall i :: 0 <= i < k ==> placements[i] == Cell(left, top, n, i)
  }

  /** With every column holding whole rows of cells, the shortest is the first one a row short. */
  lemma ShortestIsNextInRotation(heights: seq<int>, k: nat, n: nat)
    requires n >= 1 && HeightsAfter(heights, k, n)
    ensures IsShortest(heights, k % n)
  {
  }

  /** Preferred height after a layout of `k > 0` children: full rows of pitch, less the trailing gap. */
  function ContentHeight(k: nat, n: nat): int
    requires n >= 1
  {
    Pitch * ((k + n - 1) / n) - Gap
  }

  lemma TallestIsFirst(k: nat, n: nat)
    requires n >= 1
    ensures RoundRobinCount(k, n, 0) == (k + n - 1) / n
    ensures forall c :: 0 <= c < n ==> RoundRobinCount(k, n, c) <= RoundRobinCount(k, n, 0)
  {
    var q, r := k / n, k % n;
    assert k == q * n + r;
    if r == 0 {
      DivModUnique(k + n - 1, n, q, n - 1);
    } else {
      DivModUnique(k + n - 1, n, q + 1, r - 1);
    }
  }

  /** Placing child `k` in column `k mod n` keeps the loop's account of heights and placements. */
  lemma LayoutStep(placements: seq<Placement>, heights: seq<int>, k: nat, n: nat, left: int, top: int)
    requires n >= 1 && HeightsAfter(heights, k, n) && PlacedSoFar(placements, k, n, left, top)
    ensures var s := k % n;
            && HeightsAfter(heights[s := heights[s] + CellSize + Gap], k + 1, n)
            && PlacedSoFar(placements + [Placement(left + s * (CellSize + Gap), top + heights[s], CellSize, CellSize)],
                           k + 1, n, left, top)
  {
    forall c | 0 <= c < n {
      RoundRobinStep(k, n, c);
    }
    assert heights[k % n] == Pitch * (k / n);
  }

  /** After the last child, the tallest column is the first: it was dealt the most children. */
  lemma FinalHeight(heights: seq<int>, k: nat, n: nat)
    requires n >= 1 && HeightsAfter(heights, k, n)
    ensures forall c :: 0 <= c < n ==> heights[c] <= heights[0]
    ensures heights[0] == Pitch * ((k + n - 1) / n) >= 0
  {
    TallestIsFirst(k, n);
  }

  /**
   * `layoutChildren` for `childCount` managed children. The column count is
   * recalculated first; with no children nothing else happens. Otherwise
   * child `i` lands in column `i mod n`, row `i div n`, as a 300 x 300 cell
   * at one pitch per column and row from the top-left inset; column `c`
   * ends `Pitch` times its child count high, and the preferred height covers
   * the tallest column less its trailing gap, plus the vertical insets.
   */
  method LayoutChildren(pane: Pane, childCount: nat) returns (placements: seq<Placement>, columnHeights: seq<int>, pane': Pane)
    requires Valid(pane)
    ensures Valid(pane')
    ensures pane'.numColumns == CalculateColumns(AvailableWidth(pane), pane.numColumns)
    ensures pane'.width == pane.width && pane'.insets == pane.insets
    ensures |placements| == childCount
    ensures childCount == 0 ==> pane'.prefHeight == pane.prefHeight
    ensures childCount > 0 ==>
              && HeightsAfter(columnHeights, childCount, pane'.numColumns)
              && PlacedSoFar(placements, childCount, pane'.numColumns, pane.insets.left, pane.insets.top)
              && pane'.prefHeight == ContentHeight(childCount, pane'.numColumns) + pane.insets.top + pane.insets.bottom
  {
    var numColumns := CalculateColumns(AvailableWidth(pane), pane.numColumns);
    pane' := pane.(numColumns := numColumns);
    placements := [];
    columnHeights := [];
    if childCount == 0 {
      return;
    }
    var leftInset := pane.insets.left;
    var topInset := pane.insets.top;
    columnHeights := seq(numColumns, _ => 0);
    var k := 0;
    while k < childCount
      invariant 0 <= k <= childCount
      invariant HeightsAfter(columnHeights, k, numColumns)
      invariant PlacedSoFar(placements, k, numColumns, leftInset, topInset)
    {
      var shortestColumn := FindShortestColumn(columnHeights);
      ShortestIsNextInRotation(columnHeights, k, numColumns);
      ShortestIsUnique(columnHeights, shortestColumn, k % numColumns);
      var x := leftInset + shortestColumn * (CellSize + Gap);
      var y := topInset + columnHeights[shortestColumn];
      LayoutStep(placements, columnHeights, k, numColumns, leftInset, topInset);
      placements := placements + [Placement(x, y, CellSize, CellSize)];
      columnHeights := columnHeights[shortestColumn := columnHeights[shortestColumn] + CellSize + Gap];
      k := k + 1;
    }
    var maxHeight := TallestColumn(columnHeights);
    FinalHeight(columnHeights, childCount, numColumns);
    assert maxHeight == columnHeights[0];
    pane' := pane'.(prefHeight := maxHeight - Gap + topInset + pane.insets.bottom);
  }

  /** `computePrefWidth`: all columns with the gaps between them, plus the horizontal insets. */
  function ComputePrefWidth(p: Pane): int {
    p.numColumns * (CellSize + Gap) - Gap + p.insets.left + p.insets.right
  }

  /**
   * The preferred width is exactly the extent of the laid-out grid: from the
   * left inset to the right edge of the last column's cells, plus the right
   * inset; and for a positive available width it never exceeds the pane's
   * width unless a single column is forced.
   */
  lemma PrefWidthEnclosesColumns(p: Pane)
    requires Valid(p)
    ensures ComputePrefWidth(p) == p.insets.left + (p.numColumns - 1) * Pitch + CellSize + p.insets.right
    ensures var n := CalculateColumns(AvailableWidth(p), p.numColumns);
            AvailableWidth(p) > 0 && n > 1 ==> ComputePrefWidth(p.(numColumns := n)) <= p.width
  {
  }
}
