/**
  How the two tables' windows relate when no row of the expanding table is
  expanded: same geometry, same start index while it is inside the logs,
  and an end index that is one larger exactly when the viewport's bottom
  edge falls on a row boundary.
 */
module WindowingAgreement {
  import opened Wrappers
  import opened JsMath
  import LogTable
  import VirtualizedLogTable

  /** With nothing expanded, the expanding table has the uniform table's geometry. */
  lemma UniformGeometryAgrees(n: nat, rowHeight: nat, i: nat)
    ensures LogTable.TotalHeight(LogTable.Layout(rowHeight, None), n) == VirtualizedLogTable.TotalHeight(n, rowHeight)
    ensures LogTable.RowTop(LogTable.Layout(rowHeight, None), i) == VirtualizedLogTable.RowTop(i, rowHeight)
  {
  }

  /** A uniform row's bottom edge is at or above the lower bound exactly when
      the row, moved down by the overscan, still ends above `scrollTop`'s row. */
  lemma BottomAtOrAboveLower(j: nat, scrollTop: nat, rowHeight: nat, overscan: nat)
    requires rowHeight > 0
    ensures LogTable.RowBottom(LogTable.Layout(rowHeight, None), j)
            <= LogTable.LowerBound(LogTable.Layout(rowHeight, None), scrollTop, overscan)
            <==> j + 1 + overscan <= scrollTop / rowHeight
  {
    assert (j + 1 + overscan) * rowHeight == j * rowHeight + rowHeight + overscan * rowHeight;
    FloorDivBound(j + 1 + overscan, scrollTop, rowHeight);
  }

  /** A uniform row's top edge is at or above the upper bound exactly when its
      index, less the overscan, is at most the floor at the viewport's end. */
  lemma TopAtOrAboveUpper(j: nat, scrollTop: nat, containerHeight: nat, rowHeight: nat, overscan: nat)
    requires rowHeight > 0
    ensures LogTable.RowTop(LogTable.Layout(rowHeight, None), j)
            <= LogTable.UpperBound(LogTable.Layout(rowHeight, None), scrollTop, containerHeight, overscan)
            <==> j - overscan <= (scrollTop + containerHeight) / rowHeight
  {
    assert j * rowHeight == (j - overscan) * rowHeight + overscan * rowHeight;
    FloorDivBound(j - overscan, scrollTop + containerHeight, rowHeight);
  }

  /** While the uniform start index is inside the logs, the scan finds the same start. */
  lemma UniformStartAgrees(n: nat, scrollTop: nat, containerHeight: nat, rowHeight: nat, overscan: nat,
                           start: nat, end: nat)
    requires rowHeight > 0
    requires LogTable.IsVisibleRange(LogTable.Layout(rowHeight, None), n, scrollTop, containerHeight, overscan, start, end)
    requires VirtualizedLogTable.VisibleStart(scrollTop, rowHeight, overscan) < n
    ensures start == VirtualizedLogTable.VisibleStart(scrollTop, rowHeight, overscan)
  {
    var k := VirtualizedLogTable.VisibleStart(scrollTop, rowHeight, overscan);
    BottomAtOrAboveLower(k, scrollTop, rowHeight, overscan);
    BottomAtOrAboveLower(start, scrollTop, rowHeight, overscan);
  }

  /** Once the uniform start index is past the logs, the scan finds no start
      and falls back to all rows, where the uniform table renders none. */
  lemma UniformStartPastEndFallsBack(n: nat, scrollTop: nat, containerHeight: nat, rowHeight: nat, overscan: nat,
                                     start: nat, end: nat)
    requires rowHeight > 0
    requires LogTable.IsVisibleRange(LogTable.Layout(rowHeight, None), n, scrollTop, containerHeight, overscan, start, end)
    requires n <= VirtualizedLogTable.VisibleStart(scrollTop, rowHeight, overscan)
    ensures start == 0 && end == n
    ensures VirtualizedLogTable.VisibleEnd(n, scrollTop, containerHeight, rowHeight, overscan)
            <= VirtualizedLogTable.VisibleStart(scrollTop, rowHeight, overscan)
  {
    if start < n {
      BottomAtOrAboveLower(start, scrollTop, rowHeight, overscan);
    }
  }

  /** The scan's end is `min(n, floor((scrollTop + containerHeight) / rowHeight) + overscan + 1)`,
      which exceeds the uniform table's end by one exactly when the viewport's
      bottom edge is a multiple of the row height and the uniform end is not
      already capped at `n`. */
  lemma UniformEndDiffers(n: nat, scrollTop: nat, containerHeight: nat, rowHeight: nat, overscan: nat,
                          start: nat, end: nat)
    requires rowHeight > 0
    requires LogTable.IsVisibleRange(LogTable.Layout(rowHeight, None), n, scrollTop, containerHeight, overscan, start, end)
    ensures end == Min(n, (scrollTop + containerHeight) / rowHeight + overscan + 1)
    ensures var uniformEnd := VirtualizedLogTable.VisibleEnd(n, scrollTop, containerHeight, rowHeight, overscan);
            end == uniformEnd + (if (scrollTop + containerHeight) % rowHeight == 0 && uniformEnd < n then 1 else 0)
  {
    var e := Min(n, (scrollTop + containerHeight) / rowHeight + overscan + 1);
    TopAtOrAboveUpper(end, scrollTop, containerHeight, rowHeight, overscan);
    if e < n {
      TopAtOrAboveUpper(e, scrollTop, containerHeight, rowHeight, overscan);
    }
    CeilIsFloorOrNext(scrollTop + containerHeight, rowHeight);
  }
}
