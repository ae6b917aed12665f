/**
  Concrete layouts: the expanding table's default row height with row 10
  expanded, and both tables over 1000 rows scrolled to 2400 pixels.
 */
module WindowingExamples {
  import opened Wrappers
  import LogTable
  import VirtualizedLogTable

  /** With 24-pixel rows and row 10 expanded, row 11 starts 376 pixels lower
      than usual and the spacer grows by the same amount; an expanded index
      past the end of the logs leaves the spacer alone. */
  lemma ExpandedRowTenScenario()
    ensures LogTable.RowTop(LogTable.Layout(24, Some(10)), 10) == 240
    ensures LogTable.RowTop(LogTable.Layout(24, Some(10)), 11) == 640
    ensures LogTable.TotalHeight(LogTable.Layout(24, Some(10)), 1000) == 24376
    ensures LogTable.TotalHeight(LogTable.Layout(24, Some(1000)), 1000) == 24000
  {
  }

  /** 1000 rows of 24 pixels, a 600-pixel viewport scrolled to 2400, overscan 5:
      the uniform table renders rows 95 to 129, the expanding table's scan
      rows 95 to 130, since 3000 is a multiple of 24. */
  lemma DefaultViewportScenario<T>(logs: seq<T>)
    requires |logs| == 1000
    ensures VirtualizedLogTable.VisibleStart(2400, 24, 5) == 95
    ensures VirtualizedLogTable.VisibleEnd(1000, 2400, 600, 24, 5) == 130
    ensures |VirtualizedLogTable.VisibleItems(logs, 2400, 600, 24, 5)| == 35
    ensures LogTable.IsVisibleRange(LogTable.Layout(24, None), 1000, 2400, 600, 5, 95, 131)
  {
    var lay := LogTable.Layout(24, None);
    assert LogTable.LowerBound(lay, 2400, 5) == 2280;
    assert LogTable.UpperBound(lay, 2400, 600, 5) == 3120;
    assert LogTable.RowBottom(lay, 95) == 2304;
    assert LogTable.RowTop(lay, 131) == 3144;
  }
}
