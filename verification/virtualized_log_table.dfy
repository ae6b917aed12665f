/**
  Windowing of the table whose rows all have the same height: the rendered
  range is computed from `scrollTop` by one floor and one ceiling division.
 */
module VirtualizedLogTable {
  import opened JsMath
  import KeyboardScroll

  /** `totalHeight`: the spacer's height for `n` rows. */
  function TotalHeight(n: nat, rowHeight: nat): nat
  {
    n * rowHeight
  }

  /** Top edge of row `i`, as placed in the rendered style. */
  function RowTop(i: nat, rowHeight: nat): nat
  {
    i * rowHeight
  }

  /** `visibleStartIndex`: the first row under the viewport, less the overscan. */
  function VisibleStart(scrollTop: nat, rowHeight: nat, overscan: nat): (start: nat)
    requires rowHeight > 0
    ensures start <= scrollTop / rowHeight
  {
    Max(0, scrollTop / rowHeight - overscan)
  }

  /** `visibleEndIndex`: one past the last row under the viewport, plus the
      overscan, capped by the number of rows. */
  function VisibleEnd(n: nat, scrollTop: nat, containerHeight: nat, rowHeight: nat, overscan: nat): (end: nat)
    requires rowHeight > 0
    ensures end <= n
  {
    Min(n, CeilDiv(scrollTop + containerHeight, rowHeight) + overscan)
  }

  /** `visibleItems`: the slice of the logs that is rendered. */
  function VisibleItems<T>(logs: seq<T>, scrollTop: nat, containerHeight: nat, rowHeight: nat, overscan: nat): seq<T>
    requires rowHeight > 0
  {
    Slice(logs, VisibleStart(scrollTop, rowHeight, overscan),
          VisibleEnd(|logs|, scrollTop, containerHeight, rowHeight, overscan))
  }

  /** The rendered rows are the logs from the start index on, in order, and
      there are `max(0, end - start)` of them: scrolling so far that the start
      passes the end renders nothing rather than failing. */
  lemma RenderedRowsAreTheRange<T>(logs: seq<T>, scrollTop: nat, containerHeight: nat, rowHeight: nat, overscan: nat)
    requires rowHeight > 0
    ensures var start := VisibleStart(scrollTop, rowHeight, overscan);
            var end := VisibleEnd(|logs|, scrollTop, containerHeight, rowHeight, overscan);
            var items := VisibleItems(logs, scrollTop, containerHeight, rowHeight, overscan);
            && |items| == Max(0, end - start)
            && (forall k :: 0 <= k < |items| ==> items[k] == logs[start + k])
  {
  }

  /** The ceiling at the viewport's end is at most
      `ceil(containerHeight / rowHeight) + 1` rows past the row holding `scrollTop`. */
  lemma ViewportSpanUpper(scrollTop: nat, containerHeight: nat, rowHeight: nat)
    requires rowHeight > 0
    ensures CeilDiv(scrollTop + containerHeight, rowHeight)
            <= scrollTop / rowHeight + CeilDiv(containerHeight, rowHeight) + 1
  {
    var q := scrollTop / rowHeight;
    var c := CeilDiv(containerHeight, rowHeight);
    var e: int := CeilDiv(scrollTop + containerHeight, rowHeight);
    assert (e - 1) * rowHeight < scrollTop + containerHeight;
    assert scrollTop < (q + 1) * rowHeight by {
      FloorDivBound(q + 1, scrollTop, rowHeight);
    }
    assert (q + c + 1) * rowHeight == (q + 1) * rowHeight + c * rowHeight;
    MulStrict(e - 1, q + c + 1, rowHeight);
  }

  /** The ceiling at the viewport's end is at least the floor at its top. */
  lemma ViewportSpanLower(scrollTop: nat, containerHeight: nat, rowHeight: nat)
    requires rowHeight > 0
    ensures scrollTop / rowHeight <= CeilDiv(scrollTop + containerHeight, rowHeight)
  {
    var q := scrollTop / rowHeight;
    var e := CeilDiv(scrollTop + containerHeight, rowHeight);
    assert q * rowHeight <= scrollTop by {
      FloorDivBound(q, scrollTop, rowHeight);
    }
    MulStrict(q - 1, e, rowHeight);
  }

  /** The number of rendered rows depends on the viewport and the overscan
      only, never on the number of logs. */
  lemma RenderedCountIsBounded<T>(logs: seq<T>, scrollTop: nat, containerHeight: nat, rowHeight: nat, overscan: nat)
    requires rowHeight > 0
    ensures |VisibleItems(logs, scrollTop, containerHeight, rowHeight, overscan)|
            <= CeilDiv(scrollTop + containerHeight, rowHeight) - scrollTop / rowHeight + 2 * overscan
    ensures |VisibleItems(logs, scrollTop, containerHeight, rowHeight, overscan)|
            <= CeilDiv(containerHeight, rowHeight) + 1 + 2 * overscan
  {
    ViewportSpanUpper(scrollTop, containerHeight, rowHeight);
    ViewportSpanLower(scrollTop, containerHeight, rowHeight);
  }

  /** Every row that overlaps the viewport `[scrollTop, scrollTop + containerHeight)`
      is rendered. */
  lemma VisibleRangeCoversViewport(n: nat, scrollTop: nat, containerHeight: nat, rowHeight: nat, overscan: nat, i: nat)
    requires rowHeight > 0
    requires i < n && RowTop(i, rowHeight) < scrollTop + containerHeight && scrollTop < RowTop(i + 1, rowHeight)
    ensures VisibleStart(scrollTop, rowHeight, overscan) <= i < VisibleEnd(n, scrollTop, containerHeight, rowHeight, overscan)
  {
    FloorDivBound(i + 1, scrollTop, rowHeight);
    var e := CeilDiv(scrollTop + containerHeight, rowHeight);
    assert i < e by {
      if e <= i {
        MulMono(e, i, rowHeight);
      }
    }
  }

  /** Rendered rows tile the spacer: each starts where the previous one ends,
      none overlaps a later one, and the last ends at the spacer's bottom. */
  lemma RowsTile(i: nat, j: nat, n: nat, rowHeight: nat)
    ensures RowTop(i, rowHeight) + rowHeight == RowTop(i + 1, rowHeight)
    ensures i < j ==> RowTop(i, rowHeight) + rowHeight <= RowTop(j, rowHeight)
    ensures RowTop(n, rowHeight) == TotalHeight(n, rowHeight)
  {
    assert RowTop(i, rowHeight) + rowHeight == RowTop(i + 1, rowHeight);
    if i < j {
      MulMono(i + 1, j, rowHeight);
    }
  }

  /** The keyboard clamps keep `scrollTop` inside this table's spacer. */
  lemma KeyScrollStaysInSpacer(key: KeyboardScroll.Key, top: int, n: nat, rowHeight: nat, containerHeight: nat)
    requires 0 <= top <= TotalHeight(n, rowHeight)
    ensures 0 <= KeyboardScroll.ScrollAfterKey(key, top, TotalHeight(n, rowHeight), containerHeight) <= TotalHeight(n, rowHeight)
  {
    KeyboardScroll.KeyScrollStaysInRange(key, top, TotalHeight(n, rowHeight), containerHeight);
  }
}
