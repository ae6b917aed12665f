/**
  Row geometry and windowing of the log table in which at most one row is
  expanded: every row is `rowHeight` tall except the expanded one, which is
  `ExpandedRowHeight` tall.
 */
module LogTable {
  import opened Wrappers
  import opened JsMath

  /** Height of the one expanded row, in pixels. */
  const ExpandedRowHeight: nat := 400

  /** The inputs of the geometry: the normal row height and the index of the
      expanded row (`null` in the component is `None`). The index may be
      stale, that is, past the end of the current logs. */
  datatype Layout = Layout(rowHeight: nat, expanded: Option<nat>)

  function RowHeight(lay: Layout, i: nat): nat
  {
    if lay.expanded == Some(i) then ExpandedRowHeight else lay.rowHeight
  }

  /** Reference definition: the sum of the heights of rows `0 .. k-1`. */
  ghost function PrefixHeight(lay: Layout, k: nat): nat
    decreases k
  {
    if k == 0 then 0 else PrefixHeight(lay, k - 1) + RowHeight(lay, k - 1)
  }

  /** Closed form of a row's top edge: only an expanded row above `i`
      shifts it, by the difference between the two heights. */
  function RowTop(lay: Layout, i: nat): int
  {
    match lay.expanded
    case Some(e) => if e < i then i * lay.rowHeight + (ExpandedRowHeight - lay.rowHeight) else i * lay.rowHeight
    case None => i * lay.rowHeight
  }

  /** A row's bottom edge, as the scan computes it: its top plus its height. */
  function RowBottom(lay: Layout, i: nat): int
  {
    RowTop(lay, i) + RowHeight(lay, i)
  }

  /** Rows tile the table: each row ends where the next one starts. */
  lemma RowsTile(lay: Layout, i: nat)
    ensures RowBottom(lay, i) == RowTop(lay, i + 1)
  {
    assert (i + 1) * lay.rowHeight == i * lay.rowHeight + lay.rowHeight;
  }

  /** The closed form is the running sum of the row heights above. */
  lemma {:induction false} RowTopIsPrefixHeight(lay: Layout, i: nat)
    ensures RowTop(lay, i) == PrefixHeight(lay, i)
    decreases i
  {
    if i > 0 {
      RowTopIsPrefixHeight(lay, i - 1);
      RowsTile(lay, i - 1);
    }
  }

  /** Row tops never decrease down the table. */
  lemma {:induction false} RowTopMonotone(lay: Layout, i: nat, j: nat)
    requires i <= j
    ensures RowTop(lay, i) <= RowTop(lay, j)
    decreases j - i
  {
    if i < j {
      RowsTile(lay, i);
      RowTopMonotone(lay, i + 1, j);
    }
  }

  /** `getRowTop`: the loop over the rows above `index`, as written. */
  method GetRowTop(lay: Layout, index: nat) returns (top: int)
    ensures top == RowTop(lay, index)
  {
    top := 0;
    var i := 0;
    while i < index
      invariant i <= index
      invariant top == PrefixHeight(lay, i)
    {
      top := top + (if lay.expanded == Some(i) then ExpandedRowHeight else lay.rowHeight);
      i := i + 1;
    }
    RowTopIsPrefixHeight(lay, index);
  }

  /** `totalHeight`: the spacer's height for `n` rows. The expanded row only
      counts while its index is inside the logs. */
  function TotalHeight(lay: Layout, n: nat): int
  {
    var height := n * lay.rowHeight;
    if lay.expanded.Some? && lay.expanded.value < n then height + (ExpandedRowHeight - lay.rowHeight)
    else height
  }

  /** The spacer is exactly as tall as all the rows together. */
  lemma TotalHeightIsSumOfRows(lay: Layout, n: nat)
    ensures TotalHeight(lay, n) == PrefixHeight(lay, n)
  {
    RowTopIsPrefixHeight(lay, n);
  }

  /** The spacer ends at the bottom edge of the last row. */
  lemma SpacerEndsAtLastRow(lay: Layout, n: nat)
    requires n > 0
    ensures TotalHeight(lay, n) == RowBottom(lay, n - 1)
  {
    RowsTile(lay, n - 1);
  }

  /** Pixels above the viewport that are still rendered. */
  function LowerBound(lay: Layout, scrollTop: nat, overscan: nat): int
  {
    scrollTop - overscan * lay.rowHeight
  }

  /** Pixels below which nothing more is rendered. */
  function UpperBound(lay: Layout, scrollTop: nat, containerHeight: nat, overscan: nat): int
  {
    scrollTop + containerHeight + overscan * lay.rowHeight
  }

  /**
    What the range `[start, end)` of rendered rows is, as a property of the
    geometry. The start is the first row whose bottom edge passes below the
    lower bound; when no row does, the range falls back to all `n` rows. The
    end is the first row whose top edge lies past the upper bound, or `n`.
   */
  ghost predicate IsVisibleRange(lay: Layout, n: nat, scrollTop: nat, containerHeight: nat, overscan: nat,
                                 start: nat, end: nat)
  {
    var lo := LowerBound(lay, scrollTop, overscan);
    var hi := UpperBound(lay, scrollTop, containerHeight, overscan);
    && start <= end <= n
    && (forall j :: 0 <= j < start ==> RowBottom(lay, j) <= lo)
    && ((start < n && lo < RowBottom(lay, start))
        || (start == 0 && end == n && forall j :: 0 <= j < n ==> RowBottom(lay, j) <= lo))
    && (forall j :: 0 <= j < end ==> RowTop(lay, j) <= hi)
    && (end < n ==> hi < RowTop(lay, end))
  }

  /** What the scan knows about the start after looking at rows `0 .. k-1`. */
  ghost predicate StartSoFar(lay: Layout, lo: int, k: nat, startIndex: nat, foundStart: bool)
  {
    && (!foundStart ==> startIndex == 0 && forall j :: 0 <= j < k ==> RowBottom(lay, j) <= lo)
    && (foundStart ==> startIndex < k && lo < RowBottom(lay, startIndex)
                       && forall j :: 0 <= j < startIndex ==> RowBottom(lay, j) <= lo)
  }

  /** No row among `0 .. k-1` starts past the upper bound. */
  ghost predicate TopsWithin(lay: Layout, hi: int, k: nat)
  {
    forall j :: 0 <= j < k ==> RowTop(lay, j) <= hi
  }

  lemma StartNotYet(lay: Layout, lo: int, i: nat, startIndex: nat, foundStart: bool)
    requires StartSoFar(lay, lo, i, startIndex, foundStart)
    requires foundStart || RowBottom(lay, i) <= lo
    ensures StartSoFar(lay, lo, i + 1, startIndex, foundStart)
  {
  }

  lemma StartHere(lay: Layout, lo: int, i: nat, startIndex: nat)
    requires StartSoFar(lay, lo, i, startIndex, false)
    requires lo < RowBottom(lay, i)
    ensures StartSoFar(lay, lo, i + 1, i, true)
  {
  }

  lemma TopsStep(lay: Layout, hi: int, i: nat)
    requires TopsWithin(lay, hi, i) && RowTop(lay, i) <= hi
    ensures TopsWithin(lay, hi, i + 1)
  {
  }

  /** The bounds are ordered, whatever the overscan. */
  lemma BoundsOrdered(lay: Layout, scrollTop: nat, containerHeight: nat, overscan: nat)
    ensures LowerBound(lay, scrollTop, overscan) <= scrollTop <= UpperBound(lay, scrollTop, containerHeight, overscan)
  {
    assert 0 <= overscan * lay.rowHeight;
  }

  /** The early exit at row `i` yields the characterised range. */
  lemma ScanBreak(lay: Layout, n: nat, scrollTop: nat, containerHeight: nat, overscan: nat,
                  i: nat, startIndex: nat, foundStart: bool)
    requires i < n
    requires UpperBound(lay, scrollTop, containerHeight, overscan) < RowTop(lay, i)
    requires StartSoFar(lay, LowerBound(lay, scrollTop, overscan), i + 1, startIndex, foundStart)
    requires TopsWithin(lay, UpperBound(lay, scrollTop, containerHeight, overscan), i)
    ensures IsVisibleRange(lay, n, scrollTop, containerHeight, overscan, startIndex, i)
  {
    BoundsOrdered(lay, scrollTop, containerHeight, overscan);
    assert LowerBound(lay, scrollTop, overscan) < RowBottom(lay, i);
  }

  /** Running off the end of the rows yields the characterised range. */
  lemma ScanDone(lay: Layout, n: nat, scrollTop: nat, containerHeight: nat, overscan: nat,
                 startIndex: nat, foundStart: bool)
    requires StartSoFar(lay, LowerBound(lay, scrollTop, overscan), n, startIndex, foundStart)
    requires TopsWithin(lay, UpperBound(lay, scrollTop, containerHeight, overscan), n)
    ensures IsVisibleRange(lay, n, scrollTop, containerHeight, overscan, startIndex, n)
  {
  }

  /** The visible-range scan: one pass over the rows with an early exit, as written. */
  method VisibleRange(lay: Layout, n: nat, scrollTop: nat, containerHeight: nat, overscan: nat)
    returns (start: nat, end: nat)
    ensures IsVisibleRange(lay, n, scrollTop, containerHeight, overscan, start, end)
  {
    var lo := LowerBound(lay, scrollTop, overscan);
    var hi := UpperBound(lay, scrollTop, containerHeight, overscan);
    var currentHeight := 0;
    var startIndex := 0;
    var endIndex := n;
    var foundStart := false;
    var i := 0;
    while i < n
      invariant i <= n
      invariant currentHeight == RowTop(lay, i)
      invariant endIndex == n
      invariant TopsWithin(lay, hi, i)
      invariant StartSoFar(lay, lo, i, startIndex, foundStart)
    {
      var height := if lay.expanded == Some(i) then ExpandedRowHeight else lay.rowHeight;
      if !foundStart && currentHeight + height > lo {
        StartHere(lay, lo, i, startIndex);
        startIndex := i;
        foundStart := true;
      } else {
        StartNotYet(lay, lo, i, startIndex, foundStart);
      }
      if currentHeight > hi {
        endIndex := i;
        ScanBreak(lay, n, scrollTop, containerHeight, overscan, i, startIndex, foundStart);
        break;
      }
      TopsStep(lay, hi, i);
      RowsTile(lay, i);
      currentHeight := currentHeight + height;
      i := i + 1;
    }
    if endIndex == n {
      ScanDone(lay, n, scrollTop, containerHeight, overscan, startIndex, foundStart);
    }
    start := Max(0, startIndex);
    end := Min(n, endIndex);
  }

  /** The characterisation fixes the range: the scan has only one possible answer. */
  lemma VisibleRangeIsUnique(lay: Layout, n: nat, scrollTop: nat, containerHeight: nat, overscan: nat,
                             s1: nat, e1: nat, s2: nat, e2: nat)
    requires IsVisibleRange(lay, n, scrollTop, containerHeight, overscan, s1, e1)
    requires IsVisibleRange(lay, n, scrollTop, containerHeight, overscan, s2, e2)
    ensures s1 == s2 && e1 == e2
  {
  }

  /** Every row that overlaps the viewport `[scrollTop, scrollTop + containerHeight)`
      is rendered. */
  lemma VisibleRangeCoversViewport(lay: Layout, n: nat, scrollTop: nat, containerHeight: nat, overscan: nat,
                                   start: nat, end: nat, j: nat)
    requires IsVisibleRange(lay, n, scrollTop, containerHeight, overscan, start, end)
    requires j < n && RowTop(lay, j) < scrollTop + containerHeight && scrollTop < RowBottom(lay, j)
    ensures start <= j < end
  {
    BoundsOrdered(lay, scrollTop, containerHeight, overscan);
    if end <= j {
      RowTopMonotone(lay, end, j);
    }
  }

  /** `handleRowClick`: clicking the expanded row collapses it, clicking any
      other row makes that row the only expanded one. */
  function Toggle(expanded: Option<nat>, index: nat): (r: Option<nat>)
    ensures r == None <==> expanded == Some(index)
    ensures r != None ==> r == Some(index)
  {
    if expanded == Some(index) then None else Some(index)
  }

  /** Clicking the same row twice from a collapsed table collapses it again,
      so the spacer and every row top are as before. */
  lemma ToggleTwiceRestores(rowHeight: nat, index: nat, n: nat, i: nat)
    ensures Toggle(Toggle(None, index), index) == None
    ensures TotalHeight(Layout(rowHeight, Toggle(Toggle(None, index), index)), n) == TotalHeight(Layout(rowHeight, None), n)
    ensures RowTop(Layout(rowHeight, Toggle(Toggle(None, index), index)), i) == RowTop(Layout(rowHeight, None), i)
  {
  }

  /** Expanding a row inside the logs grows the spacer by the height difference
      and shifts exactly the rows below it. */
  lemma ExpandingShiftsRowsBelow(rowHeight: nat, index: nat, n: nat, i: nat)
    requires index < n
    ensures TotalHeight(Layout(rowHeight, Some(index)), n)
            == TotalHeight(Layout(rowHeight, None), n) + (ExpandedRowHeight - rowHeight)
    ensures RowTop(Layout(rowHeight, Some(index)), i)
            == RowTop(Layout(rowHeight, None), i) + (if index < i then ExpandedRowHeight - rowHeight else 0)
  {
  }
}
