/**
  The keyboard handler both tables install on their scroll container:
  Home, End, PageUp and PageDown set `scrollTop`, other keys leave it.
 */
module KeyboardScroll {
  import opened JsMath

  datatype Key = Home | End | PageUp | PageDown | Other

  /** The `scrollTop` the handler assigns for `key`, given the current offset,
      the spacer's height and the container's height. */
  function ScrollAfterKey(key: Key, top: int, totalHeight: int, containerHeight: nat): (r: int)
    ensures key.Home? ==> r == 0
    ensures key.End? ==> r == totalHeight
    ensures key.PageUp? ==> (r == 0 || r == top - containerHeight) && 0 <= r && top - containerHeight <= r
    ensures key.PageDown? ==> (r == totalHeight || r == top + containerHeight) && r <= totalHeight && r <= top + containerHeight
    ensures key.Other? ==> r == top
  {
    match key
    case Home => 0
    case End => totalHeight
    case PageUp => Max(0, top - containerHeight)
    case PageDown => Min(totalHeight, top + containerHeight)
    case Other => top
  }

  /** From an offset inside `[0, totalHeight]`, every key keeps it there. */
  lemma KeyScrollStaysInRange(key: Key, top: int, totalHeight: int, containerHeight: nat)
    requires 0 <= top <= totalHeight
    ensures 0 <= ScrollAfterKey(key, top, totalHeight, containerHeight) <= totalHeight
  {
  }

  /** Home and End reach the two ends of the spacer from anywhere. */
  lemma HomeAndEndReachTheEnds(top: int, totalHeight: int, containerHeight: nat)
    ensures ScrollAfterKey(Home, top, totalHeight, containerHeight) == 0
    ensures ScrollAfterKey(End, top, totalHeight, containerHeight) == totalHeight
  {
  }

  /** PageDown then PageUp comes back to the same offset when PageDown was
      not clamped, and PageUp then PageDown does when PageUp was not. */
  lemma PagingIsReversible(top: int, totalHeight: int, containerHeight: nat)
    ensures 0 <= top && top + containerHeight <= totalHeight ==>
              ScrollAfterKey(PageUp, ScrollAfterKey(PageDown, top, totalHeight, containerHeight), totalHeight, containerHeight) == top
    ensures containerHeight <= top <= totalHeight ==>
              ScrollAfterKey(PageDown, ScrollAfterKey(PageUp, top, totalHeight, containerHeight), totalHeight, containerHeight) == top
  {
  }
}
