/**
 * The visible window of the combo box's list: `capacity` rows starting at
 * `firstVisibleIndex`, over a filtered view of `count` items. The host
 * measures the capacity; here it is a parameter.
 */
module VirtualWindow {

  /** The largest first index a window can have: the list cannot scroll past its end. */
  function MaxFirst(count: int, capacity: int): (m: int)
    ensures m >= 0
    ensures count >= capacity ==> m == count - capacity
    ensures count <= capacity ==> m == 0
  {
    if count > capacity then count - capacity else 0
  }

  /** `scrollToIndex(i)`: the requested first index, held within the scrollable range. */
  function ClampFirst(i: int, count: int, capacity: int): (f: int)
    ensures 0 <= f <= MaxFirst(count, capacity)
    ensures 0 <= i <= MaxFirst(count, capacity) ==> f == i
    ensures i < 0 ==> f == 0
    ensures i > MaxFirst(count, capacity) ==> f == MaxFirst(count, capacity)
  {
    if i < 0 then 0 else if i > MaxFirst(count, capacity) then MaxFirst(count, capacity) else i
  }

  /** A window starting at `first` that can be scrolled to and shows row `i`. */
  predicate Shows(first: int, capacity: int, count: int, i: int)
  {
    0 <= first <= MaxFirst(count, capacity) && first <= i <= first + capacity - 1
  }

  function Dist(a: int, b: int): int
  {
    if a >= b then a - b else b - a
  }

  /**
   * The first index after scrolling row `i` into view: an item at or past the
   * bottom row is brought to the bottom, an item at or above the top row to
   * the top, and an item strictly inside the window leaves it where it is.
   * The result is the closest window to the current one that shows `i`.
   */
  function ScrollIntoView(first: int, capacity: int, count: int, i: int): (r: int)
    requires 0 <= first && capacity >= 1 && 0 <= i < count
    ensures Shows(r, capacity, count, i)
    ensures forall f :: Shows(f, capacity, count, i) ==> Dist(r, first) <= Dist(f, first)
    ensures Shows(first, capacity, count, i) ==> r == first
  {
    var target :=
      if i >= first + capacity - 1 then i - capacity + 1
      else if i > first then first
      else i;
    ClampFirst(target, count, capacity)
  }
}
