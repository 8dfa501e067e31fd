/**
 * How one pointer-move step of a gesture reshapes an event's box. `delta` is the
 * pointer's vertical travel since the press; the originals were read at the press.
 */
module Geometry {

  /** An event's vertical extent in pixels (minutes): it covers `top` up to `top + height`. */
  datatype Box = Box(top: int, height: int) {
    function Bottom(): int {
      top + height
    }
  }

  /** The smallest height a resize leaves. */
  const MinHeight := 20

  /** Dragging moves the box by the pointer's travel, without any clamping, and keeps its height. */
  function Dragged(current: Box, originalTop: int, delta: int): (r: Box)
    ensures r.height == current.height
    ensures r.top - originalTop == delta
  {
    Box(originalTop + delta, current.height)
  }

  /**
   * Dragging the top handle: the top follows the pointer but not above the grid,
   * and the height grows by what the top rose, but not below `MinHeight`.
   * Each limit is applied on its own.
   */
  function ResizedTop(original: Box, delta: int): (r: Box)
    ensures r.top >= 0 && r.height >= MinHeight
    ensures original.top + delta >= 0 ==> r.top == original.top + delta
    ensures original.top + delta < 0 ==> r.top == 0
    ensures original.height - delta >= MinHeight ==> r.height == original.height - delta
    ensures original.height - delta < MinHeight ==> r.height == MinHeight
  {
    Box(if original.top + delta > 0 then original.top + delta else 0,
        if original.height - delta > MinHeight then original.height - delta else MinHeight)
  }

  /** While neither limit applies, the top handle leaves the bottom edge where it was. */
  lemma ResizedTopKeepsBottom(original: Box, delta: int)
    requires original.top + delta >= 0 && original.height - delta >= MinHeight
    ensures ResizedTop(original, delta).Bottom() == original.Bottom()
  {
  }

  /**
   * When the top is held at the grid's edge, the height still grows by the whole pull,
   * so the bottom edge moves down by what the top would have gone past the edge: a box
   * at 10..70 whose top handle is pulled up 30 pixels ends at 0..90.
   */
  lemma ResizedTopAtGridEdge(original: Box, delta: int)
    requires original.top + delta < 0 && original.height - delta >= MinHeight
    ensures ResizedTop(original, delta).top == 0
    ensures ResizedTop(original, delta).Bottom() == original.Bottom() - (original.top + delta)
  {
  }

  /** Dragging the bottom handle: the top stays and the height follows the pointer, but not below `MinHeight`. */
  function ResizedBottom(current: Box, originalHeight: int, delta: int): (r: Box)
    ensures r.top == current.top && r.height >= MinHeight
    ensures originalHeight + delta >= MinHeight ==> r.height == originalHeight + delta
    ensures originalHeight + delta < MinHeight ==> r.height == MinHeight
  {
    Box(current.top, if originalHeight + delta > MinHeight then originalHeight + delta else MinHeight)
  }
}
