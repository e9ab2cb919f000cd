/** Zoom and pan of the visualizers' canvases. The scale is kept in
    [0.1, 4]; panning moves the content offset by the pointer's travel. */
module Viewport {
  import opened Common

  const MinScale: real := 0.1
  const MaxScale: real := 4.0

  /** `handleWheel` of the doubly linked list visualizer: the scale moves
      by `deltaY * -0.001` and is clamped to [0.1, 4]. The binary tree
      visualizer's `handleWheel` has the same body, but its listener is
      never attached, so the tree's scale stays 1. */
  function WheelZoom(scale: real, deltaY: real): (r: real)
    ensures MinScale <= r <= MaxScale
    ensures MinScale <= scale - deltaY / 1000.0 <= MaxScale ==> r == scale - deltaY / 1000.0
    ensures scale - deltaY / 1000.0 < MinScale ==> r == MinScale
    ensures scale - deltaY / 1000.0 > MaxScale ==> r == MaxScale
  {
    var raised := if MinScale > scale + deltaY * -0.001 then MinScale else scale + deltaY * -0.001;
    if raised < MaxScale then raised else MaxScale
  }

  /** A wheel step inside the range is undone by the opposite step. */
  lemma WheelZoomReversible(scale: real, deltaY: real)
    requires MinScale <= scale <= MaxScale
    requires MinScale <= scale - deltaY / 1000.0 <= MaxScale
    ensures WheelZoom(WheelZoom(scale, deltaY), -deltaY) == scale
  {
  }

  /** `handleZoomIn` of the singly linked list: `Math.min(4, scale + 0.1)`. */
  function ZoomIn(scale: real): (r: real)
    ensures r <= MaxScale
    ensures MinScale <= scale ==> MinScale <= r
    ensures scale + 0.1 <= MaxScale ==> r == scale + 0.1
    ensures scale + 0.1 > MaxScale ==> r == MaxScale
  {
    if MaxScale < scale + 0.1 then MaxScale else scale + 0.1
  }

  /** `handleZoomOut` of the singly linked list: `Math.max(0.1, scale - 0.1)`. */
  function ZoomOut(scale: real): (r: real)
    ensures r >= MinScale
    ensures scale <= MaxScale ==> r <= MaxScale
    ensures scale - 0.1 >= MinScale ==> r == scale - 0.1
    ensures scale - 0.1 < MinScale ==> r == MinScale
  {
    if MinScale > scale - 0.1 then MinScale else scale - 0.1
  }

  /** Zooming out after zooming in returns to the start unless the upper
      bound cut the step short. */
  lemma ZoomOutUndoesZoomIn(scale: real)
    requires MinScale <= scale && scale + 0.1 <= MaxScale
    ensures ZoomOut(ZoomIn(scale)) == scale
  {
  }

  function Sub(p: Point, q: Point): Point {
    Point(p.x - q.x, p.y - q.y)
  }

  function Add(p: Point, q: Point): Point {
    Point(p.x + q.x, p.y + q.y)
  }

  /** `dragStart` recorded on mouse-down: pointer minus current offset. */
  function PanAnchor(pointer: Point, offset: Point): Point {
    Sub(pointer, offset)
  }

  /** The offset set on a mouse-move while panning: pointer minus `dragStart`. */
  function PanOffset(pointer: Point, anchor: Point): Point {
    Sub(pointer, anchor)
  }

  /** Panning translates the content by exactly the pointer's travel since
      mouse-down, so the content does not jump when the drag starts. */
  lemma PanFollowsPointer(down: Point, now: Point, offset: Point)
    ensures PanOffset(now, PanAnchor(down, offset)) == Add(offset, Sub(now, down))
    ensures PanOffset(down, PanAnchor(down, offset)) == offset
  {
  }
}
