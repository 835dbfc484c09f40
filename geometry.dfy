/**
 * Page-local integer geometry: the highlight rectangle a comment is anchored
 * to, and the normalisation of a mouse drag into such a rectangle (the
 * `mousemove` handler: corner at the componentwise minimum, size the absolute
 * differences).
 */
module Geometry {

  /** An `offsetX`/`offsetY` pair. */
  datatype Point = Point(x: int, y: int)

  /** A `highlightPos` record. */
  datatype Rect = Rect(left: int, top: int, width: int, height: int)

  /** `Math.min` */
  function Min(a: int, b: int): int {
    if a <= b then a else b
  }

  /** `Math.abs` */
  function Abs(a: int): int {
    if a < 0 then -a else a
  }

  predicate HasNonNegativeSize(r: Rect) {
    r.width >= 0 && r.height >= 0
  }

  /** p lies inside r, edges included. */
  predicate Contains(r: Rect, p: Point) {
    r.left <= p.x <= r.left + r.width && r.top <= p.y <= r.top + r.height
  }

  /** r lies inside q. */
  predicate Within(r: Rect, q: Rect) {
    q.left <= r.left && r.left + r.width <= q.left + q.width &&
    q.top <= r.top && r.top + r.height <= q.top + q.height
  }

  /** The rectangle drawn while dragging from `start` to `current`. */
  function DragRect(start: Point, current: Point): (r: Rect)
    ensures HasNonNegativeSize(r)
    ensures Contains(r, start) && Contains(r, current)
    ensures r.left == start.x || r.left == current.x
    ensures r.top == start.y || r.top == current.y
    ensures r.left + r.width == start.x || r.left + r.width == current.x
    ensures r.top + r.height == start.y || r.top + r.height == current.y
  {
    Rect(Min(current.x, start.x), Min(current.y, start.y),
         Abs(current.x - start.x), Abs(current.y - start.y))
  }

  /** Dragging backwards draws the same rectangle. */
  lemma DragRectSymmetric(a: Point, b: Point)
    ensures DragRect(a, b) == DragRect(b, a)
  {
  }

  /** A press without movement gives the zero-size rectangle the `mousedown` handler draws. */
  lemma DragRectAtStart(start: Point)
    ensures DragRect(start, start) == Rect(start.x, start.y, 0, 0)
  {
  }

  /** The drag rectangle is the smallest rectangle containing both points. */
  lemma DragRectIsBoundingBox(start: Point, current: Point, q: Rect)
    requires Contains(q, start) && Contains(q, current)
    ensures Within(DragRect(start, current), q)
  {
  }
}
