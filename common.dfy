/** Values shared by every part of the engine: optional values, points,
    rectangles and the two hosts the engine runs in. */
module Common {

  /** An optional value; `None` also stands for JavaScript's `undefined`
      and for a `parseFloat` that yields NaN. */
  datatype Option<+T> = None | Some(value: T)

  /** A point in the coordinate frame of the overlay. */
  datatype Point = Point(x: real, y: real)

  /** A bounding rectangle as `getBoundingClientRect` reports it. */
  datatype Rect = Rect(left: real, top: real, width: real, height: real) {
    function Right(): real { left + width }
    function Bottom(): real { top + height }
  }

  /** The two copies of the engine: the Obsidian plugin, which works in
      viewport coordinates, and the stand-alone demo page, which works in
      coordinates relative to its container element. */
  datatype Variant = Plugin | Demo

  /** Squared Euclidean distance; the engine only ever compares distances,
      so the square root is never needed. */
  function Dist2(p: Point, q: Point): real {
    (q.x - p.x) * (q.x - p.x) + (q.y - p.y) * (q.y - p.y)
  }
}
