/** Where a pointer click opens a clear area, if anywhere. */
module Clicks {
  import opened Common
  import opened Caret

  datatype ClickEvent = ClickEvent(target: ElementKind, clientX: real, clientY: real)

  /** The demo's body listener only reacts to clicks inside the container
      rectangle, edges included. */
  predicate InsideContainer(ev: ClickEvent, container: Rect) {
    container.left <= ev.clientX <= container.Right() && container.top <= ev.clientY <= container.Bottom()
  }

  /** The point `createClearArea` is called with, or `None` when the click
      creates nothing: a click on an editor (which gets its own focus area)
      and, in the demo, a click outside the container. */
  function ClickPoint(v: Variant, ev: ClickEvent, container: Rect): (r: Option<Point>)
    ensures v == Plugin ==> (r.None? <==> IsEditable(Plugin, ev.target))
    ensures v == Plugin && r.Some? ==> r.value == Point(ev.clientX, ev.clientY)
    ensures v == Demo ==> (r.None? <==> !InsideContainer(ev, container) || IsEditable(Demo, ev.target))
    ensures v == Demo && r.Some? ==> r.value == Relative(Point(ev.clientX, ev.clientY), container)
    // a demo area always lies within the container
    ensures v == Demo && r.Some? ==> 0.0 <= r.value.x <= container.width && 0.0 <= r.value.y <= container.height
  {
    match v
    case Plugin =>
      if IsEditable(Plugin, ev.target) then None else Some(Point(ev.clientX, ev.clientY))
    case Demo =>
      if !InsideContainer(ev, container) then None
      else if IsEditable(Demo, ev.target) then None
      else Some(Point(ev.clientX - container.left, ev.clientY - container.top))
  }
}
