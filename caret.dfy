/** The caret locator (`getCursorPosition`) with the browser's measurements
    passed in: the element's bounding box, the size of the hidden probe that
    holds the text before the caret, and the parsed font metrics. */
module Caret {
  import opened Common

  /** The kinds of element the engine tells apart. */
  datatype ElementKind = InputElement | TextAreaElement | ContentEditableElement | OtherElement

  /** What `getCursorPosition` measures. `lineHeight` is `parseFloat` of the
      computed line height, `None` when that is NaN (e.g. "normal"). */
  datatype CaretMeasure = CaretMeasure(
    kind: ElementKind,
    rect: Rect,
    probeWidth: real,
    probeHeight: real,
    fontSize: real,
    lineHeight: Option<real>)

  /** Whether the element counts as a text editor: the plugin tests
      `instanceof HTMLInputElement`, `HTMLTextAreaElement` and
      `isContentEditable`; the demo tests only the tag names INPUT and
      TEXTAREA. The same test guards clicks and picks the caret branch. */
  predicate IsEditable(v: Variant, kind: ElementKind) {
    match v
    case Plugin => kind == InputElement || kind == TextAreaElement || kind == ContentEditableElement
    case Demo => kind == InputElement || kind == TextAreaElement
  }

  /** Metrics a browser reports for a rendered font: a positive font size and,
      when the line height parses, one that is not negative. */
  predicate RenderedMetrics(m: CaretMeasure) {
    m.fontSize > 0.0 && (m.lineHeight.Some? ==> m.lineHeight.value >= 0.0)
  }

  /** `parseFloat(lineHeight) || fontSize`: a line height that is NaN or 0
      falls back to the font size, so with rendered metrics the line height
      used is never zero or NaN. */
  function LineHeight(m: CaretMeasure): (h: real)
    ensures m.lineHeight.Some? && m.lineHeight.value != 0.0 ==> h == m.lineHeight.value
    ensures m.lineHeight.None? || m.lineHeight.value == 0.0 ==> h == m.fontSize
    ensures RenderedMetrics(m) ==> h > 0.0
  {
    if m.lineHeight.Some? && m.lineHeight.value != 0.0 then m.lineHeight.value else m.fontSize
  }

  /** The caret point in viewport coordinates. In a text editor it is at the
      right edge of the text before the caret, half a line above the bottom
      of that text; anywhere else it is the centre of the element. */
  function CursorPosition(v: Variant, m: CaretMeasure): (p: Point)
    ensures IsEditable(v, m.kind) ==> p.x - m.rect.left == m.probeWidth
    ensures IsEditable(v, m.kind) ==> p.y + LineHeight(m) / 2.0 == m.rect.top + m.probeHeight
    // half a line up: the caret point lies strictly above the bottom of the text before it
    ensures IsEditable(v, m.kind) && RenderedMetrics(m) ==> p.y < m.rect.top + m.probeHeight
    ensures !IsEditable(v, m.kind) ==> p.x - m.rect.left == m.rect.Right() - p.x
    ensures !IsEditable(v, m.kind) ==> p.y - m.rect.top == m.rect.Bottom() - p.y
  {
    if IsEditable(v, m.kind) then
      Point(m.rect.left + m.probeWidth, m.rect.top + m.probeHeight - LineHeight(m) / 2.0)
    else
      Point(m.rect.left + m.rect.width / 2.0, m.rect.top + m.rect.height / 2.0)
  }

  /** A viewport point in the coordinates of the container element. */
  function Relative(p: Point, container: Rect): (r: Point)
    ensures r.x + container.left == p.x && r.y + container.top == p.y
  {
    Point(p.x - container.left, p.y - container.top)
  }

  /** The point the engine uses for the caret of a focused input: the plugin
      uses viewport coordinates, the demo subtracts the container's origin. */
  function FocusPoint(v: Variant, m: CaretMeasure, container: Rect): (p: Point)
    ensures v == Plugin ==> p == CursorPosition(v, m)
    ensures v == Demo ==> p.x + container.left == CursorPosition(v, m).x
    ensures v == Demo ==> p.y + container.top == CursorPosition(v, m).y
  {
    match v
    case Plugin => CursorPosition(v, m)
    case Demo => Relative(CursorPosition(v, m), container)
  }
}
