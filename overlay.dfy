/** The small pure parts of the mask compositor and overlay driver. */
module Overlay {
  import opened Common

  /** The lower and upper bounds of the blur strength, in pixels. */
  const MinBlur: real := 0.0
  const MaxBlur: real := 20.0

  datatype ColorStop = ColorStop(offset: real, alpha: real)

  /** A radial gradient from radius 0 to `outerRadius` around `center`,
      punched out of the mask (`destination-out`). */
  datatype Gradient = Gradient(center: Point, innerRadius: real, outerRadius: real, stops: seq<ColorStop>)

  /** The three colour stops of a hole: full strength at the centre, half at
      70% of the radius, none at the rim. */
  function GradientStops(opacity: real): (r: seq<ColorStop>)
    ensures |r| == 3
    ensures r[0] == ColorStop(0.0, opacity) && r[1] == ColorStop(0.7, opacity * 0.5) && r[2] == ColorStop(1.0, 0.0)
    ensures forall i, j :: 0 <= i < j < |r| ==> r[i].offset < r[j].offset
    ensures 0.0 <= opacity <= 1.0 ==> forall i, j :: 0 <= i < j < |r| ==> 0.0 <= r[j].alpha <= r[i].alpha <= 1.0
  {
    [ColorStop(0.0, opacity), ColorStop(0.7, opacity * 0.5), ColorStop(1.0, 0.0)]
  }

  /** The gradient `drawRadialGradient` fills for an area. */
  function DrawRadialGradient(x: real, y: real, radius: real, opacity: real): (g: Gradient)
    ensures g.center == Point(x, y) && g.innerRadius == 0.0 && g.outerRadius == radius
    ensures |g.stops| == 3 && g.stops[0].alpha == opacity && g.stops[2].alpha == 0.0
    ensures 0.0 <= opacity <= 1.0 ==>
              forall i, j :: 0 <= i < j < |g.stops| ==> 0.0 <= g.stops[j].alpha <= g.stops[i].alpha <= 1.0
  {
    Gradient(Point(x, y), 0.0, radius, GradientStops(opacity))
  }

  /** `Math.max(0, Math.min(20, v))`. */
  function ClampBlur(v: real): (r: real)
    ensures MinBlur <= r <= MaxBlur
    ensures MinBlur <= v <= MaxBlur ==> r == v
    ensures v < MinBlur ==> r == MinBlur
    ensures v > MaxBlur ==> r == MaxBlur
  {
    if v > MaxBlur then MaxBlur else if v < MinBlur then MinBlur else v
  }

  /** Whether `animate` requests another frame. */
  predicate ShouldContinue(clearCount: nat, pathCount: nat, isAnimating: bool) {
    clearCount > 0 || pathCount > 0 || isAnimating
  }
}
