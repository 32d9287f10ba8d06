/** The path sampler: when the caret jumps, a trail of short-lived areas is
    laid from the previous caret point to the new one, one area per 15
    units of distance, by linear interpolation with both ends included. */
module PathSampler {
  import opened Common
  import opened Regions
  import opened Sweep

  /** Spacing of the trail samples. */
  const StepLength: real := 15.0
  /** A caret move must be longer than this for a trail to be laid. */
  const MoveThreshold: real := 5.0

  function Sq(r: real): real { r * r }

  /** `n == ceil(sqrt(d2) / 15)`, stated on squares: 15 (n - 1) < d <= 15 n.
      No n meets it when d2 is 0. */
  predicate IsCeilSteps(d2: real, n: nat) {
    Sq(StepLength) * Sq((n - 1) as real) < d2 <= Sq(StepLength) * Sq(n as real)
  }

  /** Whether a caret move from `p` to `q` lays a trail: its length is more than 5. */
  predicate MovedFar(p: Point, q: Point) {
    Dist2(p, q) > Sq(MoveThreshold)
  }

  /** Search upwards from `n` for the step count. */
  function StepsFrom(d2: real, n: nat): (r: nat)
    requires n >= 1 && Sq(StepLength) * Sq((n - 1) as real) < d2
    ensures IsCeilSteps(d2, r) && r >= n
    decreases d2.Floor - n
  {
    if d2 <= Sq(StepLength) * Sq(n as real) then n
    else
      assert (n as real) <= Sq(n as real);
      StepsFrom(d2, n + 1)
  }

  /** `Math.ceil(distance / 15)` for a distance whose square is `d2 > 0`. */
  function StepCount(d2: real): (n: nat)
    requires d2 > 0.0
    ensures IsCeilSteps(d2, n) && n >= 1
  {
    StepsFrom(d2, 1)
  }

  lemma SquareMonotone(a: nat, b: nat)
    requires a <= b
    ensures Sq(a as real) <= Sq(b as real)
  {
    assert (a as real) * (a as real) <= (a as real) * (b as real) <= (b as real) * (b as real);
  }

  /** The step count is unique, so `StepCount` is exactly the ceiling. */
  lemma CeilStepsUnique(d2: real, n: nat, m: nat)
    requires IsCeilSteps(d2, n) && IsCeilSteps(d2, m)
    ensures n == m
  {
    if n < m {
      SquareMonotone(n, m - 1);
    } else if m < n {
      SquareMonotone(m, n - 1);
    }
  }

  /** A move longer than the threshold always yields at least one step, so
      the sampler never divides by zero. */
  lemma MovedFarHasSteps(p: Point, q: Point)
    requires MovedFar(p, q)
    ensures Dist2(p, q) > 0.0 && StepCount(Dist2(p, q)) >= 1
  {
  }

  /** The i-th of `steps` interpolation points from `start` to `end`. */
  function SamplePoint(start: Point, end: Point, i: nat, steps: nat): Point
    requires steps >= 1
  {
    var t := (i as real) / (steps as real);
    Point(start.x + (end.x - start.x) * t, start.y + (end.y - start.y) * t)
  }

  /** The areas one call of `generateCursorPathAreas` appends, in order; the
      k-th gets the k-th fresh id. */
  function TrailAreas(start: Point, end: Point, steps: nat, firstId: nat, now: int): (r: seq<Area>)
    requires steps >= 1
    ensures |r| == steps + 1
  {
    seq(steps + 1, k requires 0 <= k <= steps => TrailArea(firstId + k, SamplePoint(start, end, k, steps), now))
  }

  /** The k-th trail area is the k-th sample, with the k-th fresh id. */
  lemma TrailAt(start: Point, end: Point, steps: nat, firstId: nat, now: int, k: nat)
    requires 1 <= steps && k <= steps
    ensures TrailAreas(start, end, steps, firstId, now)[k] == TrailArea(firstId + k, SamplePoint(start, end, k, steps), now)
  {
  }

  /** The trail starts at the previous caret point, ends at the new one, and
      every area of it is a fresh, well-formed, growing trail area. */
  lemma TrailShape(start: Point, end: Point, steps: nat, firstId: nat, now: int)
    requires steps >= 1
    ensures var r := TrailAreas(start, end, steps, firstId, now);
            && r[0].pos == start && r[steps].pos == end
            && AllWellFormed(r) && IdsIncreasing(r) && IdsBelow(r, firstId + steps + 1)
            && (forall k :: 0 <= k < |r| ==> r[k].id >= firstId)
            && (forall k :: 0 <= k < |r| ==> r[k].radius == 0.0 && r[k].opacity == 1.0 && r[k].expanding
                                             && r[k].maxRadius == TrailMaxRadius)
  {
    var r := TrailAreas(start, end, steps, firstId, now);
    assert r[0].pos == SamplePoint(start, end, 0, steps);
    assert r[steps].pos == SamplePoint(start, end, steps, steps);
    assert (steps as real) / (steps as real) == 1.0;
  }

  /** Consecutive samples are `1/steps` of the move apart. */
  lemma TrailGap(start: Point, end: Point, steps: nat, i: nat)
    requires i < steps
    ensures Dist2(SamplePoint(start, end, i, steps), SamplePoint(start, end, i + 1, steps))
            == Dist2(start, end) / Sq(steps as real)
  {
    SampleStep(start, end, i, steps);
    ScaledDist2(SamplePoint(start, end, i, steps), SamplePoint(start, end, i + 1, steps), start, end, steps as real);
  }

  /** Each sample moves `1/steps` of the way along both axes. */
  lemma SampleStep(start: Point, end: Point, i: nat, steps: nat)
    requires i < steps
    ensures var p, q := SamplePoint(start, end, i, steps), SamplePoint(start, end, i + 1, steps);
            && q.x - p.x == (end.x - start.x) / (steps as real)
            && q.y - p.y == (end.y - start.y) / (steps as real)
  {
    LerpDifference(start.x, end.x, i, steps);
    LerpDifference(start.y, end.y, i, steps);
  }

  /** With the step count of the move, no gap in the trail is longer than
      the 15-unit step. */
  lemma TrailSpacing(start: Point, end: Point, steps: nat, i: nat)
    requires i < steps && IsCeilSteps(Dist2(start, end), steps)
    ensures Dist2(SamplePoint(start, end, i, steps), SamplePoint(start, end, i + 1, steps)) <= Sq(StepLength)
  {
    TrailGap(start, end, steps, i);
    SquareAtLeastOne(steps as real);
    QuotientBound(Dist2(start, end), Sq(StepLength), Sq(steps as real));
  }

  lemma SquareAtLeastOne(n: real)
    requires n >= 1.0
    ensures Sq(n) >= 1.0
  {
    assert n * n >= n * 1.0;
  }

  /** Two points whose offset is that of `start` to `end` divided by `n`
      are `Dist2(start, end) / n²` apart, squared. */
  lemma ScaledDist2(p: Point, q: Point, start: Point, end: Point, n: real)
    requires n >= 1.0 && q.x - p.x == (end.x - start.x) / n && q.y - p.y == (end.y - start.y) / n
    ensures Dist2(p, q) == Dist2(start, end) / Sq(n)
  {
    var dx, dy := end.x - start.x, end.y - start.y;
    QuotientSquare(dx, n);
    QuotientSquare(dy, n);
    assert n * n >= n * 1.0;
    SumOfQuotients(dx * dx, dy * dy, n * n);
  }

  lemma LerpDifference(s: real, e: real, i: nat, steps: nat)
    requires steps >= 1
    ensures (s + (e - s) * (((i + 1) as real) / (steps as real))) - (s + (e - s) * ((i as real) / (steps as real)))
            == (e - s) / (steps as real)
  {
    var n := steps as real;
    assert ((i + 1) as real) / n == (i as real) / n + 1.0 / n;
    assert (e - s) * ((i as real) / n + 1.0 / n) == (e - s) * ((i as real) / n) + (e - s) * (1.0 / n);
    assert (e - s) * (1.0 / n) == (e - s) / n;
  }

  lemma QuotientSquare(a: real, n: real)
    requires n >= 1.0
    ensures (a / n) * (a / n) == (a * a) / (n * n)
  {
    var q, m := a / n, n * n;
    assert q * n == a;
    assert (q * q) * m == (q * n) * (q * n);
    assert m >= n * 1.0;
    assert ((a * a) / m) * m == a * a;
    CancelFactor(q * q, (a * a) / m, m);
  }

  lemma CancelFactor(x: real, y: real, m: real)
    requires m != 0.0 && x * m == y * m
    ensures x == y
  {
    assert (x - y) * m == 0.0;
  }

  lemma SumOfQuotients(a: real, b: real, m: real)
    requires m != 0.0
    ensures a / m + b / m == (a + b) / m
  {
  }

  lemma QuotientBound(a: real, c: real, m: real)
    requires m > 0.0 && a <= c * m
    ensures a / m <= c
  {
    assert a / m * m == a;
  }

  /** The example of a move from (0,0) to (30,0): the sampler lays exactly
      three areas, at (0,0), (15,0) and (30,0). */
  lemma ThirtyUnitMove(firstId: nat, now: int)
    ensures StepCount(Dist2(Point(0.0, 0.0), Point(30.0, 0.0))) == 2
    ensures var r := TrailAreas(Point(0.0, 0.0), Point(30.0, 0.0), 2, firstId, now);
            |r| == 3 && r[0].pos == Point(0.0, 0.0) && r[1].pos == Point(15.0, 0.0) && r[2].pos == Point(30.0, 0.0)
  {
    var d2 := Dist2(Point(0.0, 0.0), Point(30.0, 0.0));
    assert d2 == 900.0;
    assert IsCeilSteps(d2, 2);
    CeilStepsUnique(d2, StepCount(d2), 2);
    var r := TrailAreas(Point(0.0, 0.0), Point(30.0, 0.0), 2, firstId, now);
    assert r[1].pos == SamplePoint(Point(0.0, 0.0), Point(30.0, 0.0), 1, 2);
    assert r[2].pos == SamplePoint(Point(0.0, 0.0), Point(30.0, 0.0), 2, 2);
  }
}
