/** The region model: one clear area of the frosted overlay, the three kinds
    of area the engine creates, and what one animation tick does to an area
    (`updateAndDrawSingleArea` without the splice and the drawing). */
module Regions {
  import opened Common

  // Click areas (createClearArea).
  const ClickMaxRadius: real := 120.0
  const ClickLife: int := 2500
  const ClickFadeSpeed: real := 0.008
  const ClickExpandingSpeed: real := 2.5
  // Input-focus areas (handleInputFocus); they have no life and no fade speed.
  const FocusMaxRadius: real := 60.0
  const FocusExpandingSpeed: real := 3.0
  // Caret-trail areas (generateCursorPathAreas).
  const TrailMaxRadius: real := 40.0
  const TrailExpandingSpeed: real := 4.0
  const TrailFadingSpeed: real := 0.015
  const TrailLife: int := 600
  /** Last member of the fallback chain `fadingSpeed || fadeSpeed || 0.008`. */
  const DefaultFadeRate: real := 0.008
  /** The accelerated fade speed a blur gives the focused area. */
  const BlurFadeSpeed: real := 0.02

  /** One clear area. `id` stands for the identity of the JavaScript object;
      an absent property (`undefined`) is `false` or `None`. The element an
      input-focus area remembers as `target` is not kept: nothing reads it. */
  datatype Area = Area(
    id: nat,
    pos: Point,
    radius: real,
    maxRadius: real,
    opacity: real,
    expandingSpeed: real,
    expanding: bool,
    fading: bool,
    isInputFocus: bool,
    fadeSpeed: Option<real>,
    fadingSpeed: Option<real>,
    life: Option<int>,
    createdTime: int)

  /** The fade rate actually applied, `fadingSpeed || fadeSpeed || 0.008`:
      JavaScript's `||` skips a missing speed and also a speed of 0. */
  function FadeRate(a: Area): real {
    if a.fadingSpeed.Some? && a.fadingSpeed.value != 0.0 then a.fadingSpeed.value
    else if a.fadeSpeed.Some? && a.fadeSpeed.value != 0.0 then a.fadeSpeed.value
    else DefaultFadeRate
  }

  /** What every area held by the engine satisfies between ticks. */
  ghost predicate WellFormed(a: Area) {
    && 0.0 <= a.radius <= a.maxRadius
    && (a.expanding <==> a.radius < a.maxRadius)
    && a.expandingSpeed > 0.0
    && 0.0 < a.opacity <= 1.0
    && FadeRate(a) > 0.0
    && (a.isInputFocus ==> !a.fading)
  }

  /** A pinned area: bound to a focused input, exempt from timed fading. */
  predicate Pinned(a: Area) {
    a.isInputFocus && !a.fading
  }

  /** The area a click creates. */
  function ClickArea(id: nat, p: Point, now: int): (a: Area)
    ensures WellFormed(a) && a.id == id && a.pos == p
    ensures a.expanding && !a.fading && !a.isInputFocus && a.radius == 0.0 && a.opacity == 1.0
    ensures a.maxRadius == ClickMaxRadius && a.expandingSpeed == ClickExpandingSpeed
    ensures FadeRate(a) == ClickFadeSpeed && a.life == Some(ClickLife) && a.createdTime == now
  {
    Area(id, p, 0.0, ClickMaxRadius, 1.0, ClickExpandingSpeed, true, false, false,
         Some(ClickFadeSpeed), None, Some(ClickLife), now)
  }

  /** The pinned area an input focus creates. */
  function FocusArea(id: nat, p: Point, now: int): (a: Area)
    ensures WellFormed(a) && a.id == id && a.pos == p && Pinned(a)
    ensures a.expanding && a.radius == 0.0 && a.opacity == 1.0
    ensures a.maxRadius == FocusMaxRadius && a.expandingSpeed == FocusExpandingSpeed
    ensures a.life.None? && a.fadeSpeed.None? && a.fadingSpeed.None? && a.createdTime == now
  {
    Area(id, p, 0.0, FocusMaxRadius, 1.0, FocusExpandingSpeed, true, false, true,
         None, None, None, now)
  }

  /** One area of a caret trail. */
  function TrailArea(id: nat, p: Point, now: int): (a: Area)
    ensures WellFormed(a) && a.id == id && a.pos == p
    ensures a.expanding && !a.fading && !a.isInputFocus && a.radius == 0.0 && a.opacity == 1.0
    ensures a.maxRadius == TrailMaxRadius && a.expandingSpeed == TrailExpandingSpeed
    ensures FadeRate(a) == TrailFadingSpeed && a.life == Some(TrailLife) && a.createdTime == now
  {
    Area(id, p, 0.0, TrailMaxRadius, 1.0, TrailExpandingSpeed, true, false, false,
         None, Some(TrailFadingSpeed), Some(TrailLife), now)
  }

  /** What a blur does to the area bound to the input: it loses its pin and
      is forced to fade at the accelerated speed, whatever its phase. */
  function Retire(a: Area): (r: Area)
    ensures r.fading && !r.isInputFocus && r.fadeSpeed == Some(BlurFadeSpeed)
    ensures r.fadingSpeed.None? ==> FadeRate(r) == BlurFadeSpeed
    ensures WellFormed(a) ==> WellFormed(r)
    ensures r.id == a.id && r.pos == a.pos && r.radius == a.radius && r.opacity == a.opacity
    ensures r.expanding == a.expanding
  {
    a.(isInputFocus := false, fading := true, fadeSpeed := Some(BlurFadeSpeed))
  }

  /** What a caret move does to the bound area: only its centre changes. */
  function MoveTo(a: Area, p: Point): (r: Area)
    ensures r.pos == p && r == a.(pos := p)
    ensures WellFormed(a) ==> WellFormed(r)
  {
    a.(pos := p)
  }

  /** `now - createdTime > life`; a comparison with an undefined `life` is false. */
  predicate LifeElapsed(a: Area, now: int) {
    a.life.Some? && now - a.createdTime > a.life.value
  }

  /** Expansion phase of a tick: grow by `expandingSpeed`, clamped to `maxRadius`. */
  function Expand(a: Area): Area {
    if !a.expanding then a
    else if a.radius + a.expandingSpeed >= a.maxRadius then a.(radius := a.maxRadius, expanding := false)
    else a.(radius := a.radius + a.expandingSpeed)
  }

  /** Hold phase of a tick: a fully grown area that is neither fading nor
      pinned starts to fade once its life has elapsed. */
  function StartFading(a: Area, now: int): Area {
    if !a.expanding && !a.fading && !a.isInputFocus && LifeElapsed(a, now) then a.(fading := true) else a
  }

  /** Fade phase of a tick. */
  function Fade(a: Area): Area {
    if a.fading then a.(opacity := a.opacity - FadeRate(a)) else a
  }

  /** Whether the tick removes the area: only a fading area can be removed,
      and it is removed as soon as its opacity is at most 0. */
  predicate Expired(a: Area) {
    a.fading && a.opacity <= 0.0
  }

  /** One tick of the area's state machine (expand, then maybe start
      fading, then fade), as `updateAndDrawSingleArea` performs it. */
  function Step(a: Area, now: int): Area {
    Fade(StartFading(Expand(a), now))
  }

  /** The phases of one tick, and the invariants a tick keeps. */
  lemma StepPhases(a: Area, now: int)
    ensures var u := Step(a, now);
      // only the animation state changes
      && u == a.(radius := u.radius, expanding := u.expanding, fading := u.fading, opacity := u.opacity)
      // expansion: grows by expandingSpeed, clamped to exactly maxRadius
      && (a.expanding && a.radius + a.expandingSpeed < a.maxRadius ==> u.radius == a.radius + a.expandingSpeed && u.expanding)
      && (a.expanding && a.radius + a.expandingSpeed >= a.maxRadius ==> u.radius == a.maxRadius && !u.expanding)
      && (!a.expanding ==> u.radius == a.radius && !u.expanding)
      // fading starts only for a grown, unpinned area whose life has elapsed
      && (u.fading <==> a.fading || (!u.expanding && !a.isInputFocus && LifeElapsed(a, now)))
      // a fading area loses exactly its fade rate
      && u.opacity == (if u.fading then a.opacity - FadeRate(a) else a.opacity)
      && (WellFormed(a) ==> 0.0 <= u.radius <= u.maxRadius && u.opacity <= a.opacity)
      && (WellFormed(a) && !Expired(u) ==> WellFormed(u))
      && (WellFormed(a) && Pinned(a) ==> Pinned(u) && !Expired(u))
  {
  }

  /** Runs an area through one tick per time stamp; `None` once a tick removes it. */
  function Run(a: Area, times: seq<int>): Option<Area>
    decreases |times|
  {
    if times == [] then Some(a)
    else
      var u := Step(a, times[0]);
      if Expired(u) then None else Run(u, times[1..])
  }

  /** Growth of a click area: after k ticks of expansion (k < 48) its radius
      is exactly 2.5 k and it is still expanding; nothing else changes. */
  lemma {:induction false} ClickGrowth(id: nat, p: Point, t0: int, j: nat, times: seq<int>)
    requires j + |times| < 48
    ensures Run(ClickArea(id, p, t0).(radius := 2.5 * j as real), times)
            == Some(ClickArea(id, p, t0).(radius := 2.5 * (j + |times|) as real))
    decreases |times|
  {
    if times != [] {
      var a := ClickArea(id, p, t0).(radius := 2.5 * j as real);
      var b := ClickArea(id, p, t0).(radius := 2.5 * (j + 1) as real);
      assert Step(a, times[0]) == b;
      ClickGrowth(id, p, t0, j + 1, times[1..]);
    }
  }

  /** A click area reaches `maxRadius` = 120 in exactly ceil(120 / 2.5) = 48
      ticks and stops expanding on that tick. If that tick is still within
      its life, the area is then exactly the grown click area, not fading. */
  lemma ClickReachesMaxRadius(id: nat, p: Point, t0: int, times: seq<int>)
    requires |times| == 48
    ensures Run(ClickArea(id, p, t0), times).Some?
    ensures Run(ClickArea(id, p, t0), times).value.radius == ClickMaxRadius
    ensures !Run(ClickArea(id, p, t0), times).value.expanding
    ensures times[47] - t0 <= ClickLife ==>
              Run(ClickArea(id, p, t0), times) == Some(ClickArea(id, p, t0).(radius := ClickMaxRadius, expanding := false))
  {
    var a := ClickArea(id, p, t0);
    assert a == a.(radius := 2.5 * 0 as real);
    ClickGrowth(id, p, t0, 0, times[..47]);
    var b := a.(radius := 2.5 * 47 as real);
    assert Run(a, times[..47]) == Some(b);
    RunSplit(a, times[..47], times[47..]);
    assert times[..47] + times[47..] == times;
    var u := Step(b, times[47]);
    assert u.radius == ClickMaxRadius && !u.expanding && !Expired(u);
    if times[47] - t0 <= ClickLife {
      assert u == a.(radius := ClickMaxRadius, expanding := false);
    }
    assert times[47..][1..] == [];
  }

  /** Running over two stretches of time is running over the first and then
      over the second from where the first stopped. */
  lemma {:induction false} RunSplit(a: Area, s: seq<int>, t: seq<int>)
    ensures Run(a, s + t) == match Run(a, s) case None => None case Some(b) => Run(b, t)
    decreases |s|
  {
    if s != [] {
      assert (s + t)[0] == s[0] && (s + t)[1..] == s[1..] + t;
      var u := Step(a, s[0]);
      if !Expired(u) {
        RunSplit(u, s[1..], t);
      }
    } else {
      assert s + t == t;
    }
  }

  /** Hold phase of a click area: once grown it keeps full opacity and does
      not change at all for every tick at most 2500 ms after its creation. */
  lemma {:induction false} ClickHolds(id: nat, p: Point, t0: int, times: seq<int>)
    requires forall k :: 0 <= k < |times| ==> times[k] - t0 <= ClickLife
    ensures Run(ClickArea(id, p, t0).(radius := ClickMaxRadius, expanding := false), times)
            == Some(ClickArea(id, p, t0).(radius := ClickMaxRadius, expanding := false))
    decreases |times|
  {
    if times != [] {
      assert times[0] - t0 <= ClickLife;
      ClickHolds(id, p, t0, times[1..]);
    }
  }

  /** End of the hold: the first tick more than 2500 ms after the click starts
      the fade and takes the first 0.008 off the opacity. */
  lemma ClickHoldEnds(id: nat, p: Point, t0: int, now: int)
    requires now - t0 > ClickLife
    ensures Step(ClickArea(id, p, t0).(radius := ClickMaxRadius, expanding := false), now)
            == ClickArea(id, p, t0).(radius := ClickMaxRadius, expanding := false, fading := true)
                                   .(opacity := 1.0 - 0.008 * 1 as real)
  {
  }

  /** The whole life of a click area: 48 ticks of growth; a hold, unchanged,
      on every tick at most 2500 ms after the click; the first later tick
      starts the fade; the 124 ticks after it remove the area, and until
      then its opacity has dropped by 0.008 per fading tick. */
  lemma ClickLifecycle(id: nat, p: Point, t0: int, grow: seq<int>, hold: seq<int>, end: int, fade: seq<int>)
    requires |grow| == 48 && grow[47] - t0 <= ClickLife
    requires forall k :: 0 <= k < |hold| ==> hold[k] - t0 <= ClickLife
    requires end - t0 > ClickLife
    ensures Run(ClickArea(id, p, t0), grow + hold + [end] + fade) == FadedClick(id, p, t0, 1 + |fade|)
    ensures Run(ClickArea(id, p, t0), grow + hold + [end] + fade).Some? <==> |fade| < 124
  {
    var a := ClickArea(id, p, t0);
    var later := hold + [end] + fade;
    assert grow + hold + [end] + fade == grow + later;
    ClickReachesMaxRadius(id, p, t0, grow);
    RunSplit(a, grow, later);
    ClickAfterGrowth(id, p, t0, hold, end, fade);
  }

  /** The click area after j fade ticks: `None` once it has been removed. */
  function FadedClick(id: nat, p: Point, t0: int, j: nat): Option<Area> {
    if j < 125
    then Some(ClickArea(id, p, t0).(radius := ClickMaxRadius, expanding := false, fading := true)
                                  .(opacity := 1.0 - 0.008 * j as real))
    else None
  }

  /** From the grown click area: hold, start of the fade, fade out. */
  lemma ClickAfterGrowth(id: nat, p: Point, t0: int, hold: seq<int>, end: int, fade: seq<int>)
    requires forall k :: 0 <= k < |hold| ==> hold[k] - t0 <= ClickLife
    requires end - t0 > ClickLife
    ensures Run(ClickArea(id, p, t0).(radius := ClickMaxRadius, expanding := false), hold + [end] + fade)
            == FadedClick(id, p, t0, 1 + |fade|)
  {
    var g := ClickArea(id, p, t0).(radius := ClickMaxRadius, expanding := false);
    var rest := [end] + fade;
    assert hold + [end] + fade == hold + rest;
    ClickHolds(id, p, t0, hold);
    RunSplit(g, hold, rest);
    ClickFadeStarts(id, p, t0, end, fade);
  }

  /** The tick that ends the hold, followed by the fade ticks. */
  lemma ClickFadeStarts(id: nat, p: Point, t0: int, end: int, fade: seq<int>)
    requires end - t0 > ClickLife
    ensures Run(ClickArea(id, p, t0).(radius := ClickMaxRadius, expanding := false), [end] + fade)
            == FadedClick(id, p, t0, 1 + |fade|)
  {
    var g := ClickArea(id, p, t0).(radius := ClickMaxRadius, expanding := false);
    var f := ClickArea(id, p, t0).(radius := ClickMaxRadius, expanding := false, fading := true);
    var rest := [end] + fade;
    var u := f.(opacity := 1.0 - 0.008 * 1 as real);
    assert rest[0] == end && rest[1..] == fade;
    ClickHoldEnds(id, p, t0, end);
    assert Step(g, end) == u && !Expired(u);
    assert Run(g, rest) == Run(u, fade);
    ClickFadesOut(id, p, t0, 1, fade);
  }

  /** Fade phase of a click area: each tick takes 0.008 off its opacity, and
      the tick on which a total of ceil(1 / 0.008) = 125 decrements is
      reached removes it. */
  lemma {:induction false} ClickFadesOut(id: nat, p: Point, t0: int, j: nat, times: seq<int>)
    requires j < 125
    ensures var a := ClickArea(id, p, t0).(radius := ClickMaxRadius, expanding := false, fading := true);
            Run(a.(opacity := 1.0 - 0.008 * j as real), times) == FadedClick(id, p, t0, j + |times|)
    decreases |times|
  {
    var a := ClickArea(id, p, t0).(radius := ClickMaxRadius, expanding := false, fading := true);
    if times != [] {
      var u := Step(a.(opacity := 1.0 - 0.008 * j as real), times[0]);
      assert u == a.(opacity := 1.0 - 0.008 * (j + 1) as real);
      if j + 1 < 125 {
        ClickFadesOut(id, p, t0, j + 1, times[1..]);
      } else {
        assert Expired(u);
      }
    }
  }

  /** A pinned area never starts fading and is never removed, however many
      ticks pass; its opacity and centre stay as they are. So an input-focus
      area whose link a second focus overwrote stays on the overlay. */
  lemma {:induction false} PinnedPersists(a: Area, times: seq<int>)
    requires WellFormed(a) && Pinned(a)
    ensures Run(a, times).Some?
    ensures var b := Run(a, times).value;
            Pinned(b) && WellFormed(b) && b.opacity == a.opacity && b.pos == a.pos && b.id == a.id
    decreases |times|
  {
    if times != [] {
      StepPhases(a, times[0]);
      PinnedPersists(Step(a, times[0]), times[1..]);
    }
  }

  /** An area blurred while it is still growing both grows and fades on the
      next tick, as the source does: a blur does not wait for the hold phase. */
  lemma BlurredWhileExpandingGrowsAndFades(id: nat, p: Point, t0: int, now: int)
    ensures var u := Step(Retire(FocusArea(id, p, t0)), now);
            u.expanding && u.fading && u.radius == FocusExpandingSpeed && u.opacity == 1.0 - BlurFadeSpeed
  {
  }
}
