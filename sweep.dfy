/** The registry sweep: once per tick each area array is walked from the
    back to the front, every area is advanced by one tick, and an area the
    tick expires is spliced out of its array instead of being drawn. */
module Sweep {
  import opened Common
  import opened Regions
  import opened Overlay

  /** The specification of a sweep over one array: the areas that survive the
      tick, advanced by it, in their original order. */
  function Survivors(areas: seq<Area>, now: int): (r: seq<Area>)
    ensures |r| <= |areas|
  {
    if areas == [] then []
    else
      var u := Step(areas[0], now);
      (if Expired(u) then [] else [u]) + Survivors(areas[1..], now)
  }

  function Reversed(s: seq<Area>): seq<Area> {
    if s == [] then [] else Reversed(s[1..]) + [s[0]]
  }

  ghost predicate AllWellFormed(s: seq<Area>) {
    forall k :: 0 <= k < |s| ==> WellFormed(s[k])
  }

  /** Areas appear in creation order: their ids strictly increase. */
  ghost predicate IdsIncreasing(s: seq<Area>) {
    forall i, j :: 0 <= i < j < |s| ==> s[i].id < s[j].id
  }

  ghost predicate IdsBelow(s: seq<Area>, n: nat) {
    forall k :: 0 <= k < |s| ==> s[k].id < n
  }

  /** The area with this id, if it is in the array, is pinned. */
  ghost predicate PinnedIfPresent(s: seq<Area>, id: nat) {
    forall k :: 0 <= k < |s| && s[k].id == id ==> Pinned(s[k])
  }

  predicate Present(s: seq<Area>, id: nat) {
    exists k :: 0 <= k < |s| && s[k].id == id
  }

  /** One call of `updateAndDrawSingleArea` on `areas[index]`: advance the area
      in place, then either splice it out (opacity fell to at most 0) or hand
      it to the compositor. */
  method UpdateAndDrawSingleArea(areas: seq<Area>, index: nat, now: int)
    returns (areas': seq<Area>, drawn: Option<Area>)
    requires index < |areas|
    ensures var u := Step(areas[index], now);
            if Expired(u) then areas' == areas[..index] + areas[index + 1..] && drawn == None
            else areas' == areas[index := u] && drawn == Some(u)
  {
    var area := areas[index];
    if area.expanding {
      area := area.(radius := area.radius + area.expandingSpeed);
      if area.radius >= area.maxRadius {
        area := area.(radius := area.maxRadius, expanding := false);
      }
    }
    if !area.expanding && !area.fading {
      if !area.isInputFocus && LifeElapsed(area, now) {
        area := area.(fading := true);
      }
    }
    if area.fading {
      area := area.(opacity := area.opacity - FadeRate(area));
      if area.opacity <= 0.0 {
        areas' := areas[..index] + areas[index + 1..];
        drawn := None;
        return;
      }
    }
    areas' := areas[index := area];
    drawn := Some(area);
  }

  /** One of the two reverse `for` loops of `drawClearAreas`: after it the
      array holds exactly the survivors of the tick, in their original order,
      and they were drawn from the back to the front. */
  method SweepArray(areas: seq<Area>, now: int) returns (kept: seq<Area>, drawn: seq<Area>, fills: seq<Gradient>)
    ensures kept == Survivors(areas, now)
    ensures drawn == Reversed(kept)
    ensures fills == Paints(drawn)
  {
    kept, drawn, fills := areas, [], [];
    var i: int := |areas| - 1;
    while i >= 0
      invariant -1 <= i < |areas|
      invariant kept == areas[..i + 1] + Survivors(areas[i + 1..], now)
      invariant drawn == Reversed(Survivors(areas[i + 1..], now))
      invariant fills == Paints(drawn)
    {
      SweepStep(areas, i, now, kept);
      var d;
      kept, d := UpdateAndDrawSingleArea(kept, i, now);
      if d.Some? {
        var a := d.value;
        PaintsAppend(drawn, [a]);
        drawn := drawn + [a];
        fills := fills + [DrawRadialGradient(a.pos.x, a.pos.y, a.radius, a.opacity)];
      }
      i := i - 1;
    }
    assert areas[0..] == areas;
  }

  /** The gradient `drawRadialGradient` punches for an area that is drawn. */
  function Paint(a: Area): Gradient {
    DrawRadialGradient(a.pos.x, a.pos.y, a.radius, a.opacity)
  }

  /** The gradients painted for a sequence of drawn areas, in drawing order. */
  function Paints(s: seq<Area>): (r: seq<Gradient>)
    ensures |r| == |s|
  {
    seq(|s|, k requires 0 <= k < |s| => Paint(s[k]))
  }

  lemma PaintsAppend(s: seq<Area>, t: seq<Area>)
    ensures Paints(s + t) == Paints(s) + Paints(t)
  {
    assert forall k :: 0 <= k < |s + t| ==> Paints(s + t)[k] == (Paints(s) + Paints(t))[k];
  }

  /** What one frame paints: every drawn area is visible, `fills` holds one
      gradient per drawn area, in drawing order, and each stays within its
      area. */
  ghost predicate FramePainted(drawn: seq<Area>, fills: seq<Gradient>)
  {
    && (forall x :: x in drawn ==> 0.0 < x.opacity <= 1.0 && 0.0 <= x.radius <= x.maxRadius)
    && fills == Paints(drawn)
    && (forall k :: 0 <= k < |drawn| ==> HoleWithin(fills[k], drawn[k]))
  }

  /** One frame draws the survivors of both arrays, each back to front: the
      gradients of the two sweeps one after the other are what the frame
      paints. */
  lemma FrameDrawn(kept: seq<Area>, keptPath: seq<Area>)
    requires forall x :: x in kept ==> Visible(x)
    requires forall x :: x in keptPath ==> Visible(x)
    ensures FramePainted(Reversed(kept) + Reversed(keptPath), Paints(Reversed(kept)) + Paints(Reversed(keptPath)))
  {
    DrawnVisible(kept, keptPath);
    PaintsAppend(Reversed(kept), Reversed(keptPath));
    PaintedHoles(Reversed(kept) + Reversed(keptPath));
  }

  /** A hole punched for area `a`: centred on it, no wider than its maximal
      radius, with alphas in [0, 1] that fall from its opacity to 0. */
  ghost predicate HoleWithin(g: Gradient, a: Area) {
    && g.center == a.pos && g.innerRadius == 0.0 && 0.0 <= g.outerRadius <= a.maxRadius
    && |g.stops| == 3 && g.stops[0].alpha == a.opacity && g.stops[2].alpha == 0.0
    && (forall i, j :: 0 <= i < j < |g.stops| ==> 0.0 <= g.stops[j].alpha <= g.stops[i].alpha <= 1.0)
  }

  /** Every gradient painted for visible areas stays within its area. */
  lemma PaintedHoles(s: seq<Area>)
    requires forall x :: x in s ==> Visible(x)
    ensures forall k :: 0 <= k < |s| ==> HoleWithin(Paints(s)[k], s[k])
  {
    forall k | 0 <= k < |s| ensures HoleWithin(Paints(s)[k], s[k]) {
      assert Visible(s[k]);
    }
  }

  /** One iteration of the sweep, on the specification side: splicing out or
      replacing `kept[i]` turns the survivors of `areas[i + 1..]` into those
      of `areas[i..]`. */
  lemma SweepStep(areas: seq<Area>, i: nat, now: int, kept: seq<Area>)
    requires i < |areas| && kept == areas[..i + 1] + Survivors(areas[i + 1..], now)
    ensures i < |kept| && kept[i] == areas[i]
    ensures var u := Step(areas[i], now);
            var rest := Survivors(areas[i + 1..], now);
            && (Expired(u) ==> kept[..i] + kept[i + 1..] == areas[..i] + Survivors(areas[i..], now)
                               && Survivors(areas[i..], now) == rest)
            && (!Expired(u) ==> kept[i := u] == areas[..i] + Survivors(areas[i..], now)
                                && Reversed(Survivors(areas[i..], now)) == Reversed(rest) + [u])
  {
    var u := Step(areas[i], now);
    var rest := Survivors(areas[i + 1..], now);
    SurvivorsFrom(areas, i, now);
    assert areas[..i + 1] == areas[..i] + [areas[i]];
    SpliceFacts(areas[..i], areas[i], rest, u);
    if !Expired(u) {
      assert ([u] + rest)[1..] == rest;
    }
  }

  lemma SurvivorsFrom(areas: seq<Area>, i: nat, now: int)
    requires i < |areas|
    ensures var u := Step(areas[i], now);
            Survivors(areas[i..], now) == (if Expired(u) then [] else [u]) + Survivors(areas[i + 1..], now)
  {
    assert areas[i..][0] == areas[i] && areas[i..][1..] == areas[i + 1..];
  }

  /** Splicing out, or replacing, the element between `pre` and `rest`. */
  lemma SpliceFacts<T>(pre: seq<T>, x: T, rest: seq<T>, u: T)
    ensures var s := pre + [x] + rest;
            && |pre| < |s| && s[|pre|] == x
            && s[..|pre|] + s[|pre| + 1..] == pre + rest
            && s[|pre| := u] == pre + ([u] + rest)
  {
    var s := pre + [x] + rest;
    assert s[..|pre|] == pre && s[|pre| + 1..] == rest;
  }

  lemma {:induction false} ReversedMembers(s: seq<Area>)
    ensures |Reversed(s)| == |s|
    ensures forall x :: x in Reversed(s) <==> x in s
  {
    if s != [] {
      ReversedMembers(s[1..]);
      assert s == [s[0]] + s[1..];
    }
  }

  /** The sweep distributes over concatenation, so it never reorders areas. */
  lemma {:induction false} SurvivorsAppend(s: seq<Area>, t: seq<Area>, now: int)
    ensures Survivors(s + t, now) == Survivors(s, now) + Survivors(t, now)
    decreases |s|
  {
    if s == [] {
      assert s + t == t;
    } else {
      var head := if Expired(Step(s[0], now)) then [] else [Step(s[0], now)];
      assert (s + t)[0] == s[0] && (s + t)[1..] == s[1..] + t;
      assert Survivors(s + t, now) == head + Survivors(s[1..] + t, now);
      SurvivorsAppend(s[1..], t, now);
      assert head + (Survivors(s[1..], now) + Survivors(t, now)) == (head + Survivors(s[1..], now)) + Survivors(t, now);
    }
  }

  /** Every survivor is the one-tick successor of an area of the array that the
      tick did not expire. */
  lemma {:induction false} SurvivorOrigin(s: seq<Area>, now: int, x: Area)
    requires x in Survivors(s, now)
    ensures exists k :: 0 <= k < |s| && x == Step(s[k], now) && !Expired(x)
    decreases |s|
  {
    var u := Step(s[0], now);
    if x == u && !Expired(u) {
      assert 0 < |s| && x == Step(s[0], now);
    } else {
      assert x in Survivors(s[1..], now);
      SurvivorOrigin(s[1..], now, x);
      var k :| 0 <= k < |s[1..]| && x == Step(s[1..][k], now) && !Expired(x);
      assert x == Step(s[k + 1], now);
    }
  }

  /** Every area that the tick does not expire survives it. */
  lemma {:induction false} SurvivorKept(s: seq<Area>, now: int, k: nat)
    requires k < |s| && !Expired(Step(s[k], now))
    ensures Step(s[k], now) in Survivors(s, now)
    decreases |s|
  {
    if k > 0 {
      SurvivorKept(s[1..], now, k - 1);
    }
  }

  /** The sweep keeps every area well formed, and in particular every drawn
      area has radius in [0, maxRadius] and opacity in (0, 1]. */
  lemma SurvivorsWellFormed(s: seq<Area>, now: int)
    requires AllWellFormed(s)
    ensures AllWellFormed(Survivors(s, now))
    ensures forall x :: x in Survivors(s, now) ==> 0.0 < x.opacity <= 1.0 && 0.0 <= x.radius <= x.maxRadius
  {
    var r := Survivors(s, now);
    forall x | x in r ensures WellFormed(x) && 0.0 <= x.radius <= x.maxRadius {
      SurvivorOrigin(s, now, x);
      var k :| 0 <= k < |s| && x == Step(s[k], now) && !Expired(x);
      StepPhases(s[k], now);
    }
  }

  ghost predicate IdsAbove(s: seq<Area>, lo: int) {
    forall k :: 0 <= k < |s| ==> s[k].id > lo
  }

  /** A sweep keeps every id it keeps: bounds on the ids carry over. */
  lemma {:induction false} SurvivorIdBounds(s: seq<Area>, now: int, lo: int, hi: nat)
    requires IdsAbove(s, lo) && IdsBelow(s, hi)
    ensures IdsAbove(Survivors(s, now), lo) && IdsBelow(Survivors(s, now), hi)
    decreases |s|
  {
    if s != [] {
      SurvivorIdBounds(s[1..], now, lo, hi);
      var u := Step(s[0], now);
      assert u.id == s[0].id;
    }
  }

  /** The sweep preserves creation order: ids still strictly increase. */
  lemma {:induction false} SurvivorsIncreasing(s: seq<Area>, now: int)
    requires IdsIncreasing(s)
    ensures IdsIncreasing(Survivors(s, now))
    decreases |s|
  {
    if s != [] {
      var tail := s[1..];
      assert IdsIncreasing(tail);
      SurvivorsIncreasing(tail, now);
      var rest := Survivors(tail, now);
      assert IdsAbove(tail, s[0].id);
      assert IdsBelow(tail, s[|s| - 1].id + 1);
      SurvivorIdBounds(tail, now, s[0].id, s[|s| - 1].id + 1);
      var u := Step(s[0], now);
      assert u.id == s[0].id;
      var h := if Expired(u) then [] else [u];
      assert Survivors(s, now) == h + rest;
      ConcatIncreasing(h, rest, s[0].id);
    }
  }

  lemma ConcatIncreasing(h: seq<Area>, rest: seq<Area>, id: nat)
    requires |h| <= 1 && (forall k :: 0 <= k < |h| ==> h[k].id == id)
    requires IdsIncreasing(rest) && IdsAbove(rest, id)
    ensures IdsIncreasing(h + rest)
  {
    var r := h + rest;
    forall i, j | 0 <= i < j < |r| ensures r[i].id < r[j].id {
      assert r[j] == rest[j - |h|];
      if i >= |h| {
        assert r[i] == rest[i - |h|];
      }
    }
  }

  /** A pinned area is never removed by a sweep, and the area with a pinned
      id stays pinned. */
  lemma SurvivorsKeepPinned(s: seq<Area>, now: int, id: nat)
    requires AllWellFormed(s) && PinnedIfPresent(s, id)
    ensures PinnedIfPresent(Survivors(s, now), id)
    ensures Present(s, id) ==> Present(Survivors(s, now), id)
  {
    var r := Survivors(s, now);
    forall k | 0 <= k < |r| && r[k].id == id ensures Pinned(r[k]) {
      SurvivorOrigin(s, now, r[k]);
      var j :| 0 <= j < |s| && r[k] == Step(s[j], now) && !Expired(r[k]);
      StepPhases(s[j], now);
    }
    if Present(s, id) {
      var k :| 0 <= k < |s| && s[k].id == id;
      StepPhases(s[k], now);
      SurvivorKept(s, now, k);
      var j :| 0 <= j < |r| && r[j] == Step(s[k], now);
      assert r[j].id == id;
    }
  }

  /** Appending areas with fresh, increasing ids keeps an array well formed
      and in creation order. */
  lemma AppendFresh(s: seq<Area>, t: seq<Area>, n: nat, m: nat)
    requires AllWellFormed(s) && IdsIncreasing(s) && IdsBelow(s, n)
    requires AllWellFormed(t) && IdsIncreasing(t) && IdsBelow(t, m) && n <= m
    requires forall k :: 0 <= k < |t| ==> t[k].id >= n
    ensures AllWellFormed(s + t) && IdsIncreasing(s + t) && IdsBelow(s + t, m)
  {
    var r := s + t;
    forall i, j | 0 <= i < j < |r| ensures r[i].id < r[j].id {
      if j < |s| {
      } else if i >= |s| {
        assert r[i] == t[i - |s|] && r[j] == t[j - |s|];
      } else {
        assert r[j] == t[j - |s|];
      }
    }
  }

  /** What a sweep does to the registry invariant of one array: it stays well
      formed, in creation order and below the id counter; every linked id
      stays pinned, and a linked area that was present stays present. */
  lemma SweepKeepsInvariant<K>(s: seq<Area>, now: int, n: nat, links: map<K, nat>)
    requires AllWellFormed(s) && IdsIncreasing(s) && IdsBelow(s, n)
    requires forall i :: i in links ==> PinnedIfPresent(s, links[i])
    ensures var r := Survivors(s, now);
            && AllWellFormed(r) && IdsIncreasing(r) && IdsBelow(r, n)
            && (forall x :: x in r ==> Visible(x))
            && (forall i :: i in links ==> PinnedIfPresent(r, links[i]))
            && (forall i :: i in links && Present(s, links[i]) ==> Present(r, links[i]))
  {
    var r := Survivors(s, now);
    SurvivorsWellFormed(s, now);
    SurvivorsIncreasing(s, now);
    SurvivorIdBounds(s, now, -1, n);
    forall i | i in links ensures PinnedIfPresent(r, links[i]) && (Present(s, links[i]) ==> Present(r, links[i])) {
      SurvivorsKeepPinned(s, now, links[i]);
    }
  }

  ghost predicate Visible(x: Area) {
    0.0 < x.opacity <= 1.0 && 0.0 <= x.radius <= x.maxRadius
  }

  /** What one frame draws, the survivors of both arrays each from the back,
      consists of visible areas only. */
  lemma DrawnVisible(s: seq<Area>, t: seq<Area>)
    requires forall x :: x in s ==> Visible(x)
    requires forall x :: x in t ==> Visible(x)
    ensures forall x :: x in Reversed(s) + Reversed(t) ==> Visible(x)
  {
    ReversedMembers(s);
    ReversedMembers(t);
  }
}
