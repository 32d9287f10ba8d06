/** The `FrostedGlassEffect` class: the region registry with its two area
    arrays, the links from focused inputs to their areas, the caret tracking
    state and the animation flag. One class models both copies of the
    engine; `variant` selects the coordinate frame and the editor test. */
module Engine {
  import opened Common
  import opened Regions
  import opened Sweep
  import opened PathSampler
  import opened Caret
  import opened Clicks
  import opened Overlay

  /** Identity of an input element. */
  type InputId = nat

  /** Replaces the area with id `id`, if present, by its retired form. */
  function RetireId(s: seq<Area>, id: nat): (r: seq<Area>)
    ensures |r| == |s|
    ensures forall k :: 0 <= k < |s| ==> r[k] == if s[k].id == id then Retire(s[k]) else s[k]
  {
    seq(|s|, k requires 0 <= k < |s| => if s[k].id == id then Retire(s[k]) else s[k])
  }

  /** Moves the area with id `id`, if present, to `p`. */
  function MoveId(s: seq<Area>, id: nat, p: Point): (r: seq<Area>)
    ensures |r| == |s|
    ensures forall k :: 0 <= k < |s| ==> r[k] == if s[k].id == id then MoveTo(s[k], p) else s[k]
  {
    seq(|s|, k requires 0 <= k < |s| => if s[k].id == id then MoveTo(s[k], p) else s[k])
  }

  /** The registry invariant on the two arrays, the links and the next id. */
  ghost predicate Registry(clear: seq<Area>, path: seq<Area>, links: map<InputId, nat>, n: nat)
  {
    && AllWellFormed(clear) && AllWellFormed(path)
    && IdsIncreasing(clear) && IdsIncreasing(path)
    && IdsBelow(clear, n) && IdsBelow(path, n)
    && (forall i :: i in links ==> links[i] < n && PinnedIfPresent(clear, links[i]))
    && (forall i, j :: i in links && j in links && i != j ==> links[i] != links[j])
  }

  /** Every linked area present in `before` is present in `after`. */
  ghost predicate LinksKept(before: seq<Area>, after: seq<Area>, links: map<InputId, nat>)
  {
    forall i :: i in links && Present(before, links[i]) ==> Present(after, links[i])
  }

  /** The two sweeps of one frame, `clearAreas` first: each array becomes its
      survivors, each is drawn from the back, the registry invariant holds
      of the survivors and every linked area stays present. */
  method SweepFrame(clear: seq<Area>, path: seq<Area>, links: map<InputId, nat>, n: nat, now: int)
    returns (kept: seq<Area>, keptPath: seq<Area>, drawn: seq<Area>, fills: seq<Gradient>)
    requires Registry(clear, path, links, n)
    ensures kept == Survivors(clear, now) && keptPath == Survivors(path, now)
    ensures drawn == Reversed(kept) + Reversed(keptPath)
    ensures FramePainted(drawn, fills)
    ensures Registry(kept, keptPath, links, n) && LinksKept(clear, kept, links)
  {
    var drawnClear, fillsClear, drawnPath, fillsPath;
    kept, drawnClear, fillsClear := SweepArray(clear, now);
    keptPath, drawnPath, fillsPath := SweepArray(path, now);
    SweepKeepsInvariant(clear, now, n, links);
    SweepKeepsInvariant<InputId>(path, now, n, map[]);
    FrameDrawn(kept, keptPath);
    drawn, fills := drawnClear + drawnPath, fillsClear + fillsPath;
  }

  class FrostedGlassEffect {
    const variant: Variant
    /** Click and input-focus areas (`clearAreas`). */
    var clearAreas: seq<Area>
    /** Caret-trail areas (`cursorPathAreas`). */
    var cursorPathAreas: seq<Area>
    var isAnimating: bool
    var lastCursorPos: Option<Point>
    /** Blur strength of the overlay (plugin only). */
    var blurStrength: real
    /** The `_clearArea` property of each input element, as the id of its area. */
    var links: map<InputId, nat>
    /** The id the next created area gets. */
    var nextId: nat

    /** Every area is well formed, each array is in creation order, ids are
        fresh, every link names a distinct id and an area it names is pinned. */
    ghost predicate Valid()
      reads this
    {
      Registry(clearAreas, cursorPathAreas, links, nextId)
    }

    /** The constructor, through `init`, starts the animation loop: its first
        frame sweeps the still empty arrays. */
    constructor (variant: Variant, blurStrength: real, now: int)
      ensures Valid() && this.variant == variant && this.blurStrength == blurStrength
      ensures clearAreas == [] && cursorPathAreas == [] && isAnimating
      ensures lastCursorPos == None && links == map[]
    {
      this.variant := variant;
      this.blurStrength := blurStrength;
      clearAreas := [];
      cursorPathAreas := [];
      isAnimating := false;
      lastCursorPos := None;
      links := map[];
      nextId := 0;
      new;
      var _ := StartAnimation(now);
    }

    /** `createClearArea`: appends one click area. */
    method CreateClearArea(p: Point, now: int)
      requires Valid()
      modifies this
      ensures Valid()
      ensures clearAreas == old(clearAreas) + [ClickArea(old(nextId), p, now)]
      ensures nextId == old(nextId) + 1
      ensures cursorPathAreas == old(cursorPathAreas) && links == old(links)
      ensures lastCursorPos == old(lastCursorPos) && isAnimating == old(isAnimating)
      ensures blurStrength == old(blurStrength)
    {
      AppendFresh(clearAreas, [ClickArea(nextId, p, now)], nextId, nextId + 1);
      clearAreas := clearAreas + [ClickArea(nextId, p, now)];
      nextId := nextId + 1;
    }

    /** `handleClick` (and, in the demo, the body listener's bounds check). */
    method HandleClick(ev: ClickEvent, container: Rect, now: int)
      requires Valid()
      modifies this
      ensures Valid()
      ensures var p := ClickPoint(variant, ev, container);
              && clearAreas == old(clearAreas) + (if p.Some? then [ClickArea(old(nextId), p.value, now)] else [])
              && nextId == old(nextId) + (if p.Some? then 1 else 0)
      ensures cursorPathAreas == old(cursorPathAreas) && links == old(links)
      ensures lastCursorPos == old(lastCursorPos) && isAnimating == old(isAnimating)
      ensures blurStrength == old(blurStrength)
    {
      var p := ClickPoint(variant, ev, container);
      if p.Some? {
        CreateClearArea(p.value, now);
      }
    }

    /** `handleInputFocus`: appends a pinned area at the caret and links the
        input to it. A link the input already had is overwritten; the area it
        named is left as it is, pinned. */
    method HandleInputFocus(input: InputId, m: CaretMeasure, container: Rect, now: int)
      requires Valid()
      modifies this
      ensures Valid()
      ensures clearAreas == old(clearAreas) + [FocusArea(old(nextId), FocusPoint(variant, m, container), now)]
      ensures links == old(links)[input := old(nextId)]
      ensures nextId == old(nextId) + 1
      ensures cursorPathAreas == old(cursorPathAreas)
      ensures lastCursorPos == old(lastCursorPos) && isAnimating == old(isAnimating)
      ensures blurStrength == old(blurStrength)
    {
      var p := FocusPoint(variant, m, container);
      var area := FocusArea(nextId, p, now);
      ghost var s := clearAreas + [area];
      var newLinks := links[input := nextId];
      AppendFresh(clearAreas, [area], nextId, nextId + 1);
      forall i | i in newLinks ensures PinnedIfPresent(s, newLinks[i]) {
        if i != input {
          assert newLinks[i] == links[i] < nextId;
        }
      }
      links := newLinks;
      clearAreas := clearAreas + [area];
      nextId := nextId + 1;
    }

    /** `handleInputBlur`: the area linked to the input, if any, is forced to
        fade at the accelerated speed and the link is dropped. */
    method HandleInputBlur(input: InputId)
      requires Valid()
      modifies this
      ensures Valid()
      ensures input in old(links) ==> clearAreas == RetireId(old(clearAreas), old(links)[input])
      ensures input !in old(links) ==> clearAreas == old(clearAreas)
      ensures links == old(links) - {input}
      ensures cursorPathAreas == old(cursorPathAreas) && nextId == old(nextId)
      ensures lastCursorPos == old(lastCursorPos) && isAnimating == old(isAnimating)
      ensures blurStrength == old(blurStrength)
    {
      if input in links {
        var id := links[input];
        var s := RetireId(clearAreas, id);
        forall i | i in links - {input} ensures PinnedIfPresent(s, links[i]) {
          assert links[i] != id;
        }
        clearAreas := s;
        links := links - {input};
      }
    }

    /** `generateCursorPathAreas`: appends the `steps + 1` trail areas from
        `start` to `end`, where `steps` is the distance divided by 15,
        rounded up. The source's only caller guarantees a distance above 5. */
    method GenerateCursorPathAreas(start: Point, end: Point, now: int)
      requires Valid() && Dist2(start, end) > 0.0
      modifies this
      ensures Valid()
      ensures var steps := StepCount(Dist2(start, end));
              && cursorPathAreas == old(cursorPathAreas) + TrailAreas(start, end, steps, old(nextId), now)
              && nextId == old(nextId) + steps + 1
      ensures clearAreas == old(clearAreas) && links == old(links)
      ensures lastCursorPos == old(lastCursorPos) && isAnimating == old(isAnimating)
      ensures blurStrength == old(blurStrength)
    {
      var steps := StepCount(Dist2(start, end));
      ghost var trail := TrailAreas(start, end, steps, nextId, now);
      var i := 0;
      while i <= steps
        invariant 0 <= i <= steps + 1
        invariant nextId == old(nextId) + i
        invariant cursorPathAreas == old(cursorPathAreas) + trail[..i]
        invariant clearAreas == old(clearAreas) && links == old(links)
        invariant lastCursorPos == old(lastCursorPos) && isAnimating == old(isAnimating)
        invariant blurStrength == old(blurStrength)
      {
        var t := (i as real) / (steps as real);
        var x := start.x + (end.x - start.x) * t;
        var y := start.y + (end.y - start.y) * t;
        var pathArea := TrailArea(nextId, Point(x, y), now);
        TrailAt(start, end, steps, old(nextId), now, i);
        assert pathArea == trail[i];
        assert trail[..i + 1] == trail[..i] + [pathArea];
        cursorPathAreas := cursorPathAreas + [pathArea];
        nextId := nextId + 1;
        i := i + 1;
      }
      assert trail[..steps + 1] == trail;
      TrailShape(start, end, steps, old(nextId), now);
      AppendFresh(old(cursorPathAreas), trail, old(nextId), nextId);
    }

    /** `updateClearAreaPosition`: nothing happens for an input without a
        link. Otherwise the linked area moves to the caret, a trail is laid if
        the caret moved more than 5 units since the last recorded position,
        and the caret position is recorded. */
    method UpdateClearAreaPosition(input: InputId, m: CaretMeasure, container: Rect, now: int)
      requires Valid()
      modifies this
      ensures Valid()
      ensures input !in old(links) ==>
                && clearAreas == old(clearAreas) && cursorPathAreas == old(cursorPathAreas)
                && lastCursorPos == old(lastCursorPos) && nextId == old(nextId)
      ensures input in old(links) ==>
                var p := FocusPoint(variant, m, container);
                && clearAreas == MoveId(old(clearAreas), old(links)[input], p)
                && lastCursorPos == Some(p)
                && if old(lastCursorPos).Some? && MovedFar(old(lastCursorPos).value, p) then
                     var steps := StepCount(Dist2(old(lastCursorPos).value, p));
                     && cursorPathAreas == old(cursorPathAreas) + TrailAreas(old(lastCursorPos).value, p, steps, old(nextId), now)
                     && nextId == old(nextId) + steps + 1
                   else cursorPathAreas == old(cursorPathAreas) && nextId == old(nextId)
      ensures links == old(links) && isAnimating == old(isAnimating)
      ensures blurStrength == old(blurStrength)
    {
      if input !in links {
        return;
      }
      var p := FocusPoint(variant, m, container);
      var id := links[input];
      var s := MoveId(clearAreas, id, p);
      assert forall k :: 0 <= k < |s| ==> s[k].id == clearAreas[k].id && Pinned(s[k]) == Pinned(clearAreas[k]);
      clearAreas := s;
      if lastCursorPos.Some? && MovedFar(lastCursorPos.value, p) {
        GenerateCursorPathAreas(lastCursorPos.value, p, now);
      }
      lastCursorPos := Some(p);
    }

    /** `drawClearAreas`: sweeps `clearAreas`, then `cursorPathAreas`, each from
        the back; returns the areas drawn, in drawing order. A linked area
        that was present is still present afterwards. */
    method DrawClearAreas(now: int) returns (drawn: seq<Area>, fills: seq<Gradient>)
      requires Valid()
      modifies this
      ensures Valid()
      ensures clearAreas == Survivors(old(clearAreas), now)
      ensures cursorPathAreas == Survivors(old(cursorPathAreas), now)
      ensures drawn == Reversed(clearAreas) + Reversed(cursorPathAreas)
      ensures FramePainted(drawn, fills)
      ensures LinksKept(old(clearAreas), clearAreas, links)
      ensures links == old(links) && nextId == old(nextId) && lastCursorPos == old(lastCursorPos)
      ensures isAnimating == old(isAnimating) && blurStrength == old(blurStrength)
    {
      var kept, keptPath;
      kept, keptPath, drawn, fills := SweepFrame(clearAreas, cursorPathAreas, links, nextId, now);
      clearAreas, cursorPathAreas := kept, keptPath;
    }

    /** `animate`: one frame, then another is requested exactly when an area
        remains or the loop has not been stopped. */
    method Animate(now: int) returns (reschedule: bool)
      requires Valid()
      modifies this
      ensures Valid()
      ensures clearAreas == Survivors(old(clearAreas), now)
      ensures cursorPathAreas == Survivors(old(cursorPathAreas), now)
      ensures reschedule <==> |clearAreas| > 0 || |cursorPathAreas| > 0 || isAnimating
      ensures isAnimating == old(isAnimating)
      ensures links == old(links) && nextId == old(nextId) && lastCursorPos == old(lastCursorPos)
      ensures blurStrength == old(blurStrength)
    {
      var _, _ := DrawClearAreas(now);
      reschedule := ShouldContinue(|clearAreas|, |cursorPathAreas|, isAnimating);
      if !reschedule {
        isAnimating := false;
      }
    }

    /** `startAnimation`: starts the loop unless it is already running. */
    method StartAnimation(now: int) returns (requested: bool)
      requires Valid()
      modifies this
      ensures Valid() && isAnimating
      ensures old(isAnimating) ==> !requested && clearAreas == old(clearAreas) && cursorPathAreas == old(cursorPathAreas)
      ensures !old(isAnimating) ==> requested && clearAreas == Survivors(old(clearAreas), now)
                                     && cursorPathAreas == Survivors(old(cursorPathAreas), now)
      ensures links == old(links) && nextId == old(nextId) && lastCursorPos == old(lastCursorPos)
      ensures blurStrength == old(blurStrength)
    {
      if !isAnimating {
        isAnimating := true;
        requested := Animate(now);
      } else {
        requested := false;
      }
    }

    /** `adjustBlurStrength`: the strength always stays within [0, 20]. */
    method AdjustBlurStrength(amount: real)
      modifies this`blurStrength
      ensures blurStrength == ClampBlur(old(blurStrength) + amount)
      ensures MinBlur <= blurStrength <= MaxBlur
    {
      blurStrength := ClampBlur(blurStrength + amount);
    }

    /** `cleanup`: stops the loop and empties both arrays. Every field it
        writes gets a constant, so a second call leaves the same state. The
        links on the input elements are not touched. */
    method Cleanup()
      requires Valid()
      modifies this
      ensures Valid()
      ensures !isAnimating && clearAreas == [] && cursorPathAreas == []
      ensures links == old(links) && nextId == old(nextId) && lastCursorPos == old(lastCursorPos)
      ensures blurStrength == old(blurStrength)
    {
      isAnimating := false;
      clearAreas := [];
      cursorPathAreas := [];
    }
  }

  /** A caller's view: a second `Cleanup` changes nothing, and once cleaned
      up the next frame does not request another. */
  method CleanupThenStop(e: FrostedGlassEffect, now: int)
    requires e.Valid()
    modifies e
    ensures e.Valid() && !e.isAnimating && e.clearAreas == [] && e.cursorPathAreas == []
  {
    e.Cleanup();
    var areas, trail, links, animating := e.clearAreas, e.cursorPathAreas, e.links, e.isAnimating;
    e.Cleanup();
    assert e.clearAreas == areas && e.cursorPathAreas == trail && e.links == links && e.isAnimating == animating;
    var again := e.Animate(now);
    assert !again;
  }
}
