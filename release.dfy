/**
 * `onRelease`: classifying the end of a drag (fast flick, quick short
 * drag, tap, slow drag) and choosing where the drawer rests or whether it
 * closes.
 */
module Release {
  import opened Js
  import opened Geometry
  import opened Views
  import opened Snap

  /** What the caller reports about the drag that just ended. */
  datatype ReleaseEvent = ReleaseEvent(
    draggedDistance: real,  // > 0 when dragged up (towards the last snap point)
    elapsedTime: real,      // milliseconds
    velocity: real,
    dismissible: bool)

  /** The step `onRelease` ends in. */
  datatype Outcome =
    | Inactive                     // no fade index: nothing happens
    | Dismiss                      // `closeDrawer()`
    | SnapTo(target: Value<Float>) // `snapToPoint(target)`
    | Tap                          // too short and quick to count as a drag
    | Held                         // counted as a drag, nothing moves
    | Fault                        // `reduce` of an empty list, or `snapPoints.length` of undefined, throws

  /** How the call ends: a returned "was dragged" flag, or a thrown TypeError. */
  datatype Completion = Returned(wasDragged: bool) | Threw

  function CompletionOf(o: Outcome): Completion
  {
    match o
    case Inactive => Returned(false)
    case Tap => Returned(false)
    case Fault => Threw
    case _ => Returned(true)
  }

  function Dist(a: real, pos: real): real
  {
    AbsReal(a - pos)
  }

  /** The `reduce` step: keep `prev` unless some later offset is strictly closer. */
  function ClosestFrom(prev: real, rest: seq<real>, pos: real): (r: real)
    decreases |rest|
    ensures r == prev || r in rest
  {
    if rest == [] then prev
    else ClosestFrom(if Dist(rest[0], pos) < Dist(prev, pos) then rest[0] else prev, rest[1..], pos)
  }

  /** `offsets.reduce(...)` without an initial value. */
  function Closest(offsets: seq<real>, pos: real): (r: real)
    requires offsets != []
    ensures r in offsets
  {
    assert offsets == [offsets[0]] + offsets[1..];
    ClosestFrom(offsets[0], offsets[1..], pos)
  }

  /** `offsets[k]` is nearest to `pos`, and every earlier offset is strictly farther. */
  predicate FirstNearest(offsets: seq<real>, pos: real, k: int)
  {
    && 0 <= k < |offsets|
    && (forall j :: 0 <= j < |offsets| ==> Dist(offsets[k], pos) <= Dist(offsets[j], pos))
    && (forall j :: 0 <= j < k ==> Dist(offsets[k], pos) < Dist(offsets[j], pos))
  }

  lemma {:induction false} ClosestFromIsFirstNearest(prev: real, rest: seq<real>, pos: real)
    decreases |rest|
    ensures exists k :: FirstNearest([prev] + rest, pos, k) && ([prev] + rest)[k] == ClosestFrom(prev, rest, pos)
  {
    var s := [prev] + rest;
    if rest == [] {
      assert FirstNearest(s, pos, 0);
    } else {
      var took := Dist(rest[0], pos) < Dist(prev, pos);
      var next := if took then rest[0] else prev;
      var s' := [next] + rest[1..];
      ClosestFromIsFirstNearest(next, rest[1..], pos);
      var k' :| FirstNearest(s', pos, k') && s'[k'] == ClosestFrom(next, rest[1..], pos);
      var k := if k' > 0 then k' + 1 else if took then 1 else 0;
      assert s[k] == s'[k'];
      forall j | 0 <= j < |s|
        ensures Dist(s[k], pos) <= Dist(s[j], pos)
      {
        if j >= 2 {
          assert s[j] == s'[j - 1];
        } else {
          assert Dist(s'[k'], pos) <= Dist(s'[0], pos);
        }
      }
      forall j | 0 <= j < k
        ensures Dist(s[k], pos) < Dist(s[j], pos)
      {
        if j >= 2 {
          assert s[j] == s'[j - 1];
        } else if k' > 0 {
          assert Dist(s'[k'], pos) < Dist(s'[0], pos);
        }
      }
      assert FirstNearest(s, pos, k);
    }
  }

  /**
   * The closest offset is the nearest one to `pos`, and among equally near
   * offsets the earliest, because the comparison is a strict `<`.
   */
  lemma ClosestIsFirstNearest(offsets: seq<real>, pos: real)
    requires offsets != []
    ensures exists k :: FirstNearest(offsets, pos, k) && offsets[k] == Closest(offsets, pos)
  {
    ClosestFromIsFirstNearest(offsets[0], offsets[1..], pos);
    assert [offsets[0]] + offsets[1..] == offsets;
  }

  /** `currentPosition`: the active offset (`?? 0`) moved by the drag, against the drawer's direction. */
  function CurrentPosition(dir: Direction, activeOffset: Value<Float>, draggedDistance: real): real
  {
    // `ActiveOffset` only yields finite values, so `??` is all there is to `base`
    var base := if activeOffset.Val? && activeOffset.v.Fin? then activeOffset.v.r else 0.0;
    if IsNegativeDirection(dir) then base - draggedDistance else base + draggedDistance
  }

  /** One of the two fast-flick rules fires: a quick flick down, or up with snap points present. */
  predicate FlickFires(c: Config, e: ReleaseEvent)
  {
    c.fastDragSkipsToEnd && e.velocity > 2.0 && (e.draggedDistance <= 0.0 || c.snapPoints.Some?)
  }

  /** The single-step rule fires, once it is reached: a fast drag shorter than 40% of the window. */
  predicate StepFires(e: ReleaseEvent, dim: real, velocityThreshold: real)
  {
    e.velocity > velocityThreshold && AbsReal(e.draggedDistance) < dim * 0.4
  }

  /** The tap test, once it is reached: under 5 pixels in under 200 milliseconds. */
  predicate TapTest(e: ReleaseEvent)
  {
    AbsReal(e.draggedDistance) < 5.0 && e.elapsedTime < 200.0
  }

  /** The active point is the one just below the fade index. */
  predicate IsOverlaySnapPoint(c: Config, active: Active)
  {
    c.fadeFromIndex.Some? && ActiveIndex(c.snapPoints, active) == Some(c.fadeFromIndex.value - 1)
  }

  /**
   * The decision `onRelease` takes, rule by rule in the order the hook
   * tries them; `dim` is the window extent read at release time. It does
   * nothing exactly when there is no fade index; it only ever snaps to one
   * of the offsets or, through a read outside the list, to `undefined`; and
   * it throws only on an empty offsets list or absent snap points.
   */
  function Decide(c: Config, offsets: seq<real>, active: Active, e: ReleaseEvent, dim: real, velocityThreshold: real): (r: Outcome)
    ensures r == Inactive <==> c.fadeFromIndex.None?
    ensures r.SnapTo? ==> r.target == Undefined || (r.target.Val? && r.target.v.Fin? && r.target.v.r in offsets)
    ensures r == Fault ==> offsets == [] || c.snapPoints.None?
  {
    if c.fadeFromIndex.None? then Inactive
    else
      var idx := ActiveIndex(c.snapPoints, active);
      var up := e.draggedDistance > 0.0;
      var flick := c.fastDragSkipsToEnd && e.velocity > 2.0;
      if flick && !up then
        (if e.dismissible then Dismiss else SnapTo(At(offsets, 0)))
      else if flick && up && c.snapPoints.Some? then
        SnapTo(At(offsets, |offsets| - 1))
      else if offsets == [] then Fault
      else if StepFires(e, dim, velocityThreshold) then
        if up && IsLastSnapPoint(c.snapPoints, active) then
          (if c.snapPoints.None? then Fault else SnapTo(At(offsets, |c.snapPoints.value| - 1)))
        else if idx == Some(0) && !up && e.dismissible then Dismiss
        // `undefined + 1` is NaN, and `offsets[NaN]` is undefined
        else SnapTo(if idx.None? then Undefined else At(offsets, idx.value + if up then 1 else -1))
      else if TapTest(e) then Tap
      else if AbsReal(e.draggedDistance) > 5.0 then
        SnapTo(Val(Fin(Closest(offsets, CurrentPosition(c.direction, ActiveOffset(offsets, idx), e.draggedDistance)))))
      else Held
  }

  function OutcomeEffects(c: Config, offsets: seq<real>, o: Outcome): seq<Effect>
  {
    match o
    case Dismiss => [CloseDrawer]
    case SnapTo(d) => SnapEffects(offsets, c.fadeFromIndex, d)
    case _ => []
  }

  /**
   * Everything `onRelease` does to the page and tells the caller, in order:
   * `closeDrawer` is called exactly when the drawer is dismissed, and
   * `onSnapPointChange` exactly when it snaps.
   */
  function ReleaseEffects(c: Config, offsets: seq<real>, active: Active, e: ReleaseEvent, dim: real, velocityThreshold: real): (r: seq<Effect>)
    ensures CloseDrawer in r <==> Decide(c, offsets, active, e, dim, velocityThreshold) == Dismiss
    ensures (exists ef :: ef in r && ef.SnapPointChange?) <==> Decide(c, offsets, active, e, dim, velocityThreshold).SnapTo?
  {
    var o := Decide(c, offsets, active, e, dim, velocityThreshold);
    if o == Inactive then []
    else
      var prefix := if IsOverlaySnapPoint(c, active) then [OverlayTransition] else [];
      var effs := prefix + OutcomeEffects(c, offsets, o);
      assert o.SnapTo? ==> effs[|prefix|] in effs && effs[|prefix|].SnapPointChange?;
      effs
  }

  /**
   * The active snap point after `onRelease`: the one before, `undefined`, or
   * one of the declared snap points.
   */
  function ReleaseActive(c: Config, offsets: seq<real>, active: Active, e: ReleaseEvent, dim: real, velocityThreshold: real): (r: Active)
    ensures r == active || r == Undefined
      || (c.snapPoints.Some? && exists j :: 0 <= j < |c.snapPoints.value| && r == Val(c.snapPoints.value[j]))
  {
    match Decide(c, offsets, active, e, dim, velocityThreshold)
    case SnapTo(d) => SnapActive(c.snapPoints, offsets, d)
    case _ => active
  }

  /** Where the drawer rests after `onRelease`, read back as the active offset. */
  function RestingOffset(c: Config, offsets: seq<real>, active: Active, e: ReleaseEvent, dim: real, velocityThreshold: real): Value<Float>
  {
    ActiveOffset(offsets, ActiveIndex(c.snapPoints, ReleaseActive(c, offsets, active, e, dim, velocityThreshold)))
  }

  /** The index the drawer rests at after `onRelease`. */
  function RestingIndex(c: Config, offsets: seq<real>, active: Active, e: ReleaseEvent, dim: real, velocityThreshold: real): Option<int>
  {
    ActiveIndex(c.snapPoints, ReleaseActive(c, offsets, active, e, dim, velocityThreshold))
  }

  /**
   * `onRelease` returns false exactly when there is no fade index, or when
   * it reaches the tap test and the test holds; then nothing snaps and
   * nothing closes, and without a fade index nothing at all happens. It
   * throws exactly when no flick fires and the offsets are empty (or the
   * snap points are absent where the step rule reads their length);
   * everywhere else it returns true.
   */
  lemma ReleaseReturnValue(c: Config, offsets: seq<real>, active: Active, e: ReleaseEvent, dim: real, velocityThreshold: real)
    ensures var r := CompletionOf(Decide(c, offsets, active, e, dim, velocityThreshold));
      r == Returned(false) <==>
        || c.fadeFromIndex.None?
        || (!FlickFires(c, e) && offsets != [] && !StepFires(e, dim, velocityThreshold) && TapTest(e))
    ensures var r := CompletionOf(Decide(c, offsets, active, e, dim, velocityThreshold));
      r == Threw <==>
        && c.fadeFromIndex.Some? && !FlickFires(c, e)
        && (|| offsets == []
            || (StepFires(e, dim, velocityThreshold) && e.draggedDistance > 0.0
                && IsLastSnapPoint(c.snapPoints, active) && c.snapPoints.None?))
    ensures CompletionOf(Decide(c, offsets, active, e, dim, velocityThreshold)) == Returned(false) ==>
      && ReleaseActive(c, offsets, active, e, dim, velocityThreshold) == active
      && forall ef :: ef in ReleaseEffects(c, offsets, active, e, dim, velocityThreshold) ==> ef == OverlayTransition
    ensures c.fadeFromIndex.None? ==> ReleaseEffects(c, offsets, active, e, dim, velocityThreshold) == []
  {
  }

  /**
   * The animated opacity transition is put back on the overlay first, and
   * only, when the active point is the one just below the fade index.
   */
  lemma ReleaseRestoresOverlayTransition(c: Config, offsets: seq<real>, active: Active, e: ReleaseEvent, dim: real, velocityThreshold: real)
    requires c.fadeFromIndex.Some?
    ensures var effs := ReleaseEffects(c, offsets, active, e, dim, velocityThreshold);
      (|effs| > 0 && effs[0] == OverlayTransition) <==> IsOverlaySnapPoint(c, active)
    ensures var effs := ReleaseEffects(c, offsets, active, e, dim, velocityThreshold);
      forall j :: 0 < j < |effs| ==> effs[j] != OverlayTransition
  {
  }

  /**
   * A fast flick down closes a dismissible drawer, and otherwise rests it
   * at the first offset (nowhere, when there are none); no later rule runs.
   */
  lemma FastFlickDown(c: Config, offsets: seq<real>, active: Active, e: ReleaseEvent, dim: real, velocityThreshold: real)
    requires c.fadeFromIndex.Some? && c.fastDragSkipsToEnd && e.velocity > 2.0 && e.draggedDistance <= 0.0
    ensures CompletionOf(Decide(c, offsets, active, e, dim, velocityThreshold)) == Returned(true)
    ensures e.dismissible ==>
      && ReleaseEffects(c, offsets, active, e, dim, velocityThreshold)
         == (if IsOverlaySnapPoint(c, active) then [OverlayTransition] else []) + [CloseDrawer]
      && ReleaseActive(c, offsets, active, e, dim, velocityThreshold) == active
    ensures !e.dismissible && c.snapPoints.Some? && Coherent(c.snapPoints.value, offsets) && offsets != [] ==>
      RestingOffset(c, offsets, active, e, dim, velocityThreshold) == Val(Fin(offsets[0]))
    ensures !e.dismissible && c.snapPoints.Some? && Coherent(c.snapPoints.value, offsets) && offsets != [] && Distinct(offsets) ==>
      RestingIndex(c, offsets, active, e, dim, velocityThreshold) == Some(0)
    ensures !e.dismissible && offsets == [] ==>
      ReleaseActive(c, offsets, active, e, dim, velocityThreshold) == Undefined
  {
    if !e.dismissible && c.snapPoints.Some? && Coherent(c.snapPoints.value, offsets) && offsets != [] {
      SnapRoundTrip(c.snapPoints.value, offsets, offsets[0]);
      if Distinct(offsets) {
        SnapLandsOnIndex(c.snapPoints.value, offsets, c.fadeFromIndex, 0);
      }
    }
  }

  /** A fast flick up with snap points present rests the drawer at the last offset. */
  lemma FastFlickUp(c: Config, offsets: seq<real>, active: Active, e: ReleaseEvent, dim: real, velocityThreshold: real)
    requires c.fadeFromIndex.Some? && c.fastDragSkipsToEnd && e.velocity > 2.0 && e.draggedDistance > 0.0
    requires c.snapPoints.Some? && Coherent(c.snapPoints.value, offsets) && offsets != []
    ensures CompletionOf(Decide(c, offsets, active, e, dim, velocityThreshold)) == Returned(true)
    ensures RestingOffset(c, offsets, active, e, dim, velocityThreshold) == Val(Fin(offsets[|offsets| - 1]))
    ensures Distinct(offsets) ==>
      RestingIndex(c, offsets, active, e, dim, velocityThreshold) == Some(|offsets| - 1)
  {
    SnapRoundTrip(c.snapPoints.value, offsets, offsets[|offsets| - 1]);
    if Distinct(offsets) {
      SnapLandsOnIndex(c.snapPoints.value, offsets, c.fadeFromIndex, |offsets| - 1);
    }
  }

  /**
   * A quick, short drag up moves one snap point up, and stays at the last
   * point when already there; an active value that is not a snap point
   * (index -1) lands on the first point.
   */
  lemma VelocityStepUp(c: Config, offsets: seq<real>, active: Active, e: ReleaseEvent, dim: real, velocityThreshold: real)
    requires c.fadeFromIndex.Some? && !FlickFires(c, e) && StepFires(e, dim, velocityThreshold)
    requires c.snapPoints.Some? && Coherent(c.snapPoints.value, offsets) && Distinct(offsets) && offsets != []
    requires e.draggedDistance > 0.0
    ensures CompletionOf(Decide(c, offsets, active, e, dim, velocityThreshold)) == Returned(true)
    ensures var i, n := FindIndex(c.snapPoints.value, active), |offsets|;
      RestingIndex(c, offsets, active, e, dim, velocityThreshold) == Some(if i == n - 1 then n - 1 else i + 1)
  {
    var s := c.snapPoints.value;
    var i := FindIndex(s, active);
    var j := if i == |s| - 1 then |s| - 1 else i + 1;
    StepUpTarget(c, offsets, active, e, dim, velocityThreshold);
    SnapLandsOnIndex(s, offsets, c.fadeFromIndex, j);
  }

  /** The offset a quick, short drag up snaps to: the next one, or the last from the last. */
  lemma StepUpTarget(c: Config, offsets: seq<real>, active: Active, e: ReleaseEvent, dim: real, velocityThreshold: real)
    requires c.fadeFromIndex.Some? && !FlickFires(c, e) && StepFires(e, dim, velocityThreshold)
    requires c.snapPoints.Some? && Coherent(c.snapPoints.value, offsets) && Distinct(offsets) && offsets != []
    requires e.draggedDistance > 0.0
    ensures var i, n := FindIndex(c.snapPoints.value, active), |offsets|;
      Decide(c, offsets, active, e, dim, velocityThreshold) == SnapTo(Val(Fin(offsets[if i == n - 1 then n - 1 else i + 1])))
  {
    var s := c.snapPoints.value;
    DistinctOffsetsDistinctPoints(s, offsets);
    IsLastAtLastIndex(s, active);
  }

  /**
   * A quick, short drag down moves one snap point down; from the first
   * point it closes a dismissible drawer, and in a drawer that is not
   * dismissible it reads `offsets[-1]` and leaves no active snap point.
   */
  lemma VelocityStepDown(c: Config, offsets: seq<real>, active: Active, e: ReleaseEvent, dim: real, velocityThreshold: real)
    requires c.fadeFromIndex.Some? && !FlickFires(c, e) && StepFires(e, dim, velocityThreshold)
    requires c.snapPoints.Some? && Coherent(c.snapPoints.value, offsets) && Distinct(offsets) && offsets != []
    requires e.draggedDistance <= 0.0
    ensures CompletionOf(Decide(c, offsets, active, e, dim, velocityThreshold)) == Returned(true)
    ensures var i := FindIndex(c.snapPoints.value, active);
      && (i >= 1 ==> RestingIndex(c, offsets, active, e, dim, velocityThreshold) == Some(i - 1))
      && (i == 0 && e.dismissible ==>
            && ReleaseActive(c, offsets, active, e, dim, velocityThreshold) == active
            && ReleaseEffects(c, offsets, active, e, dim, velocityThreshold)
               == (if IsOverlaySnapPoint(c, active) then [OverlayTransition] else []) + [CloseDrawer])
      && (i == 0 && !e.dismissible ==>
            && ReleaseActive(c, offsets, active, e, dim, velocityThreshold) == Undefined
            && OutcomeEffects(c, offsets, Decide(c, offsets, active, e, dim, velocityThreshold))[0] == SnapPointChange(-1))
      && (i == -1 ==>
            && ReleaseActive(c, offsets, active, e, dim, velocityThreshold) == Undefined
            && OutcomeEffects(c, offsets, Decide(c, offsets, active, e, dim, velocityThreshold))[0] == SnapPointChange(-1))
  {
    var s := c.snapPoints.value;
    var i := FindIndex(s, active);
    if i >= 1 {
      assert Decide(c, offsets, active, e, dim, velocityThreshold) == SnapTo(Val(Fin(offsets[i - 1])));
      SnapLandsOnIndex(s, offsets, c.fadeFromIndex, i - 1);
    } else if i == 0 && !e.dismissible {
      assert Decide(c, offsets, active, e, dim, velocityThreshold) == SnapTo(Undefined);
    } else if i == -1 {
      assert Decide(c, offsets, active, e, dim, velocityThreshold) == SnapTo(Undefined);
    }
  }

  /**
   * A slow drag of more than 5 pixels rests the drawer at the offset
   * nearest to where it was let go, the earliest such offset on a tie.
   */
  lemma SlowDragSnapsToNearest(c: Config, offsets: seq<real>, active: Active, e: ReleaseEvent, dim: real, velocityThreshold: real)
    requires c.fadeFromIndex.Some? && !FlickFires(c, e) && !StepFires(e, dim, velocityThreshold)
    requires AbsReal(e.draggedDistance) > 5.0
    requires c.snapPoints.Some? && Coherent(c.snapPoints.value, offsets) && offsets != []
    ensures CompletionOf(Decide(c, offsets, active, e, dim, velocityThreshold)) == Returned(true)
    ensures var pos := CurrentPosition(c.direction, ActiveOffset(offsets, ActiveIndex(c.snapPoints, active)), e.draggedDistance);
      exists k :: FirstNearest(offsets, pos, k)
        && RestingOffset(c, offsets, active, e, dim, velocityThreshold) == Val(Fin(offsets[k]))
        && (Distinct(offsets) ==> RestingIndex(c, offsets, active, e, dim, velocityThreshold) == Some(k))
  {
    var pos := CurrentPosition(c.direction, ActiveOffset(offsets, ActiveIndex(c.snapPoints, active)), e.draggedDistance);
    ClosestIsFirstNearest(offsets, pos);
    var k :| FirstNearest(offsets, pos, k) && offsets[k] == Closest(offsets, pos);
    SnapRoundTrip(c.snapPoints.value, offsets, offsets[k]);
    if Distinct(offsets) {
      SnapLandsOnIndex(c.snapPoints.value, offsets, c.fadeFromIndex, k);
    }
  }

  /**
   * A release that reaches the tap test without passing it, but has moved
   * 5 pixels or less, still counts as a drag and moves nothing.
   */
  lemma UndecidedReleaseCountsAsDrag(c: Config, offsets: seq<real>, active: Active, e: ReleaseEvent, dim: real, velocityThreshold: real)
    requires c.fadeFromIndex.Some? && !FlickFires(c, e) && offsets != [] && !StepFires(e, dim, velocityThreshold)
    requires !TapTest(e) && AbsReal(e.draggedDistance) <= 5.0
    ensures CompletionOf(Decide(c, offsets, active, e, dim, velocityThreshold)) == Returned(true)
    ensures ReleaseActive(c, offsets, active, e, dim, velocityThreshold) == active
    ensures forall ef :: ef in ReleaseEffects(c, offsets, active, e, dim, velocityThreshold) ==> ef == OverlayTransition
  {
  }
}
