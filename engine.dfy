/**
 * The hook as one object: the offsets list it caches, the active snap point
 * it owns, and the log of everything it has done to the page and told its
 * caller. Each method is one entry point of the hook and is specified by
 * the pure definitions of the other modules.
 */
module Engine {
  import opened Js
  import opened Geometry
  import opened Views
  import opened Snap
  import opened Release
  import opened Drag

  class SnapPointEngine {
    /** The hook's arguments. */
    const config: Config
    /** `snapPointsAsOffsetsRef.current` */
    var offsets: seq<real>
    /** The active snap point, whoever owns it. */
    var active: Active
    /** The page and caller effects performed so far, oldest first. */
    var effects: seq<Effect>

    /**
     * Mounting: no offsets until the first resize; the active snap point is
     * the one passed in, or the first declared snap point when none is.
     */
    constructor (config: Config, activeSnapPointProp: Active)
      ensures this.config == config
      ensures offsets == [] && effects == []
      ensures active == if activeSnapPointProp == Undefined then Lookup(config.snapPoints, 0) else activeSnapPointProp
    {
      this.config := config;
      offsets := [];
      active := if activeSnapPointProp == Undefined then Lookup(config.snapPoints, 0) else activeSnapPointProp;
      effects := [];
    }

    /** `setActiveSnapPoint(value)` */
    method SetActiveSnapPoint(value: Active)
      modifies this`active
      ensures active == value
    {
      active := value;
    }

    /** `onResize`: recompute one offset per snap point for the given window extent. */
    method OnResize(windowSize: real)
      modifies this`offsets
      ensures offsets == SnapPointOffsets(config.snapPoints, config.direction, windowSize)
      ensures config.snapPoints.Some? && ParsedAlike(config.snapPoints.value) ==>
        Coherent(config.snapPoints.value, offsets)
    {
      offsets := SnapPointOffsets(config.snapPoints, config.direction, windowSize);
      if config.snapPoints.Some? && ParsedAlike(config.snapPoints.value) {
        ResizeIsCoherent(config.snapPoints.value, config.direction, windowSize);
      }
    }

    /** `snapToPoint(dimension)` */
    method SnapToPoint(dimension: Value<Float>)
      modifies this`active, this`effects
      ensures effects == old(effects) + SnapEffects(offsets, config.fadeFromIndex, dimension)
      ensures active == SnapActive(config.snapPoints, offsets, dimension)
    {
      var newSnapPointIndex := OffsetIndex(offsets, dimension);
      effects := effects + [SnapPointChange(newSnapPointIndex), DrawerTransform(dimension, true)];
      if newSnapPointIndex != |offsets| - 1 && config.fadeFromIndex != Some(newSnapPointIndex) {
        effects := effects + [OverlayFade(0.0)];
      } else {
        effects := effects + [OverlayFade(1.0)];
      }
      active := Lookup(config.snapPoints, newSnapPointIndex);
    }

    /** The realignment effect, run explicitly after the active value or the offsets change. */
    method Realign()
      modifies this`active, this`effects
      ensures match RealignIndex(config.snapPoints, offsets, old(active))
        case None => effects == old(effects) && active == old(active)
        case Some(i) =>
          && effects == old(effects) + SnapEffects(offsets, config.fadeFromIndex, Val(Fin(offsets[i])))
          && active == SnapActive(config.snapPoints, offsets, Val(Fin(offsets[i])))
    {
      if Truthy(active) {
        var newIndex := match config.snapPoints case None => -1 case Some(s) => FindIndex(s, active);
        if newIndex != -1 && newIndex < |offsets| {
          SnapToPoint(At(offsets, newIndex));
        }
      }
    }

    /** `onRelease(...)`, with the window extent at release time and the velocity threshold given. */
    method OnRelease(e: ReleaseEvent, dim: real, velocityThreshold: real) returns (r: Completion)
      modifies this`active, this`effects
      ensures r == CompletionOf(Decide(config, offsets, old(active), e, dim, velocityThreshold))
      ensures effects == old(effects) + ReleaseEffects(config, offsets, old(active), e, dim, velocityThreshold)
      ensures active == ReleaseActive(config, offsets, old(active), e, dim, velocityThreshold)
    {
      if config.fadeFromIndex.None? {
        return Returned(false);
      }
      var idx := ActiveIndex(config.snapPoints, active);
      var isOverlaySnapPoint := idx == Some(config.fadeFromIndex.value - 1);
      if isOverlaySnapPoint {
        effects := effects + [OverlayTransition];
      }
      if config.fastDragSkipsToEnd && e.velocity > 2.0 && (e.draggedDistance <= 0.0 || config.snapPoints.Some?) {
        r := Flick(e, dim, velocityThreshold);
      } else {
        r := Settle(e, dim, velocityThreshold);
      }
    }

    /** The two fast-flick rules of `onRelease`: down to the first offset (or closed), up to the last. */
    method Flick(e: ReleaseEvent, dim: real, velocityThreshold: real) returns (r: Completion)
      requires config.fadeFromIndex.Some?
      requires FlickFires(config, e)
      modifies this`active, this`effects
      ensures var o := Decide(config, offsets, old(active), e, dim, velocityThreshold);
        && r == CompletionOf(o)
        && effects == old(effects) + OutcomeEffects(config, offsets, o)
        && active == (if o.SnapTo? then SnapActive(config.snapPoints, offsets, o.target) else old(active))
    {
      ghost var o := Decide(config, offsets, active, e, dim, velocityThreshold);
      var hasDraggedUp := e.draggedDistance > 0.0;
      if !hasDraggedUp {
        if e.dismissible {
          assert o == Dismiss;
          effects := effects + [CloseDrawer];
        } else {
          assert o == SnapTo(At(offsets, 0));
          SnapToPoint(At(offsets, 0));
        }
      } else {
        assert o == SnapTo(At(offsets, |offsets| - 1));
        SnapToPoint(At(offsets, |offsets| - 1));
      }
      return Returned(true);
    }

    /**
     * The rules of `onRelease` that follow the fast flicks: the closest
     * offset, the single step, the tap test and the slow drag.
     */
    method Settle(e: ReleaseEvent, dim: real, velocityThreshold: real) returns (r: Completion)
      requires config.fadeFromIndex.Some?
      requires !FlickFires(config, e)
      modifies this`active, this`effects
      ensures var o := Decide(config, offsets, old(active), e, dim, velocityThreshold);
        && r == CompletionOf(o)
        && effects == old(effects) + OutcomeEffects(config, offsets, o)
        && active == (if o.SnapTo? then SnapActive(config.snapPoints, offsets, o.target) else old(active))
    {
      ghost var o := Decide(config, offsets, active, e, dim, velocityThreshold);
      var idx := ActiveIndex(config.snapPoints, active);
      var hasDraggedUp := e.draggedDistance > 0.0;
      if offsets == [] {
        assert o == Fault;
        return Threw;
      }
      var currentPosition := CurrentPosition(config.direction, ActiveOffset(offsets, idx), e.draggedDistance);
      var closestSnapPoint := Closest(offsets, currentPosition);

      if e.velocity > velocityThreshold && AbsReal(e.draggedDistance) < dim * 0.4 {
        var dragDirection := if hasDraggedUp then 1 else -1;
        if dragDirection > 0 && IsLastSnapPoint(config.snapPoints, active) {
          if config.snapPoints.None? {
            assert o == Fault;
            return Threw;
          }
          assert o == SnapTo(At(offsets, |config.snapPoints.value| - 1));
          SnapToPoint(At(offsets, |config.snapPoints.value| - 1));
        } else if idx == Some(0) && dragDirection < 0 && e.dismissible {
          assert o == Dismiss;
          effects := effects + [CloseDrawer];
        } else {
          assert o == SnapTo(if idx.None? then Undefined else At(offsets, idx.value + dragDirection));
          SnapToPoint(if idx.None? then Undefined else At(offsets, idx.value + dragDirection));
        }
        return Returned(true);
      }

      if AbsReal(e.draggedDistance) < 5.0 && e.elapsedTime < 200.0 {
        assert o == Tap;
        return Returned(false);
      }
      if AbsReal(e.draggedDistance) > 5.0 {
        assert o == SnapTo(Val(Fin(closestSnapPoint)));
        SnapToPoint(Val(Fin(closestSnapPoint)));
        return Returned(true);
      }
      assert o == Held;
      return Returned(true);
    }

    /** `onDrag({ draggedDistance })` */
    method OnDrag(draggedDistance: real)
      modifies this`effects
      ensures effects == old(effects) +
        match DragTransform(config, offsets, active, draggedDistance)
        case None => []
        case Some(v) => [DrawerTransform(Val(v), false)]
    {
      var activeSnapPointOffset := ActiveOffset(offsets, ActiveIndex(config.snapPoints, active));
      if activeSnapPointOffset == Null {
        return;
      }
      var newValue := if IsNegativeDirection(config.direction)
        then Sub(ToNumber(activeSnapPointOffset), Fin(draggedDistance))
        else Add(ToNumber(activeSnapPointOffset), Fin(draggedDistance));
      var last := ToNumber(At(offsets, |offsets| - 1));
      if IsNegativeDirection(config.direction) && Less(newValue, last) {
        return;
      }
      if !IsNegativeDirection(config.direction) && Less(last, newValue) {
        return;
      }
      effects := effects + [DrawerTransform(Val(newValue), false)];
    }
  }
}
