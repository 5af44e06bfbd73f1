/**
 * `onDrag`: following the pointer with the drawer while a drag is under
 * way, without letting it go past the last (most open) snap point.
 */
module Drag {
  import opened Js
  import opened Geometry
  import opened Views

  /** The drawer at `offset` would lie beyond the last snap point's offset `last`. */
  predicate PastLast(dir: Direction, offset: real, last: real)
  {
    if IsNegativeDirection(dir) then offset < last else offset > last
  }

  /**
   * `onDrag({ draggedDistance })`: the transform it writes, or None when it
   * writes nothing. A finite transform is never past the last offset.
   */
  function DragTransform(c: Config, offsets: seq<real>, active: Active, draggedDistance: real): (r: Option<Float>)
    ensures r.Some? && r.value.Fin? ==> offsets != [] && !PastLast(c.direction, r.value.r, offsets[|offsets| - 1])
  {
    var activeOffset := ActiveOffset(offsets, ActiveIndex(c.snapPoints, active));
    if activeOffset == Null then None
    else
      var base := ToNumber(activeOffset);
      var newValue := if IsNegativeDirection(c.direction) then Sub(base, Fin(draggedDistance)) else Add(base, Fin(draggedDistance));
      var last := ToNumber(At(offsets, |offsets| - 1));
      if IsNegativeDirection(c.direction) && Less(newValue, last) then None
      else if !IsNegativeDirection(c.direction) && Less(last, newValue) then None
      else Some(newValue)
  }

  /**
   * With a resting offset `a` the drawer follows the pointer to `a ∓
   * draggedDistance` unless that lies past the last offset, in which case
   * nothing is written. With no resting offset (`null`) nothing happens; with an
   * `undefined` one (the active value is not a snap point) the transform
   * written is NaN.
   */
  lemma DragProjection(c: Config, offsets: seq<real>, active: Active, draggedDistance: real)
    requires offsets != []
    ensures var ao := ActiveOffset(offsets, ActiveIndex(c.snapPoints, active));
      var t := DragTransform(c, offsets, active, draggedDistance);
      var last := offsets[|offsets| - 1];
      && (ao == Null ==> t == None)
      && (ao == Undefined ==> t == Some(NaN))
      && (ao.Val? ==>
            var v := if IsNegativeDirection(c.direction) then ao.v.r - draggedDistance else ao.v.r + draggedDistance;
            t == if PastLast(c.direction, v, last) then None else Some(Fin(v)))
  {
  }

  /**
   * Before any offsets exist the drawer never moves, except that an active
   * value that is not a snap point reads `offsets[-1]` and writes NaN.
   */
  lemma DragWithoutOffsets(c: Config, active: Active, draggedDistance: real)
    ensures DragTransform(c, [], active, draggedDistance)
      == if ActiveIndex(c.snapPoints, active) == Some(-1) then Some(NaN) else None
  {
  }

  /**
   * With the offsets a resize computes, a drag never shows more of the
   * drawer than the last snap point does.
   */
  lemma DragStaysWithinLastSnapPoint(c: Config, windowSize: real, active: Active, draggedDistance: real)
    requires c.snapPoints.Some? && c.snapPoints.value != []
    ensures var s := c.snapPoints.value;
      var t := DragTransform(c, Offsets(s, c.direction, windowSize), active, draggedDistance);
      t.Some? && t.value.Fin? ==>
        ShownSize(c.direction, windowSize, t.value.r) <= ScalarSize(s[|s| - 1], windowSize)
  {
    var s := c.snapPoints.value;
    var offsets := Offsets(s, c.direction, windowSize);
    assert offsets[|s| - 1] == OffsetOf(s[|s| - 1], c.direction, windowSize);
  }
}
