/**
 * `getPercentageDragged`: how far a drag has carried the overlay's fade,
 * as a fraction of the gap between two neighbouring snap points.
 */
module Fade {
  import opened Js
  import opened Geometry
  import opened Views

  /**
   * The offset difference the fraction is taken of: the gap above the
   * active point when it is the one just below the fade index, else the
   * gap below it.
   */
  function FadeSpan(offsets: seq<real>, i: int, isOverlaySnapPoint: bool): Float
  {
    if isOverlaySnapPoint then Sub(ToNumber(At(offsets, i + 1)), ToNumber(At(offsets, i)))
    else Sub(ToNumber(At(offsets, i)), ToNumber(At(offsets, i - 1)))
  }

  /** `getPercentageDragged(absDraggedDistance, isDraggingDown)`; `null` is `Null`. */
  function PercentageDragged(c: Config, offsets: seq<real>, active: Active, absDraggedDistance: real, isDraggingDown: bool): (r: Value<Float>)
    ensures r != Undefined
    ensures c.snapPoints.None? || c.fadeFromIndex.None? ==> r == Null
  {
    if c.snapPoints.None? || c.fadeFromIndex.None? then Null
    else
      var i := FindIndex(c.snapPoints.value, active);
      var k := c.fadeFromIndex.value;
      var isOverlaySnapPoint := i == k - 1;
      if i >= k && isDraggingDown then Val(Fin(0.0))
      else if isOverlaySnapPoint && !isDraggingDown then Val(Fin(1.0))
      else if !ShouldFade(c.snapPoints, c.fadeFromIndex, active) && !isOverlaySnapPoint then Null
      else
        var pct := Div(Fin(absDraggedDistance), Abs(FadeSpan(offsets, i, isOverlaySnapPoint)));
        Val(if isOverlaySnapPoint then Sub(Fin(1.0), pct) else pct)
  }

  /**
   * With distinct offsets and the fade index `k` past the first snap point,
   * the fade depends only on where the active point sits relative to `k`:
   * at or above `k` dragging down it is 0; just below `k` dragging up it is
   * 1; at `k` dragging up it is the dragged share of the gap between `k` and
   * the point below; just below `k` dragging down it is one minus that
   * share; anywhere else it is `null`.
   */
  lemma PercentageByPosition(c: Config, offsets: seq<real>, active: Active, absDraggedDistance: real, isDraggingDown: bool)
    requires c.snapPoints.Some? && c.fadeFromIndex.Some?
    requires Coherent(c.snapPoints.value, offsets) && Distinct(offsets)
    requires 1 <= c.fadeFromIndex.value < |offsets|
    ensures var i, k := FindIndex(c.snapPoints.value, active), c.fadeFromIndex.value;
      var gap := AbsReal(offsets[k] - offsets[k - 1]);
      var r := PercentageDragged(c, offsets, active, absDraggedDistance, isDraggingDown);
      && gap > 0.0
      && (i >= k && isDraggingDown ==> r == Val(Fin(0.0)))
      && (i == k - 1 && !isDraggingDown ==> r == Val(Fin(1.0)))
      && (i == k && !isDraggingDown ==> r == Val(Fin(absDraggedDistance / gap)))
      && (i == k - 1 && isDraggingDown ==> r == Val(Fin(1.0 - absDraggedDistance / gap)))
      && (i != k - 1 && i != k && !(i > k && isDraggingDown) ==> r == Null)
  {
    var s, k := c.snapPoints.value, c.fadeFromIndex.value;
    var i := FindIndex(s, active);
    DistinctOffsetsDistinctPoints(s, offsets);
    ShouldFadeAtFadeIndex(c.snapPoints, k, active);
    assert offsets[k] != offsets[k - 1];
  }

  /**
   * Within one gap of its snap point, the fade fraction stays between 0
   * and 1 (or is `null`).
   */
  lemma PercentageWithinUnit(c: Config, offsets: seq<real>, active: Active, absDraggedDistance: real, isDraggingDown: bool)
    requires c.snapPoints.Some? && c.fadeFromIndex.Some?
    requires Coherent(c.snapPoints.value, offsets) && Distinct(offsets)
    requires 1 <= c.fadeFromIndex.value < |offsets|
    requires 0.0 <= absDraggedDistance <= AbsReal(offsets[c.fadeFromIndex.value] - offsets[c.fadeFromIndex.value - 1])
    ensures var r := PercentageDragged(c, offsets, active, absDraggedDistance, isDraggingDown);
      r == Null || (r.Val? && r.v.Fin? && 0.0 <= r.v.r <= 1.0)
  {
    PercentageByPosition(c, offsets, active, absDraggedDistance, isDraggingDown);
    var k := c.fadeFromIndex.value;
    var gap := AbsReal(offsets[k] - offsets[k - 1]);
    assert 0.0 <= absDraggedDistance / gap <= 1.0 by {
      assert absDraggedDistance / gap * gap == absDraggedDistance;
    }
  }

  /**
   * Outside `1 <= fadeFromIndex < |offsets|` the gap is read partly outside
   * the offsets list, and the fraction comes out NaN. With fade index 0 that
   * happens dragging up from the first snap point, and dragging down from a
   * value that is not a snap point. With a fade index at or past the end it
   * happens dragging down from the last snap point (fade index equal to the
   * length), and whenever the active value is `undefined`.
   */
  lemma PercentageOutsideList(c: Config, offsets: seq<real>, active: Active, absDraggedDistance: real, isDraggingDown: bool)
    requires c.snapPoints.Some? && c.fadeFromIndex.Some?
    requires Coherent(c.snapPoints.value, offsets) && offsets != []
    ensures var i, k, n := FindIndex(c.snapPoints.value, active), c.fadeFromIndex.value, |offsets|;
      var r := PercentageDragged(c, offsets, active, absDraggedDistance, isDraggingDown);
      && (k == 0 && i == 0 && !isDraggingDown ==> r == Val(NaN))
      && (k == 0 && i == -1 && isDraggingDown ==> r == Val(NaN))
      && (k == n && i == n - 1 && isDraggingDown ==> r == Val(NaN))
      && (k >= n && active == Undefined ==> r == Val(NaN))
  {
    var s, k := c.snapPoints.value, c.fadeFromIndex.value;
    var i := FindIndex(s, active);
    if k == 0 && i == 0 {
      MatchesPointAt(s, 0, active);
    }
  }

  /**
   * `getPercentageDragged` with a fraction that cannot be computed from two
   * listed offsets reported as `null` (no fade), as it is reported whenever
   * the active point is away from the fade index. For distinct offsets NaN
   * arises only from reads outside the list.
   */
  function PercentageDraggedWithinList(c: Config, offsets: seq<real>, active: Active, absDraggedDistance: real, isDraggingDown: bool): (r: Value<Float>)
    ensures r != Val(NaN)
    ensures r != Null ==> r == PercentageDragged(c, offsets, active, absDraggedDistance, isDraggingDown)
    ensures PercentageDragged(c, offsets, active, absDraggedDistance, isDraggingDown) != Val(NaN) ==>
      r == PercentageDragged(c, offsets, active, absDraggedDistance, isDraggingDown)
  {
    var r := PercentageDragged(c, offsets, active, absDraggedDistance, isDraggingDown);
    if r == Val(NaN) then Null else r
  }

  /** The fraction over the gap below offset `j`: NaN, or within [0, 1] for a drag no longer than that gap. */
  lemma ShareOfGap(offsets: seq<real>, j: int, absDraggedDistance: real)
    requires 0.0 <= absDraggedDistance
    requires forall m :: 1 <= m < |offsets| ==> absDraggedDistance <= AbsReal(offsets[m] - offsets[m - 1])
    ensures var p := Div(Fin(absDraggedDistance), Abs(FadeSpan(offsets, j, false)));
      p == NaN || (p.Fin? && 0.0 <= p.r <= 1.0)
  {
    if 1 <= j < |offsets| {
      var gap := AbsReal(offsets[j] - offsets[j - 1]);
      assert absDraggedDistance <= gap;
      if gap != 0.0 {
        assert 0.0 <= absDraggedDistance / gap <= 1.0 by {
          assert absDraggedDistance / gap * gap == absDraggedDistance;
        }
      }
    }
  }

  /**
   * For every fade index, while the drag is no longer than any gap between
   * neighbouring offsets, the corrected fraction is `null` or within [0, 1].
   */
  lemma WithinListPercentageWithinUnit(c: Config, offsets: seq<real>, active: Active, absDraggedDistance: real, isDraggingDown: bool)
    requires 0.0 <= absDraggedDistance
    requires forall m :: 1 <= m < |offsets| ==> absDraggedDistance <= AbsReal(offsets[m] - offsets[m - 1])
    ensures var r := PercentageDraggedWithinList(c, offsets, active, absDraggedDistance, isDraggingDown);
      r == Null || (r.Val? && r.v.Fin? && 0.0 <= r.v.r <= 1.0)
  {
    if c.snapPoints.Some? && c.fadeFromIndex.Some? {
      var i := FindIndex(c.snapPoints.value, active);
      var isOverlaySnapPoint := i == c.fadeFromIndex.value - 1;
      var j := if isOverlaySnapPoint then i + 1 else i;
      assert FadeSpan(offsets, i, isOverlaySnapPoint) == FadeSpan(offsets, j, false);
      ShareOfGap(offsets, j, absDraggedDistance);
    }
  }
}
