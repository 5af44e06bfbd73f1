/**
 * `snapToPoint`: moving the drawer to one of the precomputed offsets. The
 * effects it has on the page and on the caller are recorded as `Effect`s,
 * in the order the hook performs them.
 */
module Snap {
  import opened Js
  import opened Geometry
  import opened Views

  datatype Effect =
    /** `onSnapPointChange(index)` */
    | SnapPointChange(index: int)
    /** the drawer's transform is set to `offset`, with the snap transition when `animated` */
    | DrawerTransform(offset: Value<Float>, animated: bool)
    /** the overlay's opacity is set, with its opacity transition */
    | OverlayFade(opacity: real)
    /** the overlay's opacity transition is set, its opacity left as it is */
    | OverlayTransition
    /** `closeDrawer()` */
    | CloseDrawer

  /** `offsets.findIndex(o => o === d)`: the first offset equal to `d`, or -1. */
  function OffsetIndex(offsets: seq<real>, d: Value<Float>): (k: int)
    ensures -1 <= k < |offsets|
    ensures k >= 0 ==> d == Val(Fin(offsets[k]))
    ensures forall j :: 0 <= j < |offsets| && (k == -1 || j < k) ==> d != Val(Fin(offsets[j]))
  {
    if offsets == [] then -1
    else if d == Val(Fin(offsets[0])) then 0
    else
      var k := OffsetIndex(offsets[1..], d);
      if k == -1 then -1 else k + 1
  }

  /** The overlay opacity a snap to index `j` sets. */
  function SnapOpacity(offsets: seq<real>, fade: Option<int>, j: int): real
  {
    if j != |offsets| - 1 && fade != Some(j) then 0.0 else 1.0
  }

  /** What `snapToPoint(d)` does to the page and tells the caller. */
  function SnapEffects(offsets: seq<real>, fade: Option<int>, d: Value<Float>): seq<Effect>
  {
    var j := OffsetIndex(offsets, d);
    [SnapPointChange(j), DrawerTransform(d, true), OverlayFade(SnapOpacity(offsets, fade, j))]
  }

  /** The active snap point after `snapToPoint(d)`: `snapPoints?.[index]`. */
  function SnapActive(sps: Option<seq<SnapPoint>>, offsets: seq<real>, d: Value<Float>): Active
  {
    Lookup(sps, OffsetIndex(offsets, d))
  }

  /**
   * Snapping to a listed offset `d` whose first occurrence is at `j` reports
   * `j`, moves the drawer to `d`, shows the overlay fully exactly when `j` is
   * the last index or the fade index, and makes `snapPoints[j]` active.
   */
  lemma SnapToListedOffset(sps: Option<seq<SnapPoint>>, offsets: seq<real>, fade: Option<int>, j: int)
    requires 0 <= j < |offsets|
    requires forall i :: 0 <= i < j ==> offsets[i] != offsets[j]
    ensures var d := Val(Fin(offsets[j]));
      SnapEffects(offsets, fade, d) ==
        [SnapPointChange(j), DrawerTransform(d, true),
         OverlayFade(if j == |offsets| - 1 || fade == Some(j) then 1.0 else 0.0)]
    ensures SnapActive(sps, offsets, Val(Fin(offsets[j]))) == Lookup(sps, j)
  {
    assert OffsetIndex(offsets, Val(Fin(offsets[j]))) == j;
  }

  /**
   * Round trip: once the drawer has snapped to a listed offset, the active
   * snap point's offset is that offset again.
   */
  lemma SnapRoundTrip(sps: seq<SnapPoint>, offsets: seq<real>, d: real)
    requires Coherent(sps, offsets)
    requires d in offsets
    ensures ActiveOffset(offsets, ActiveIndex(Some(sps), SnapActive(Some(sps), offsets, Val(Fin(d))))) == Val(Fin(d))
  {
    var j := OffsetIndex(offsets, Val(Fin(d)));
    var a := SnapActive(Some(sps), offsets, Val(Fin(d)));
    assert a == Val(sps[j]);
    MatchesPointAt(sps, j, a);
    var k := FindIndex(sps, a);
    assert SameValue(sps[k], sps[j]);
  }

  /**
   * With all offsets different, snapping to the offset at `j` makes the
   * snap point at `j` the active one, and reports `j`.
   */
  lemma SnapLandsOnIndex(sps: seq<SnapPoint>, offsets: seq<real>, fade: Option<int>, j: int)
    requires Coherent(sps, offsets) && Distinct(offsets)
    requires 0 <= j < |sps|
    ensures ActiveIndex(Some(sps), SnapActive(Some(sps), offsets, Val(Fin(offsets[j])))) == Some(j)
    ensures SnapEffects(offsets, fade, Val(Fin(offsets[j])))[0] == SnapPointChange(j)
  {
    SnapToListedOffset(Some(sps), offsets, fade, j);
    DistinctOffsetsDistinctPoints(sps, offsets);
    MatchesPointAt(sps, j, Val(sps[j]));
  }

  /**
   * Snapping to a value that is not an offset (an `undefined` read past the
   * list, say) reports -1, writes that value as the transform, hides the
   * overlay unless the list is empty or the fade index is -1, and leaves no
   * active snap point.
   */
  lemma SnapOutsideList(sps: Option<seq<SnapPoint>>, offsets: seq<real>, fade: Option<int>, d: Value<Float>)
    requires forall j :: 0 <= j < |offsets| ==> d != Val(Fin(offsets[j]))
    ensures SnapEffects(offsets, fade, d) ==
      [SnapPointChange(-1), DrawerTransform(d, true), OverlayFade(if |offsets| == 0 || fade == Some(-1) then 1.0 else 0.0)]
    ensures SnapActive(sps, offsets, d) == Undefined
  {
  }

  /**
   * The realignment effect: while the active value is truthy and is one of
   * the snap points (at an index the offsets cover), the drawer re-snaps to
   * that point's offset. None when it does not fire.
   */
  function RealignIndex(sps: Option<seq<SnapPoint>>, offsets: seq<real>, active: Active): (r: Option<int>)
    ensures r.Some? ==> 0 <= r.value < |offsets|
  {
    if !Truthy(active) then None
    else
      var i := match sps case None => -1 case Some(s) => FindIndex(s, active);
      if i != -1 && i < |offsets| then Some(i) else None
  }

  /**
   * Realigning keeps the drawer where the active point now rests: it fires
   * exactly when the active value is truthy and found, it leaves the active
   * offset as it was, and with distinct offsets it keeps the same active
   * point and reports its index; realigning again changes nothing further.
   */
  lemma RealignConverges(s: seq<SnapPoint>, offsets: seq<real>, fade: Option<int>, active: Active)
    requires Coherent(s, offsets)
    ensures RealignIndex(Some(s), offsets, active).Some? <==> Truthy(active) && FindIndex(s, active) != -1
    ensures Truthy(active) && FindIndex(s, active) != -1 ==>
      var i := FindIndex(s, active);
      var d := Val(Fin(offsets[i]));
      var after := SnapActive(Some(s), offsets, d);
      && RealignIndex(Some(s), offsets, active) == Some(i)
      && ActiveOffset(offsets, ActiveIndex(Some(s), after)) == ActiveOffset(offsets, ActiveIndex(Some(s), active))
      && (Distinct(offsets) ==>
            && StrictEquals(after, active)
            && SnapEffects(offsets, fade, d)[0] == SnapPointChange(i)
            && RealignIndex(Some(s), offsets, after) == Some(i))
  {
    if Truthy(active) && FindIndex(s, active) != -1 {
      var i := FindIndex(s, active);
      var d := Val(Fin(offsets[i]));
      var after := SnapActive(Some(s), offsets, d);
      SnapRoundTrip(s, offsets, offsets[i]);
      if Distinct(offsets) {
        SnapLandsOnIndex(s, offsets, fade, i);
        assert after == Val(s[i]);
      }
    }
  }
}
