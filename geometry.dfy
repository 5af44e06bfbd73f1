/**
 * Snap-point geometry: the declared snap points, the drawer's direction, and
 * the resize computation that turns each snap point into the signed pixel
 * offset the drawer is translated by when it rests there.
 */
module Geometry {
  import opened Js

  datatype Direction = Top | Bottom | Left | Right

  /**
   * `isNegetiveDirection`, whose definition is not part of this model: taken
   * to hold for bottom and right drawers. Those are the directions for which
   * the release position, the single-step rule and the drag clamp all treat
   * the offsets as shrinking while the drawer opens (the most open snap point
   * has the smallest offset), which is what `windowSize - size` gives.
   */
  predicate IsNegativeDirection(d: Direction)
  {
    d == Bottom || d == Right
  }

  /**
   * A declared snap point: a number is a fraction of the window's extent, a
   * string such as "240px" an absolute size. `px` is what `parseInt(raw, 10)`
   * reads from `raw`; comparison of snap points is on `raw`.
   */
  datatype SnapPoint = Frac(fraction: real) | Px(raw: string, px: int)

  /** `===` between two snap points. */
  predicate SameValue(a: SnapPoint, b: SnapPoint)
  {
    match (a, b)
    case (Frac(x), Frac(y)) => x == y
    case (Px(s, _), Px(t, _)) => s == t
    case _ => false
  }

  /** `parseInt` is a function: equal strings carry equal parsed sizes. */
  predicate ParsedAlike(sps: seq<SnapPoint>)
  {
    forall i, j :: 0 <= i < |sps| && 0 <= j < |sps| && SameValue(sps[i], sps[j]) ==> sps[i] == sps[j]
  }

  /** How much of the drawer shows at a snap point, in pixels. */
  function ScalarSize(sp: SnapPoint, windowSize: real): real
  {
    match sp
    case Frac(f) => windowSize * f
    case Px(_, n) => n as real
  }

  /** How much of the drawer shows when it is translated by `offset`. */
  function ShownSize(dir: Direction, windowSize: real, offset: real): real
  {
    if IsNegativeDirection(dir) then windowSize - offset else offset + windowSize
  }

  /** The drawer's translation when it rests at `sp`. */
  function OffsetOf(sp: SnapPoint, dir: Direction, windowSize: real): (o: real)
    ensures ShownSize(dir, windowSize, o) == ScalarSize(sp, windowSize)
  {
    var size := ScalarSize(sp, windowSize);
    if IsNegativeDirection(dir) then windowSize - size else size - windowSize
  }

  /** `snapPoints.map(...)`: one offset per snap point, in declaration order. */
  function Offsets(sps: seq<SnapPoint>, dir: Direction, windowSize: real): (r: seq<real>)
    ensures |r| == |sps|
    ensures forall i :: 0 <= i < |sps| ==> r[i] == OffsetOf(sps[i], dir, windowSize)
  {
    if sps == [] then [] else [OffsetOf(sps[0], dir, windowSize)] + Offsets(sps[1..], dir, windowSize)
  }

  /** `snapPoints?.map(...) ?? []` */
  function SnapPointOffsets(sps: Option<seq<SnapPoint>>, dir: Direction, windowSize: real): (r: seq<real>)
    ensures |r| == if sps.Some? then |sps.value| else 0
    ensures sps.Some? ==> forall i :: 0 <= i < |r| ==> r[i] == OffsetOf(sps.value[i], dir, windowSize)
  {
    match sps
    case None => []
    case Some(s) => Offsets(s, dir, windowSize)
  }

  /** Offsets agree wherever the snap points are `===`. */
  predicate Coherent(sps: seq<SnapPoint>, offsets: seq<real>)
  {
    && |offsets| == |sps|
    && forall i, j :: 0 <= i < |sps| && 0 <= j < |sps| && SameValue(sps[i], sps[j]) ==> offsets[i] == offsets[j]
  }

  /** No two snap points rest at the same offset. */
  predicate Distinct(offsets: seq<real>)
  {
    forall i, j :: 0 <= i < j < |offsets| ==> offsets[i] != offsets[j]
  }

  /** No two snap points are `===`. */
  predicate DistinctPoints(sps: seq<SnapPoint>)
  {
    forall i, j :: 0 <= i < j < |sps| ==> !SameValue(sps[i], sps[j])
  }

  /** Coherent offsets that are all different come from snap points that are all different. */
  lemma DistinctOffsetsDistinctPoints(sps: seq<SnapPoint>, offsets: seq<real>)
    requires Coherent(sps, offsets) && Distinct(offsets)
    ensures DistinctPoints(sps)
  {
  }

  /**
   * A larger snap point is a smaller offset for bottom/right drawers and a
   * larger one for top/left drawers, strictly so when the sizes differ.
   */
  lemma OffsetsOrder(sps: seq<SnapPoint>, dir: Direction, windowSize: real, i: int, j: int)
    requires 0 <= i < |sps| && 0 <= j < |sps|
    requires ScalarSize(sps[i], windowSize) <= ScalarSize(sps[j], windowSize)
    ensures var r := Offsets(sps, dir, windowSize);
      if IsNegativeDirection(dir) then r[j] <= r[i] else r[i] <= r[j]
    ensures var r := Offsets(sps, dir, windowSize);
      ScalarSize(sps[i], windowSize) < ScalarSize(sps[j], windowSize) ==> r[i] != r[j]
  {
  }

  /** A fraction and the pixel size it stands for give the same offset. */
  lemma FractionMatchesPixels(f: real, raw: string, px: int, dir: Direction, windowSize: real)
    requires px as real == f * windowSize
    ensures OffsetOf(Frac(f), dir, windowSize) == OffsetOf(Px(raw, px), dir, windowSize)
  {
  }

  /** The offsets a resize computes are coherent with the snap points they come from. */
  lemma ResizeIsCoherent(sps: seq<SnapPoint>, dir: Direction, windowSize: real)
    requires ParsedAlike(sps)
    ensures Coherent(sps, Offsets(sps, dir, windowSize))
  {
  }
}
