/**
 * The values the hook derives on every render from its arguments, the
 * offsets list and the active snap point: which snap point is active, where
 * it rests, whether it is the last one and whether the overlay fades.
 */
module Views {
  import opened Js
  import opened Geometry

  /** The active snap point: `undefined`, `null` or one of the declared values. */
  type Active = Value<SnapPoint>

  /** The hook's arguments that stay fixed while the drawer is mounted. */
  datatype Config = Config(
    snapPoints: Option<seq<SnapPoint>>,
    fadeFromIndex: Option<int>,
    direction: Direction,
    fastDragSkipsToEnd: bool)

  /** `===` on the active value. */
  predicate StrictEquals(a: Active, b: Active)
  {
    match (a, b)
    case (Undefined, Undefined) => true
    case (Null, Null) => true
    case (Val(p), Val(q)) => SameValue(p, q)
    case _ => false
  }

  /** JavaScript truthiness of the active value: `0` and `""` are falsy. */
  predicate Truthy(a: Active)
  {
    match a
    case Val(Frac(f)) => f != 0.0
    case Val(Px(raw, _)) => raw != ""
    case _ => false
  }

  /** `snapPoints?.[i]`: `undefined` when the list is absent or `i` is out of range. */
  function Lookup(sps: Option<seq<SnapPoint>>, i: int): (v: Active)
    ensures v != Null
    ensures v.Val? <==> sps.Some? && 0 <= i < |sps.value|
    ensures v.Val? ==> v.v == sps.value[i]
  {
    if sps.Some? && 0 <= i < |sps.value| then Val(sps.value[i]) else Undefined
  }

  /** `offsets[i]`: `undefined` when `i` is out of range, `-1` included. */
  function At(offsets: seq<real>, i: int): (v: Value<Float>)
    ensures v != Null
    ensures v.Val? <==> 0 <= i < |offsets|
    ensures v.Val? ==> v.v == Fin(offsets[i])
  {
    if 0 <= i < |offsets| then Val(Fin(offsets[i])) else Undefined
  }

  /** `snapPoints.findIndex(sp => sp === v)`: the first match, or -1. */
  function FindIndex(sps: seq<SnapPoint>, v: Active): (k: int)
    ensures -1 <= k < |sps|
    ensures k >= 0 ==> StrictEquals(Val(sps[k]), v)
    ensures forall j :: 0 <= j < |sps| && (k == -1 || j < k) ==> !StrictEquals(Val(sps[j]), v)
  {
    if sps == [] then -1
    else if StrictEquals(Val(sps[0]), v) then 0
    else
      var k := FindIndex(sps[1..], v);
      if k == -1 then -1 else k + 1
  }

  /** `activeSnapPointIndex`: `undefined` (None) when there are no snap points. */
  function ActiveIndex(sps: Option<seq<SnapPoint>>, active: Active): (r: Option<int>)
    ensures r.Some? <==> sps.Some?
    ensures r.Some? ==> -1 <= r.value < |sps.value|
  {
    match sps
    case None => None
    case Some(s) => Some(FindIndex(s, active))
  }

  /**
   * `activeSnapPointOffset`: `null` when the index is absent or past the
   * offsets, `undefined` when it is -1, else the offset at the index.
   */
  function ActiveOffset(offsets: seq<real>, idx: Option<int>): (r: Value<Float>)
    ensures r == Null <==> idx.None? || idx.value >= |offsets|
    ensures r.Val? <==> idx.Some? && 0 <= idx.value < |offsets|
    ensures r.Val? ==> r.v == Fin(offsets[idx.value])
  {
    match idx
    case None => Null
    case Some(i) => if i < |offsets| then At(offsets, i) else Null
  }

  /** `activeSnapPoint === snapPoints?.[snapPoints.length - 1]` */
  predicate IsLastSnapPoint(sps: Option<seq<SnapPoint>>, active: Active)
  {
    match sps
    case None => StrictEquals(active, Undefined)
    case Some(s) => StrictEquals(active, Lookup(sps, |s| - 1))
  }

  /** `shouldFade` */
  predicate ShouldFade(sps: Option<seq<SnapPoint>>, fade: Option<int>, active: Active)
  {
    || (sps.Some? && |sps.value| > 0 && fade.Some? && StrictEquals(Lookup(sps, fade.value), active))
    || sps.None?
  }

  /**
   * The active value matches the snap point at `k` exactly when the lookup
   * finds the same first index for both; with distinct snap points that
   * index is `k` itself.
   */
  lemma MatchesPointAt(s: seq<SnapPoint>, k: int, active: Active)
    requires 0 <= k < |s|
    ensures StrictEquals(Val(s[k]), active) <==> FindIndex(s, active) == FindIndex(s, Val(s[k]))
    ensures 0 <= FindIndex(s, Val(s[k])) <= k
    ensures DistinctPoints(s) ==> FindIndex(s, Val(s[k])) == k
  {
    assert StrictEquals(Val(s[k]), Val(s[k]));
  }

  /**
   * With snap points present and `fadeFromIndex` inside the list, the overlay
   * fades exactly when the active index is the first index holding the fade
   * point, that is the fade index itself when the snap points are distinct.
   * With `fadeFromIndex` outside a non-empty list it fades only while the
   * active value is `undefined`; with an empty list it never fades; with no
   * snap points it always fades.
   */
  lemma ShouldFadeAtFadeIndex(sps: Option<seq<SnapPoint>>, k: int, active: Active)
    ensures sps.None? ==> ShouldFade(sps, Some(k), active)
    ensures sps.Some? && 0 <= k < |sps.value| ==>
      (ShouldFade(sps, Some(k), active) <==> ActiveIndex(sps, active) == Some(FindIndex(sps.value, Val(sps.value[k]))))
    ensures sps.Some? && 0 <= k < |sps.value| && DistinctPoints(sps.value) ==>
      (ShouldFade(sps, Some(k), active) <==> ActiveIndex(sps, active) == Some(k))
    ensures sps.Some? && |sps.value| > 0 && !(0 <= k < |sps.value|) ==>
      (ShouldFade(sps, Some(k), active) <==> active == Undefined)
    ensures sps == Some([]) ==> !ShouldFade(sps, Some(k), active)
  {
    if sps.Some? && 0 <= k < |sps.value| {
      MatchesPointAt(sps.value, k, active);
    }
  }

  /** Without `fadeFromIndex`, the overlay fades only when there are no snap points. */
  lemma ShouldFadeWithoutFadeIndex(sps: Option<seq<SnapPoint>>, active: Active)
    ensures ShouldFade(sps, None, active) <==> sps.None?
  {
  }

  /**
   * With a non-empty list, "is last" holds exactly when the active index is
   * the first index holding the last snap point.
   */
  lemma IsLastAtLastIndex(s: seq<SnapPoint>, active: Active)
    requires |s| > 0
    ensures IsLastSnapPoint(Some(s), active) <==> FindIndex(s, active) == FindIndex(s, Val(s[|s| - 1]))
    ensures DistinctPoints(s) ==> (IsLastSnapPoint(Some(s), active) <==> FindIndex(s, active) == |s| - 1)
  {
    MatchesPointAt(s, |s| - 1, active);
  }
}
