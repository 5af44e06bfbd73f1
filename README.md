# Snap-point engine of a draggable drawer, in Dafny

This project models the snap-point engine of a draggable drawer
(`src/use-snap-points.ts`). The caller declares snap points: fractions of the
window's extent, or pixel sizes such as `"240px"`. It also gives a direction, an
optional fade index and one drag or release event at a time. From these the
engine works out:

- the pixel offset of every snap point (the resize computation);
- the active snap point, its index and its offset;
- whether the overlay fades, and by how much during a drag (`getPercentageDragged`);
- where the drawer rests when a drag ends, or whether it closes (`onRelease`);
- where the drawer follows the pointer during a drag (`onDrag`).

Modules, one per part of the hook:

- `Js` (js.dfy): the JavaScript values involved. `Option` stands for an omitted
  argument. `Value<T>` is `undefined | null | T`. `Float` is a number:
  NaN, ±Infinity, or a finite value held as an exact `real`. It also gives `-`,
  `+`, `/`, `Math.abs` and `<` with their NaN and Infinity rules.
- `Geometry` (geometry.dfy): directions, snap points (`Frac(f)` or
  `Px(raw, px)`, where `px` is what `parseInt` reads from `raw` and comparison
  is on `raw`), and the offset computation.
- `Views` (views.dfy): `===` on snap points, `findIndex`, the active index and
  offset, `isLastSnapPoint` and `shouldFade`.
- `Snap` (snap.dfy): `snapToPoint` and the realignment rule. Their effects are
  `Effect` values: `onSnapPointChange`, drawer transform, overlay opacity,
  overlay transition, and `closeDrawer`.
- `Fade` (fade.dfy): `getPercentageDragged`.
- `Release` (release.dfy): the closest-offset `reduce` and the ordered
  decision of `onRelease` (`Decide`). The release ends as a returned
  "was dragged" flag or as a thrown TypeError.
- `Drag` (drag.dfy): `onDrag`.
- `Engine` (engine.dfy): the class `SnapPointEngine`. Its fields are the
  offsets list, the active snap point and the log of effects performed so far.
  Each entry point is a method: `OnResize`, `SetActiveSnapPoint`,
  `SnapToPoint`, `Realign`, `OnRelease` (with `Flick` for the two fast-flick
  rules and `Settle` for the rules after them) and `OnDrag`. Each method's postcondition ties the new state
  to the pure definitions above.

Parameters stand in for what the hook reads from its surroundings:

- the window extent at resize time (`OnResize`) and at release time (`dim`);
- `VELOCITY_THRESHOLD` (`velocityThreshold`);
- the caller's `closeDrawer` and `onSnapPointChange`, which become `Effect`s
  in the log.

Behaviours of the code worth knowing, all of which the model keeps:

- At a release, when the active point is just below the fade index, the code
  sets the overlay's animated opacity transition (lines 171-175). The effect is
  `OverlayTransition`.
- The closest-offset `reduce` has no initial value. It runs before the
  single-step rule, so a release with no offsets that gets past the fast
  flicks throws. The model returns `Threw`.
- The only test `onDrag` makes on the active offset is `=== null`
  (line 226). An `undefined` offset (the active value is not a snap point)
  gets past it, and the clamp's comparisons with NaN are false, so a NaN
  transform is written.
- `shouldFade` compares values, not indices. With a fade index outside a
  non-empty list it holds while the active value is `undefined`. With an empty
  list it never holds (line 83).
- The realignment (line 139) goes through `snapToPoint`, which always writes
  the animated transform transition, even though the comment at line 138 says
  it should not animate. `Realign` records `DrawerTransform(d, true)`.
- `offsets[-1]` (line 208, at the first point dragging down in a drawer that is
  not dismissible) snaps to `undefined`. That reports index -1 and clears the
  active snap point. A further quick drag down then reads `offsets[-2]` with
  the same result (`VelocityStepDown`).
- `isNegetiveDirection` (line 56) is imported from a helper whose definition
  is not part of this model. It is taken to hold for bottom and right drawers,
  so their offsets are `windowSize - size`. That is the only reading under which
  the rest of the hook is consistent. The release position (lines 163-166),
  the single-step rule (lines 199-208) and the drag clamp against the "biggest"
  last snap point (lines 232-238) all treat a bottom/right drawer's offsets as
  shrinking while it opens (`OffsetsOrder`, `DragStaysWithinLastSnapPoint`).

## Model

| member | source | states |
|---|---|---|
| Geometry.OffsetOf | src/use-snap-points.ts:52-56 | the offset maps back to the drawer size at the snap point: `windowSize - offset` for bottom/right, `offset + windowSize` for top/left |
| Geometry.Offsets | src/use-snap-points.ts:47-58 | the map yields exactly one offset per snap point, entry i being snap point i's offset |
| Geometry.SnapPointOffsets | src/use-snap-points.ts:47-58 | as long as the snap points, or empty when they are absent, entry by entry the snap point's offset |
| Geometry.OffsetsOrder | src/use-snap-points.ts:47-58 | a larger snap point has a smaller offset for bottom/right and a larger one for top/left, and different sizes give different offsets |
| Geometry.FractionMatchesPixels | src/use-snap-points.ts:52 | a fraction and a pixel size equal to fraction × window give the same offset |
| Geometry.ResizeIsCoherent | src/use-snap-points.ts:47-62 | the offsets computed on resize agree wherever two snap points are `===` |
| Views.Lookup | src/use-snap-points.ts:127 | `snapPoints?.[i]` is the i-th snap point when present and in range, `undefined` otherwise, never `null` |
| Views.At | src/use-snap-points.ts:96 | `offsets[i]` is the i-th offset when in range, `undefined` otherwise (index -1 included) |
| Views.FindIndex | src/use-snap-points.ts:89-92 | the first index whose snap point is `===` the value, or -1 when none is |
| Views.ActiveIndex | src/use-snap-points.ts:89-92 | the active index is absent exactly when the snap points are, and otherwise lies in -1 .. length-1 |
| Views.ActiveOffset | src/use-snap-points.ts:94-101 | `null` when the index is absent or not below the offsets' length, the offset at the index when it is in range, and `undefined` for -1 |
| Views.Truthy | src/use-snap-points.ts:133 | the truthiness test the realignment applies: `undefined`, `null`, `0` and `""` are falsy (its use is stated by `Snap.RealignConverges`) |
| Views.IsLastSnapPoint | src/use-snap-points.ts:76-79 | `activeSnapPoint === snapPoints?.[length - 1]`, with `|| null` as false (its meaning is stated by `Views.IsLastAtLastIndex`) |
| Views.ShouldFade | src/use-snap-points.ts:81-87 | the `shouldFade` expression (its meaning is stated by `Views.ShouldFadeAtFadeIndex` and `Views.ShouldFadeWithoutFadeIndex`) |
| Views.MatchesPointAt | src/use-snap-points.ts:89-92 | the active value is `===` the k-th snap point iff both are first found at the same index; that index is at most k, and is k when the points are distinct |
| Views.ShouldFadeAtFadeIndex | src/use-snap-points.ts:81-87 | always true without snap points; with the fade index in the list, true iff the active index is where the fade point is first found (the fade index itself for distinct points); with it outside a non-empty list, true iff the active value is `undefined`; with an empty list, false |
| Views.ShouldFadeWithoutFadeIndex | src/use-snap-points.ts:81-87 | without a fade index the overlay fades iff there are no snap points |
| Views.IsLastAtLastIndex | src/use-snap-points.ts:76-79 | "is last" holds iff the active index is where the last snap point is first found, the last index for distinct points |
| Snap.OffsetIndex | src/use-snap-points.ts:105 | the first offset strictly equal to the target, or -1 when the target matches none |
| Snap.SnapOpacity | src/use-snap-points.ts:112-125 | the opacity a snap writes: 1 at the last index or the fade index, else 0 (stated by `Snap.SnapToListedOffset` and `Snap.SnapOutsideList`) |
| Snap.SnapEffects | src/use-snap-points.ts:103-125 | `onSnapPointChange`, the animated transform and the overlay opacity, in that order (stated by `Snap.SnapToListedOffset` and `Snap.SnapOutsideList`) |
| Snap.SnapActive | src/use-snap-points.ts:127 | the new active point `snapPoints?.[index]` (stated by `Snap.SnapRoundTrip` and `Snap.SnapLandsOnIndex`) |
| Snap.SnapToListedOffset | src/use-snap-points.ts:103-127 | snapping to a listed offset first found at j reports j, sets the transform to it, sets overlay opacity 1 iff j is the last index or the fade index (else 0), and makes `snapPoints[j]` active |
| Snap.SnapRoundTrip | src/use-snap-points.ts:103-127 | after snapping to any listed offset, the active snap point's offset is that offset again |
| Snap.SnapLandsOnIndex | src/use-snap-points.ts:103-127 | with distinct offsets, snapping to offset j makes snap point j active and reports j |
| Snap.SnapOutsideList | src/use-snap-points.ts:105-127 | snapping to a value that is not an offset reports -1, writes that value, sets opacity 0 unless the list is empty or the fade index is -1, and leaves the active value `undefined` |
| Snap.RealignIndex | src/use-snap-points.ts:132-142 | the realignment fires only on an index inside the offsets list |
| Snap.RealignConverges | src/use-snap-points.ts:132-142 | realignment fires iff the active value is truthy and found; it keeps the active offset, and with distinct offsets keeps the active point, reports its index and fires again on the same index |
| Fade.PercentageDragged | src/use-snap-points.ts:245-276 | never `undefined`; `null` whenever the snap points or the fade index are absent |
| Fade.PercentageByPosition | src/use-snap-points.ts:245-276 | with distinct offsets and fade index k ≥ 1: 0 at or above k dragging down; 1 just below k dragging up; at k dragging up the dragged share of the gap between k-1 and k; just below k dragging down one minus that share; `null` elsewhere |
| Fade.PercentageWithinUnit | src/use-snap-points.ts:262-272 | within one gap of the fade boundary the fraction stays in [0, 1] (or is `null`) |
| Fade.PercentageOutsideList | src/use-snap-points.ts:262-269 | with fade index 0, or at or past the end of the list, the gap is read partly outside the offsets and the fraction is NaN: fade index 0 dragging up from the first point or down from a non-point; fade index equal to the length dragging down from the last point; fade index at or past the end with the active value `undefined` |
| Fade.PercentageDraggedWithinList | src/use-snap-points.ts:245-276 | the fraction with NaN reported as `null`: never NaN, and otherwise equal to `getPercentageDragged` |
| Fade.WithinListPercentageWithinUnit | src/use-snap-points.ts:245-276 | for every fade index, while the drag is no longer than any gap between neighbouring offsets, the corrected fraction is `null` or within [0, 1] |
| Release.ClosestFromIsFirstNearest | src/use-snap-points.ts:189-193 | each `reduce` step keeps a value that is nearest to the position and earlier than every equally near one |
| Release.ClosestIsFirstNearest | src/use-snap-points.ts:189-193 | the closest offset minimises the distance to the current position over the non-empty list, and is the earliest on a tie |
| Release.ClosestFrom | src/use-snap-points.ts:189-193 | one `reduce` step onward: the result is the running value or one of the remaining offsets |
| Release.Closest | src/use-snap-points.ts:189-193 | the `reduce` without initial value returns one of the offsets (nearest and earliest by `Release.ClosestIsFirstNearest`) |
| Release.CurrentPosition | src/use-snap-points.ts:163-166 | the active offset (`?? 0`) moved against the drag for bottom/right drawers and with it for top/left (used by `Release.SlowDragSnapsToNearest`) |
| Release.Decide | src/use-snap-points.ts:159-222 | the rules of `onRelease` in order; does nothing exactly without a fade index; only snaps to a listed offset or to `undefined`; throws only on an empty offsets list or absent snap points |
| Release.ReleaseEffects | src/use-snap-points.ts:171-219 | the effects of `onRelease` in order; `closeDrawer` is called exactly when the decision dismisses and `onSnapPointChange` exactly when it snaps |
| Release.ReleaseActive | src/use-snap-points.ts:177-219 | after a release the active point is unchanged, `undefined`, or one of the declared snap points |
| Release.ReleaseReturnValue | src/use-snap-points.ts:159-222 | returns false iff the fade index is absent or the tap test is reached and holds, and then nothing snaps or closes (nothing at all without a fade index); throws iff no flick fires and the offsets are empty, or the step rule reads the length of absent snap points; true otherwise |
| Release.ReleaseRestoresOverlayTransition | src/use-snap-points.ts:167-175 | the overlay transition is written first, and only, when the active point is just below the fade index |
| Release.FastFlickDown | src/use-snap-points.ts:177-181 | a fast flick down returns true; it closes a dismissible drawer without changing the active point, else rests at the first offset (index 0 for distinct offsets), or at `undefined` when there are no offsets |
| Release.FastFlickUp | src/use-snap-points.ts:183-186 | a fast flick up with snap points present returns true and rests at the last offset (the last index for distinct offsets) |
| Release.VelocityStepUp | src/use-snap-points.ts:197-211 | a quick short drag up returns true and rests one index higher, or stays on the last index |
| Release.VelocityStepDown | src/use-snap-points.ts:197-211 | a quick short drag down returns true and rests one index lower; at index 0 it closes a dismissible drawer, and otherwise reads `offsets[-1]`, reports -1 and clears the active point; from a value that is not a snap point it reads `offsets[-2]` with the same result |
| Release.SlowDragSnapsToNearest | src/use-snap-points.ts:188-218 | a slow drag of more than 5 px returns true and rests at an offset nearest the release position, the earliest on a tie (that index, for distinct offsets) |
| Release.UndecidedReleaseCountsAsDrag | src/use-snap-points.ts:213-222 | a release that fails the tap test but moved at most 5 px returns true and moves nothing |
| Drag.DragProjection | src/use-snap-points.ts:225-243 | from a resting offset the drawer follows the pointer to exactly offset ∓ distance unless that passes the last offset, when nothing is written; `null` offset: no write; `undefined` offset: NaN |
| Drag.DragWithoutOffsets | src/use-snap-points.ts:225-243 | with no offsets yet nothing is written, except NaN when the active value is not a snap point |
| Drag.DragTransform | src/use-snap-points.ts:225-243 | the transform `onDrag` writes, if any; a finite one never lies past the last offset |
| Drag.DragStaysWithinLastSnapPoint | src/use-snap-points.ts:232-238 | with the offsets a resize computes, a drag never shows more of the drawer than the last snap point does |
| Engine.SnapPointEngine.constructor | src/use-snap-points.ts:35-41 | starts with no offsets and no effects; the active point is the one passed in, else the first declared snap point |
| Engine.SnapPointEngine.SetActiveSnapPoint | src/use-snap-points.ts:35-39 | the active point becomes the given value and nothing else changes |
| Engine.SnapPointEngine.OnResize | src/use-snap-points.ts:44-64 | the offsets become the resize computation for the new window extent, coherent with the snap points |
| Engine.SnapPointEngine.SnapToPoint | src/use-snap-points.ts:103-130 | appends the snap's three effects in order and sets the active point as `snapToPoint` does |
| Engine.SnapPointEngine.Realign | src/use-snap-points.ts:132-142 | re-snaps to the active point's offset exactly when the realignment fires, else changes nothing |
| Engine.SnapPointEngine.OnRelease | src/use-snap-points.ts:144-223 | returns, logs and re-activates exactly what the ordered release decision prescribes |
| Engine.SnapPointEngine.Flick | src/use-snap-points.ts:177-186 | when a fast flick fires, performs the decision's outcome: dismissal, the first offset, or the last offset |
| Engine.SnapPointEngine.Settle | src/use-snap-points.ts:188-222 | past the flick rules, performs the decision's outcome: throw on empty offsets, single step, tap, nearest offset, or nothing |
| Engine.SnapPointEngine.OnDrag | src/use-snap-points.ts:225-243 | appends the projected transform (without transition) when there is one, else nothing |

## Findings

| source | as written | input that shows it | evidently intended | confidence | as-written member | corrected member |
|---|---|---|---|---|---|---|
| src/use-snap-points.ts:262-269 | the gap is read at `targetSnapPointIndex ± 1` without a range check, so the overlay fraction is NaN | `fadeFromIndex` 0 with the drawer at the first snap point, dragging up (`offsets[0] - offsets[-1]`); or `fadeFromIndex` equal to the number of snap points with the drawer at the last one, dragging down | no fade (`null`) when there is no neighbouring offset to fade towards, and a fraction within [0, 1] otherwise | medium, not executed | Fade.PercentageOutsideList | Fade.WithinListPercentageWithinUnit |

The corrected fraction is `Fade.PercentageDraggedWithinList`. No other part of
the model consumes the fraction.

## Left out

- React scheduling: `useLayoutEffect`/`useEffect` dependency tracking, `useMemo` caching and the `triggerRefresh` state. The derived values are recomputed from the fields on every read, and the realignment effect is an explicit `Realign` call.
- The resize listener and its 100 ms debounce (another library's timer). `OnResize` is called explicitly, with the window extent as its argument.
- The `typeof window` test (line 53). It cannot fail, because line 45 has already read `window`.
- Reads of `window.innerHeight`/`innerWidth`, and the helpers `isVertical` and `isNegetiveDirection`. `isVertical` only chooses which extent is read, and the extents are parameters. `isNegetiveDirection` is re-derived: bottom/right are the negative directions, for the reason given above.
- CSS strings and the `set` helper. Only the transform value, the opacity value and which transition was written are recorded, not the easing curve or the duration.
- `useControllableState` and the `activeSnapPointProp` argument. The active point is one field with a setter. The realignment tests `activeSnapPoint || activeSnapPointProp`, which reduces to the active value when the owner keeps the two equal. The initial value is the prop when one is given, else `snapPoints?.[0]`.
- Changing the hook's arguments (snap points, fade index, direction) while mounted. They are fixed per `SnapPointEngine`.
- Floating-point rounding and the sign of zero. Finite numbers are exact reals. A `fadeFromIndex` that is not an integer, or a snap point that is NaN, is not represented.
- `parseInt` is not modelled. Its result is the `px` field of a `Px` snap point, and lemmas that need two equal strings to parse alike say so (`ParsedAlike`, `Coherent`).
- A pixel string that `parseInt` cannot read gives NaN and a NaN offset in the source. `px: int` cannot represent it, so the model assumes every pixel snap point parses.
- `isLastSnapPoint` is `true` or `null` in the source. It is a boolean here, with `null` as false.
- The union type in src/dialog-props.ts:1-9 (a fade index implies snap points) is not imposed. The model also covers a fade index without snap points.
- Release.VelocityStepUp: stated only for pairwise distinct offsets, because with two snap points at the same offset `findIndex` lands on the earlier one and the step can stall.
- Release.VelocityStepDown: stated only for pairwise distinct offsets, for the same reason.
- Release.FastFlickUp, Release.SlowDragSnapsToNearest: the resting offset is stated for any offsets; the resting index only for pairwise distinct ones.
- Fade.PercentageByPosition: stated only for pairwise distinct offsets and `1 <= fadeFromIndex < |offsets|`. Outside that range the fraction can be NaN (`Fade.PercentageOutsideList`), and with equal neighbouring offsets the gap is 0.
- Fade.PercentageWithinUnit: stated only for the same range and distinct offsets. The [0, 1] bound fails outside it. `Fade.WithinListPercentageWithinUnit` states it for every fade index after NaN is read as `null`.
