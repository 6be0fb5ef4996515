# Hand-gesture mapper and globe region lookup

This project models the core of a browser app that drives a 3D globe and a floating panel with two hands seen by a webcam:

- `getDistance` measures the thumb-to-index pinch.
- `processHands` is the per-frame reducer. It reads one frame of hand detections.
  - The left hand sets the globe's interaction target: rotation from the palm base, scale from the pinch, clamped to [0.5, 2.5].
  - A pinching right hand drags the floating panel under the palm.
  - It also publishes the list of hands and the HUD status, `TARGET_ACQUIRED` or `SCANNING_SECTOR`.
- The globe's frame update eases toward the target. It then normalises its rotation about the vertical axis into [0, 2π) and names the facing region from the `EARTH_REGIONS` table.

Modules:

- `JsMath`: the numeric built-ins used.
  - `Math.PI` is an abstract constant in (3.14, 3.15).
  - `Math.sqrt` is a caller-supplied function constrained by `IsSqrt`.
  - JavaScript's truncating `%`, `Math.max`/`Math.min` and `MathUtils.lerp`, all over `real`.
- `Types`: the records of types.ts.
- `Constants`: the region table.
- `Scene3D`: normalisation, the `find` lookup and the globe's per-frame update (class `EarthMesh`).
- `App`: `getDistance` and `processHands`.
  - The mutable state (the interaction ref, `panelState`, `hands`, `hudState.systemStatus`) is the class `HandTracker`.
  - Its method `ProcessHands` keeps the source's loop.
  - The method is proved equal to the pure reducer `Reduce`, a fold over the hands.
  - The fold is proved equal to an independent "last detection of each kind wins" definition (`TargetAfter`, `PanelAfter`).

## Model

| member | source | states |
|---|---|---|
| JsMath.TwoPi | components/Scene3D.tsx:41-42 | one full turn `Math.PI * 2` lies in (6.28, 6.3), so it is below the table's last bound 6.3 |
| JsMath.Max | App.tsx:76 | `Math.max` is an upper bound of both arguments and equals one of them |
| JsMath.Min | App.tsx:76 | `Math.min` is a lower bound of both arguments and equals one of them |
| JsMath.Trunc | components/Scene3D.tsx:41 | the quotient used by `%` is the real rounded toward zero: within one below a non-negative value, within one above a negative one |
| JsMath.Rem | components/Scene3D.tsx:41 | `n % d` for positive `d` has the sign of `n`, magnitude below `d`, and differs from `n` by a whole multiple of `d` |
| JsMath.Lerp | components/Scene3D.tsx:33-38 | lerp gives `x` at fraction 0 and `y` at fraction 1, and stays between `x` and `y` for fractions in [0, 1] |
| JsMath.RootUnique | App.tsx:41 | a non-negative square root is unique, so `Math.sqrt` of a perfect square is its root |
| JsMath.BelowIffSquareBelow | App.tsx:84-86 | for non-negative `r` and positive `b`: `r < b` iff `r² < b²` |
| Constants.EarthRegionsShape | constants.ts:16-21 | the table `Constants.EarthRegions` (the model of `EARTH_REGIONS`, a constant) has four regions, in order PACIFIC OCEAN, ASIA / AUSTRALIA, AFRICA / EUROPE, AMERICAS. Each has min < max, each max is the next min, the first min is 0 and the last max is 6.3 > 2π |
| Constants.Ordered | constants.ts:17-20 | in a table of non-empty contiguous intervals, an earlier interval ends no later than a later one begins |
| Constants.Disjoint | constants.ts:17-20 | two entries containing the same value are the same entry |
| Constants.Covered | constants.ts:17-20 | every value between the first min and the last max lies in some entry |
| Scene3D.Normalize | components/Scene3D.tsx:41-42 | the normalised angle lies in [0, 2π) and differs from `rotation.y` by a whole number of turns |
| Scene3D.FloorModInRange | components/Scene3D.tsx:41-42 | the floor-based modulo `y - 2π⌊y/2π⌋` also lies in [0, 2π) and differs from `y` by whole turns |
| Scene3D.SameTurnUnique | components/Scene3D.tsx:41-42 | two angles in [0, 2π) that differ from one rotation by whole turns are equal |
| Scene3D.NormalizeIsFloorMod | components/Scene3D.tsx:41-42 | the truncate-then-add-a-turn normalisation equals the floor-based modulo for every real |
| Scene3D.NormalizeIdempotent | components/Scene3D.tsx:41-42 | an angle already in [0, 2π) is unchanged, and normalising twice is normalising once |
| Scene3D.FindFirst | components/Scene3D.tsx:44 | `find` with the callback `r => normalizedY >= r.min && normalizedY < r.max`, modelled by `Constants.Contains` (kept beside the table, whose lemmas use it): gives nothing iff no entry contains the value, and otherwise the first entry that does |
| Scene3D.RegionName | components/Scene3D.tsx:44 | the model of `EARTH_REGIONS.find(...)?.name`, falling back to `'UNKNOWN'`: the first match's name, `'UNKNOWN'` for an empty name or no match. It has no contract of its own; `RegionNameIsFirstMatch`, `RegionTotal` and `RegionExamples` state its properties |
| Scene3D.RegionNameIsFirstMatch | components/Scene3D.tsx:44 | the label is `'UNKNOWN'` iff no region contains the value, and otherwise the name of the first region that does |
| Scene3D.RegionTotal | components/Scene3D.tsx:44 | every value in [0, 2π) lies in exactly one region, and the label is that region's name, never `'UNKNOWN'` |
| Scene3D.RegionOfRotation | components/Scene3D.tsx:41-44 | whatever the rotation, the reported region is a real one |
| Scene3D.RegionExamples | components/Scene3D.tsx:44 | 0 gives PACIFIC OCEAN, 1.5 gives ASIA / AUSTRALIA (inclusive lower bound), 6.2 gives AMERICAS |
| Scene3D.EarthMesh.constructor | components/Scene3D.tsx:55 | the globe group is declared without rotation or scale, so it starts unrotated at scale 1 (three.js defaults) |
| Scene3D.EarthMesh.Frame | components/Scene3D.tsx:26-45 | each field eases toward the target by `delta * 5`, and the region reported is looked up from the eased, normalised rotation.y, never `'UNKNOWN'` |
| App.SquaredDistance | App.tsx:41 | the sum of the squared coordinate differences is non-negative |
| App.Distance | App.tsx:40-42 | `getDistance` is non-negative and its square is the squared distance in x and y |
| App.DistanceSymmetric | App.tsx:40-42 | `getDistance(p1, p2) == getDistance(p2, p1)` |
| App.DistanceZero | App.tsx:40-42 | the distance is 0 iff the two points agree in x and y |
| App.PinchingIffSquared | App.tsx:83-86 | the pinch test `distance < 0.05` is the same as squared distance < 0.0025 |
| App.Pinching | App.tsx:83-86 | the model of the test `getDistance(landmarks[4], landmarks[8]) < 0.05`; no contract of its own, `PinchingIffSquared` states its meaning without the square root |
| App.RotationBounds | App.tsx:65-73 | for a palm base in [0, 1]², rotation.y lies in [−2π, 2π] and rotation.x in [−π, π] |
| App.RotationMonotone | App.tsx:72-73 | both rotations are monotone in their coordinate |
| App.RotationY | App.tsx:72 | the model of `(x - 0.5) * Math.PI * 4`; no contract of its own, `RotationBounds` and `RotationMonotone` state its range and monotonicity |
| App.RotationX | App.tsx:73 | the model of `(y - 0.5) * Math.PI * 2`; no contract of its own, `RotationBounds` and `RotationMonotone` state its range and monotonicity |
| App.ScaleFor | App.tsx:76-77 | the scale lies in [0.5, 2.5]. It equals pinch·10 inside that range and saturates at each bound outside it |
| App.ScaleExamples | App.tsx:76 | pinch 0 gives 0.5, 0.2 gives 2.0, and 0.3 saturates at 2.5 |
| App.LeftTarget | App.tsx:61-77 | the target one left hand writes: rotation.x and rotation.y from landmark 9, scale from the landmark 4 to 8 pinch. No contract of its own; `ScaleFor`, `RotationBounds` and `FoldTarget` state its properties |
| App.PanelX | App.tsx:89-95 | the model of `(1 - landmarks[9].x) * window.innerWidth - 128`; no contract of its own, `PanelWithinViewport` states its properties |
| App.PanelY | App.tsx:90-96 | the model of `landmarks[9].y * window.innerHeight - 50`; no contract of its own, `PanelWithinViewport` states its properties |
| App.PanelWithinViewport | App.tsx:89-96 | for a palm base in the image and a non-negative viewport, the panel lies in [−128, W − 128] × [−50, H − 50], and the mirroring sends image x 0 to W − 128 and image x 1 to −128 |
| App.LandmarkSets | App.tsx:51 | the model of the guard `results && results.landmarks`: the landmark sets, or none when either is absent. No contract of its own; `HandsOf` and `EmptyFrame` state its effect |
| App.HandAt | App.tsx:53-54 | the hand pushed for one landmark set has landmarks 4, 8 and 9 |
| App.HandsOf | App.tsx:51-54 | one readable hand per landmark set, and none when the results or their landmarks are absent |
| App.LastOf | App.tsx:52-103 | the last detection of a side: none iff there is no such detection, otherwise one of that side with none of that side after it |
| App.LastGrip | App.tsx:80-98 | the last pinching right hand: none iff there is no such hand, otherwise one with none after it |
| App.ApplyHand | App.tsx:52-102 | the `forEach` body for one hand: a `Left` hand writes `LeftTarget`; a `Right` hand that pinches moves the panel, sets dragging and sets `isPinchingRight`; one that does not pinch only clears dragging. No contract of its own; the `Fold…` lemmas state its effect over a frame |
| App.ApplyHands | App.tsx:52-103 | the `forEach` over the hands, in input order. No contract of its own; `ApplyHandsLastWins` proves it equal to "the last detection of each kind wins" |
| App.FoldTarget | App.tsx:52-78 | after the loop, the interaction target is the last left hand's, or the one before the frame |
| App.FoldDragging | App.tsx:80-102 | after the loop, the drag flag is whether the last right hand pinches, or the flag before the frame |
| App.FoldPosition | App.tsx:86-98 | after the loop, the panel sits under the last pinching right hand, or where it was; `isPinchingRight` is set iff such a hand exists |
| App.ApplyHandsLastWins | App.tsx:52-103 | the in-order loop equals "the last detection of each kind wins" for target, panel and pinch flag |
| App.Reduce | App.tsx:44-119 | the model of `processHands` as a function of the state before the frame: the fold, then the release at lines 107-110 (using the drag flag from before the frame), then the status. No contract of its own; `ReduceTarget`, `ReduceKeepsScaleInRange`, `ReducePanel`, `ReduceHandsAndStatus` and `EmptyFrame` state what it promises, and `HandTracker.ProcessHands` is proved equal to it |
| App.ReduceTarget | App.tsx:61-78 | the target after a frame is the last left hand's; a frame without a left hand leaves rotation and scale exactly as they were |
| App.ReduceKeepsScaleInRange | App.tsx:76-77 | a scale in [0.5, 2.5] stays in [0.5, 2.5] after any frame |
| App.ReducePanel | App.tsx:80-110 | the panel's position comes from the last pinching right hand, or stays. It is dragging after the frame iff the frame's last right hand pinches, so a frame with no pinch ends any drag |
| App.ReduceHandsAndStatus | App.tsx:51-54 | the hands list has one entry per landmark set, in order, with the handedness and score of the same index; the status is `TARGET_ACQUIRED` iff the list is non-empty, otherwise `SCANNING_SECTOR` |
| App.EmptyFrame | App.tsx:106-117 | a frame with no detections (null results included) keeps target and position, ends any drag, shows no hands and `SCANNING_SECTOR` |
| App.PinchThresholdExamples | App.tsx:84-101 | a right hand pinching at 0.03 drags the panel to ((1−0.3)·W − 128, 0.4·H − 50); at exactly 0.05 it releases the panel where it was |
| App.TwoHandsExample | App.tsx:44-119 | a left hand at (0.5, 0.5) with pinch 0.1 and a right hand at (0.3, 0.4) with pinch 0.02 give rotation (0, 0), scale 1, a dragged panel at (0.7·W − 128, 0.4·H − 50), two hands and `TARGET_ACQUIRED` |
| App.HandTracker.constructor | App.tsx:19-37 | initial state: rotation (0, 0), scale 1, panel at (W − 300, H/2 − 100) not dragging, no hands, `INITIALIZING...` |
| App.HandTracker.ProcessHands | App.tsx:44-119 | the loop over the detections leaves exactly the state `Reduce` gives from the state before the frame, and keeps the scale in [0.5, 2.5] |

## Left out

- The vision service (`initializeVision`, `detectHands`) is external. Its per-frame output is the input `results`: an optional `DetectionResult` whose `landmarks` may be absent.
- Camera start-up, `getUserMedia`, the async `init`, the `CAMERA_ERROR` status, `onloadeddata` and the resize listener are browser I/O.
- The `requestAnimationFrame` loop is scheduling. A tick whose video is not ready (`readyState !== 4`) skips `processHands` but always reschedules, so it leaves every state of this model unchanged.
- React's rendering and batching are not modelled.
  - The `setPanelState` updaters within one call are applied in order.
  - `panelState.isDragging` at line 108 is taken as the value before the frame.
  - A stale closure that sees an older value is not captured.
- `Math.sqrt` is a parameter `sqrt` constrained by `IsSqrt` (non-negative square root). Floating-point rounding is not modelled: all arithmetic is over exact reals, and `Math.PI` is any real in (3.14, 3.15).
- `isLeftDetected` and `isRightDetected` are assigned but never read, so they are not modelled.
- The `toLocaleTimeString` timestamps in the HUD state depend on the clock and locale.
- `Types.Handedness` has only `Left` and `Right`, as types.ts declares. A detector label outside those two would be pushed into the hands list and otherwise ignored by the source; the model does not represent such labels.
- App.HandTracker.ProcessHands, App.Reduce and App.HandsOf require `App.WellFormed(results)`: every landmark set has a handedness entry with at least one category, and at least 10 landmarks, so that indices 4, 8 and 9 exist.
  - Reads that throw a `TypeError` in the source when this fails: `results.handedness[index][0].categoryName` (App.tsx:53); for a `Left` hand `landmarks[9].x` (App.tsx:65) and `landmarks[4]`/`landmarks[8]` inside `getDistance` (App.tsx:69); for a `Right` hand `landmarks[4]`/`landmarks[8]` (App.tsx:83), and `landmarks[9].x` only when it pinches (App.tsx:89).
  - The predicate is stricter than the source in one case that does not throw: a `Right` hand with 9 landmarks (indices 0-8) that does not pinch reads only landmarks 4 and 8, so the source processes it, while `WellFormed` rejects it. The detector always supplies 21 landmarks per hand, so this frame does not arise from it.
  - The throwing path is not modelled. A throw inside `processHands` leaves `loop` (App.tsx:124) before `requestAnimationFrame` (App.tsx:126), so the frame loop stops. The exception is when the `setPanelState` updaters already queued by that frame change `panelState.isDragging`: the re-render then gives `processHands` (dependency at App.tsx:119) and so `loop` (App.tsx:127) a new identity, the effect at App.tsx:128-160 runs `init` again, and its `onloadeddata` restarts the loop (App.tsx:149). By then `interactionRef` has already been changed for the earlier hands of that frame, and their `setPanelState` updaters are already queued.
- The globe's `earthRef` null guard, the glow animation (`glowRef.rotation.z`), the texture and the mesh markup are rendering only.
- HUD.tsx, FloatingPanel.tsx and SkeletonCanvas.tsx are rendering and randomness and are not part of this model.
- `onRegionUpdate` is the returned value of `Scene3D.EarthMesh.Frame`.
