/** The gesture mapper of App.tsx: `getDistance` and `processHands`, which
    turns one frame's hand detections into the globe's interaction target, the
    floating panel's position and drag flag, the list of hands drawn on the
    skeleton canvas, and the HUD's status label. */
module App {
  import opened JsMath
  import opened Types

  /** Thumb-to-index distance below which the right hand grips the panel. */
  const PinchThreshold: real := 0.05
  /** Offsets that centre the panel under the pinch point. */
  const PanelOffsetX: real := 128.0
  const PanelOffsetY: real := 50.0
  /** Bounds of the globe's scale, and the gain from pinch distance to scale. */
  const MinScale: real := 0.5
  const MaxScale: real := 2.5
  const ScaleGain: real := 10.0

  /** Landmark indices: thumb tip, index tip, base of the middle finger. */
  const ThumbTip: nat := 4
  const IndexTip: nat := 8
  const PalmBase: nat := 9

  const TargetAcquired: string := "TARGET_ACQUIRED"
  const ScanningSector: string := "SCANNING_SECTOR"

  /* ---------------------------------------------------------------- getDistance */

  /** `Math.pow(p1.x - p2.x, 2) + Math.pow(p1.y - p2.y, 2)`. */
  function SquaredDistance(p1: Point, p2: Point): (s: real)
    ensures 0.0 <= s
  {
    SquareNonNegative(p1.x - p2.x);
    SquareNonNegative(p1.y - p2.y);
    (p1.x - p2.x) * (p1.x - p2.x) + (p1.y - p2.y) * (p1.y - p2.y)
  }

  /** `getDistance(p1, p2)`, with `Math.sqrt` supplied by the caller. */
  function Distance(sqrt: real -> real, p1: Point, p2: Point): (d: real)
    requires IsSqrt(sqrt)
    ensures 0.0 <= d && d * d == SquaredDistance(p1, p2)
  {
    sqrt(SquaredDistance(p1, p2))
  }

  /** The distance does not depend on the order of its arguments. */
  lemma DistanceSymmetric(sqrt: real -> real, p1: Point, p2: Point)
    requires IsSqrt(sqrt)
    ensures Distance(sqrt, p1, p2) == Distance(sqrt, p2, p1)
  {
    assert (p1.x - p2.x) * (p1.x - p2.x) == (p2.x - p1.x) * (p2.x - p1.x);
    assert (p1.y - p2.y) * (p1.y - p2.y) == (p2.y - p1.y) * (p2.y - p1.y);
  }

  /** The distance is zero exactly when the two points coincide in x and y. */
  lemma DistanceZero(sqrt: real -> real, p1: Point, p2: Point)
    requires IsSqrt(sqrt)
    ensures Distance(sqrt, p1, p2) == 0.0 <==> p1.x == p2.x && p1.y == p2.y
  {
    var d := Distance(sqrt, p1, p2);
    if p1.x == p2.x && p1.y == p2.y {
      assert SquaredDistance(p1, p2) == 0.0;
      RootUnique(d, 0.0);
    }
    if d == 0.0 {
      SquareNonNegative(p1.x - p2.x);
      SquareNonNegative(p1.y - p2.y);
      SquareZero(p1.x - p2.x);
      SquareZero(p1.y - p2.y);
    }
  }

  /** Whether a hand is pinching: thumb tip and index tip closer than the
      threshold. */
  predicate Pinching(sqrt: real -> real, h: HandData)
    requires IsSqrt(sqrt) && Readable(h)
  {
    Distance(sqrt, h.landmarks[ThumbTip], h.landmarks[IndexTip]) < PinchThreshold
  }

  /** The pinch test needs no square root: it is the squared distance against
      0.05² = 0.0025. */
  lemma PinchingIffSquared(sqrt: real -> real, h: HandData)
    requires IsSqrt(sqrt) && Readable(h)
    ensures Pinching(sqrt, h) <==> SquaredDistance(h.landmarks[ThumbTip], h.landmarks[IndexTip]) < 0.0025
  {
    BelowIffSquareBelow(Distance(sqrt, h.landmarks[ThumbTip], h.landmarks[IndexTip]), PinchThreshold);
  }

  /* ------------------------------------------------------- left-hand mapping */

  /** `rotation.y = (x - 0.5) * Math.PI * 4`. */
  function RotationY(x: real): real {
    (x - 0.5) * PI * 4.0
  }

  /** `rotation.x = (y - 0.5) * Math.PI * 2`. */
  function RotationX(y: real): real {
    (y - 0.5) * PI * 2.0
  }

  /** Over the image, [0, 1], the rotations stay within two turns about y
      and half a turn either way about x. */
  lemma RotationBounds(x: real, y: real)
    requires 0.0 <= x <= 1.0 && 0.0 <= y <= 1.0
    ensures -TwoPi() <= RotationY(x) <= TwoPi()
    ensures -(PI as real) <= RotationX(y) <= PI
  {
    MulMonotone(-0.5, x - 0.5, PI);
    MulMonotone(x - 0.5, 0.5, PI);
    MulMonotone(-0.5, y - 0.5, PI);
    MulMonotone(y - 0.5, 0.5, PI);
  }

  /** Moving the hand right or down never turns the globe back. */
  lemma RotationMonotone(a: real, b: real)
    requires a <= b
    ensures RotationY(a) <= RotationY(b)
    ensures RotationX(a) <= RotationX(b)
  {
    MulMonotone(a - 0.5, b - 0.5, PI);
  }

  /** `Math.max(0.5, Math.min(2.5, pinchDist * 10))`. */
  function ScaleFor(pinchDist: real): (s: real)
    ensures MinScale <= s <= MaxScale
    ensures MinScale <= pinchDist * ScaleGain <= MaxScale ==> s == pinchDist * ScaleGain
    ensures pinchDist * ScaleGain < MinScale ==> s == MinScale
    ensures MaxScale < pinchDist * ScaleGain ==> s == MaxScale
  {
    Max(MinScale, Min(MaxScale, pinchDist * ScaleGain))
  }

  /** The target a left hand sets: rotation from the palm base, scale from
      the thumb-to-index pinch. */
  function LeftTarget(sqrt: real -> real, h: HandData): Interaction
    requires IsSqrt(sqrt) && Readable(h)
  {
    var palm := h.landmarks[PalmBase];
    Interaction(RotationX(palm.y), RotationY(palm.x),
                ScaleFor(Distance(sqrt, h.landmarks[ThumbTip], h.landmarks[IndexTip])))
  }

  /* ------------------------------------------------------ right-hand mapping */

  /** Panel x: the palm base mirrored (the video is shown as a selfie),
      scaled to the viewport width, less the centring offset. */
  function PanelX(palmX: real, width: real): real {
    (1.0 - palmX) * width - PanelOffsetX
  }

  /** Panel y: the palm base scaled to the viewport height, less the offset. */
  function PanelY(palmY: real, height: real): real {
    palmY * height - PanelOffsetY
  }

  /** For a palm base inside the image and a non-negative viewport, the panel
      stays within the viewport shifted by its centring offsets, and the
      mirroring sends the image's left edge to the viewport's right edge. */
  lemma PanelWithinViewport(palmX: real, palmY: real, width: real, height: real)
    requires 0.0 <= palmX <= 1.0 && 0.0 <= palmY <= 1.0
    requires 0.0 <= width && 0.0 <= height
    ensures -PanelOffsetX <= PanelX(palmX, width) <= width - PanelOffsetX
    ensures -PanelOffsetY <= PanelY(palmY, height) <= height - PanelOffsetY
    ensures PanelX(0.0, width) == width - PanelOffsetX && PanelX(1.0, width) == -PanelOffsetX
  {
    MulMonotone(0.0, 1.0 - palmX, width);
    MulMonotone(1.0 - palmX, 1.0, width);
    MulMonotone(0.0, palmY, height);
    MulMonotone(palmY, 1.0, height);
    assert 0.0 <= palmY * height <= height;
  }

  /* -------------------------------------------------- the detector's results */

  /** One entry of `results.handedness[i]`: a label and its confidence. */
  datatype Category = Category(categoryName: Handedness, score: real)

  /** The detector's result: `landmarks` (absent when `results.landmarks` is
      falsy) and, index for index, the handedness categories. */
  datatype DetectionResult = DetectionResult(landmarks: Option<seq<seq<Point>>>, handedness: seq<seq<Category>>)

  /** The landmarks `processHands` reads from a hand: indices 4, 8 and 9. */
  predicate Readable(h: HandData) {
    |h.landmarks| > PalmBase
  }

  predicate AllReadable(hands: seq<HandData>) {
    forall i :: 0 <= i < |hands| ==> Readable(hands[i])
  }

  /** The landmark sets of a result; `results && results.landmarks` failing
      gives none. */
  function LandmarkSets(results: Option<DetectionResult>): seq<seq<Point>> {
    if results.Some? && results.value.landmarks.Some? then results.value.landmarks.value else []
  }

  /** What `processHands` reads without failing: a handedness entry with at
      least one category for every landmark set, and landmarks 4, 8 and 9 in
      every set. */
  predicate WellFormed(results: Option<DetectionResult>) {
    var sets := LandmarkSets(results);
    sets != [] ==>
      |sets| <= |results.value.handedness| &&
      forall i :: 0 <= i < |sets| ==> |results.value.handedness[i]| > 0 && |sets[i]| > PalmBase
  }

  /** The `HandData` pushed for landmark set `i`. */
  function HandAt(results: Option<DetectionResult>, i: nat): (h: HandData)
    requires WellFormed(results) && i < |LandmarkSets(results)|
    ensures Readable(h)
  {
    var category := results.value.handedness[i][0];
    HandData(LandmarkSets(results)[i], category.categoryName, category.score)
  }

  /** `newHands`: one entry per landmark set, in order. */
  function HandsOf(results: Option<DetectionResult>): (hands: seq<HandData>)
    requires WellFormed(results)
    ensures |hands| == |LandmarkSets(results)| && AllReadable(hands)
  {
    seq(|LandmarkSets(results)|, i requires 0 <= i < |LandmarkSets(results)| => HandAt(results, i))
  }

  /* ------------------------------------------------- one frame, as a fold */

  /** The floating panel's state `{ x, y, isDragging }`. */
  datatype Panel = Panel(x: real, y: real, isDragging: bool)

  /** What the loop of `processHands` carries from one detection to the next:
      the interaction target, the panel, and the `isPinchingRight` flag. */
  datatype Mapping = Mapping(target: Interaction, panel: Panel, pinchingRight: bool)

  /** The body of the `forEach` for one hand. */
  function ApplyHand(sqrt: real -> real, width: real, height: real, m: Mapping, h: HandData): Mapping
    requires IsSqrt(sqrt) && Readable(h)
  {
    match h.handedness
    case Left => m.(target := LeftTarget(sqrt, h))
    case Right =>
      if Pinching(sqrt, h) then
        var palm := h.landmarks[PalmBase];
        Mapping(m.target, Panel(PanelX(palm.x, width), PanelY(palm.y, height), true), true)
      else
        m.(panel := m.panel.(isDragging := false))
  }

  /** The `forEach` over the hands, in order. */
  function ApplyHands(sqrt: real -> real, width: real, height: real, m: Mapping, hands: seq<HandData>): Mapping
    requires IsSqrt(sqrt) && AllReadable(hands)
    decreases |hands|
  {
    if |hands| == 0 then m
    else ApplyHand(sqrt, width, height, ApplyHands(sqrt, width, height, m, hands[..|hands| - 1]), hands[|hands| - 1])
  }

  /** The position of the last hand of the given side, if any. */
  function LastOf(hands: seq<HandData>, side: Handedness): (r: Option<nat>)
    ensures r.None? <==> forall i :: 0 <= i < |hands| ==> hands[i].handedness != side
    ensures r.Some? ==> r.value < |hands| && hands[r.value].handedness == side
    ensures r.Some? ==> forall j :: r.value < j < |hands| ==> hands[j].handedness != side
  {
    if |hands| == 0 then None
    else if hands[|hands| - 1].handedness == side then Some(|hands| - 1)
    else LastOf(hands[..|hands| - 1], side)
  }

  /** A right hand that is pinching. */
  predicate Grips(sqrt: real -> real, h: HandData)
    requires IsSqrt(sqrt) && Readable(h)
  {
    h.handedness == Right && Pinching(sqrt, h)
  }

  /** The position of the last gripping right hand, if any. */
  function LastGrip(sqrt: real -> real, hands: seq<HandData>): (r: Option<nat>)
    requires IsSqrt(sqrt) && AllReadable(hands)
    ensures r.None? <==> forall i :: 0 <= i < |hands| ==> !Grips(sqrt, hands[i])
    ensures r.Some? ==> r.value < |hands| && Grips(sqrt, hands[r.value])
    ensures r.Some? ==> forall j :: r.value < j < |hands| ==> !Grips(sqrt, hands[j])
  {
    if |hands| == 0 then None
    else if Grips(sqrt, hands[|hands| - 1]) then Some(|hands| - 1)
    else LastGrip(sqrt, hands[..|hands| - 1])
  }

  /** "The last hand wins", stated directly: the target is set by the last
      left hand, or kept. */
  function TargetAfter(sqrt: real -> real, prev: Interaction, hands: seq<HandData>): Interaction
    requires IsSqrt(sqrt) && AllReadable(hands)
  {
    match LastOf(hands, Left)
    case None => prev
    case Some(k) => LeftTarget(sqrt, hands[k])
  }

  /** The panel sits where the last gripping right hand put it (or stays),
      and is dragging exactly when the last right hand pinches (or keeps its
      flag when there is no right hand). */
  function PanelAfter(sqrt: real -> real, width: real, height: real, prev: Panel, hands: seq<HandData>): Panel
    requires IsSqrt(sqrt) && AllReadable(hands)
  {
    var dragging := match LastOf(hands, Right)
      case None => prev.isDragging
      case Some(k) => Pinching(sqrt, hands[k]);
    match LastGrip(sqrt, hands)
    case None => Panel(prev.x, prev.y, dragging)
    case Some(k) => Panel(PanelX(hands[k].landmarks[PalmBase].x, width), PanelY(hands[k].landmarks[PalmBase].y, height), dragging)
  }

  lemma PrefixReadable(hands: seq<HandData>, n: nat)
    requires AllReadable(hands) && n <= |hands|
    ensures AllReadable(hands[..n])
  {
    forall i | 0 <= i < n ensures Readable(hands[..n][i]) {
      assert hands[..n][i] == hands[i];
    }
  }

  /** The fold leaves the target to the last left hand. */
  lemma {:induction false} FoldTarget(sqrt: real -> real, width: real, height: real, m: Mapping, hands: seq<HandData>)
    requires IsSqrt(sqrt) && AllReadable(hands)
    ensures ApplyHands(sqrt, width, height, m, hands).target == TargetAfter(sqrt, m.target, hands)
    decreases |hands|
  {
    if |hands| > 0 {
      var n := |hands| - 1;
      var prefix := hands[..n];
      PrefixReadable(hands, n);
      FoldTarget(sqrt, width, height, m, prefix);
      if hands[n].handedness != Left {
        assert LastOf(hands, Left) == LastOf(prefix, Left);
        match LastOf(prefix, Left) {
          case None =>
          case Some(k) => assert prefix[k] == hands[k];
        }
      }
    }
  }

  /** The fold leaves the drag flag to the last right hand. */
  lemma {:induction false} FoldDragging(sqrt: real -> real, width: real, height: real, m: Mapping, hands: seq<HandData>)
    requires IsSqrt(sqrt) && AllReadable(hands)
    ensures ApplyHands(sqrt, width, height, m, hands).panel.isDragging == PanelAfter(sqrt, width, height, m.panel, hands).isDragging
    decreases |hands|
  {
    if |hands| > 0 {
      var n := |hands| - 1;
      var prefix := hands[..n];
      PrefixReadable(hands, n);
      FoldDragging(sqrt, width, height, m, prefix);
      if hands[n].handedness != Right {
        assert LastOf(hands, Right) == LastOf(prefix, Right);
        match LastOf(prefix, Right) {
          case None =>
          case Some(k) => assert prefix[k] == hands[k];
        }
      }
    }
  }

  /** The fold leaves the panel's position to the last gripping right hand,
      and raises `isPinchingRight` exactly when there is one. */
  lemma {:induction false} FoldPosition(sqrt: real -> real, width: real, height: real, m: Mapping, hands: seq<HandData>)
    requires IsSqrt(sqrt) && AllReadable(hands)
    ensures ApplyHands(sqrt, width, height, m, hands).panel.x == PanelAfter(sqrt, width, height, m.panel, hands).x
    ensures ApplyHands(sqrt, width, height, m, hands).panel.y == PanelAfter(sqrt, width, height, m.panel, hands).y
    ensures ApplyHands(sqrt, width, height, m, hands).pinchingRight == (m.pinchingRight || LastGrip(sqrt, hands).Some?)
    decreases |hands|
  {
    if |hands| > 0 {
      var n := |hands| - 1;
      var prefix := hands[..n];
      PrefixReadable(hands, n);
      FoldPosition(sqrt, width, height, m, prefix);
      if !Grips(sqrt, hands[n]) {
        assert LastGrip(sqrt, hands) == LastGrip(sqrt, prefix);
        match LastGrip(sqrt, prefix) {
          case None =>
          case Some(k) => assert prefix[k] == hands[k];
        }
      }
    }
  }

  /** The in-order fold agrees with "the last hand of each kind wins". */
  lemma ApplyHandsLastWins(sqrt: real -> real, width: real, height: real, m: Mapping, hands: seq<HandData>)
    requires IsSqrt(sqrt) && AllReadable(hands)
    ensures ApplyHands(sqrt, width, height, m, hands).target == TargetAfter(sqrt, m.target, hands)
    ensures ApplyHands(sqrt, width, height, m, hands).panel == PanelAfter(sqrt, width, height, m.panel, hands)
    ensures ApplyHands(sqrt, width, height, m, hands).pinchingRight == (m.pinchingRight || LastGrip(sqrt, hands).Some?)
  {
    FoldTarget(sqrt, width, height, m, hands);
    FoldDragging(sqrt, width, height, m, hands);
    FoldPosition(sqrt, width, height, m, hands);
  }

  /* --------------------------------------------------- the whole frame */

  /** What `processHands` maintains: interaction target, panel, the hands
      shown, and the HUD's status label. */
  datatype Session = Session(target: Interaction, panel: Panel, hands: seq<HandData>, status: string)

  /** `processHands(results)` as a function of the state before the frame:
      the fold over the hands, then the release at lines 108-110 (which reads
      the drag flag held before the frame), then the status label. */
  function Reduce(sqrt: real -> real, width: real, height: real, prev: Session, results: Option<DetectionResult>): Session
    requires IsSqrt(sqrt) && WellFormed(results)
  {
    var hands := HandsOf(results);
    var m := ApplyHands(sqrt, width, height, Mapping(prev.target, prev.panel, false), hands);
    var panel := if !m.pinchingRight && prev.panel.isDragging then m.panel.(isDragging := false) else m.panel;
    Session(m.target, panel, hands, if |hands| > 0 then TargetAcquired else ScanningSector)
  }

  /** The interaction target after a frame is the last left hand's, or the
      previous one when the frame has no left hand: no reset to defaults. */
  lemma ReduceTarget(sqrt: real -> real, width: real, height: real, prev: Session, results: Option<DetectionResult>)
    requires IsSqrt(sqrt) && WellFormed(results)
    ensures Reduce(sqrt, width, height, prev, results).target == TargetAfter(sqrt, prev.target, HandsOf(results))
    ensures (forall i :: 0 <= i < |HandsOf(results)| ==> HandsOf(results)[i].handedness != Left) ==>
      Reduce(sqrt, width, height, prev, results).target == prev.target
  {
    ApplyHandsLastWins(sqrt, width, height, Mapping(prev.target, prev.panel, false), HandsOf(results));
  }

  /** A scale in [0.5, 2.5] stays there. */
  lemma ReduceKeepsScaleInRange(sqrt: real -> real, width: real, height: real, prev: Session, results: Option<DetectionResult>)
    requires IsSqrt(sqrt) && WellFormed(results)
    requires MinScale <= prev.target.scale <= MaxScale
    ensures MinScale <= Reduce(sqrt, width, height, prev, results).target.scale <= MaxScale
  {
    ReduceTarget(sqrt, width, height, prev, results);
  }

  /** The panel sits where the last gripping right hand put it, or where it
      was; it is dragging after the frame exactly when the frame's last right
      hand is pinching, so a frame without a right hand, or without a pinch,
      always ends the drag. */
  lemma ReducePanel(sqrt: real -> real, width: real, height: real, prev: Session, results: Option<DetectionResult>)
    requires IsSqrt(sqrt) && WellFormed(results)
    ensures var hands := HandsOf(results);
      var panel := Reduce(sqrt, width, height, prev, results).panel;
      && (LastGrip(sqrt, hands).None? ==> panel.x == prev.panel.x && panel.y == prev.panel.y)
      && (LastGrip(sqrt, hands).Some? ==>
            var palm := hands[LastGrip(sqrt, hands).value].landmarks[PalmBase];
            panel.x == PanelX(palm.x, width) && panel.y == PanelY(palm.y, height))
      && (panel.isDragging <==> LastOf(hands, Right).Some? && Pinching(sqrt, hands[LastOf(hands, Right).value]))
  {
    var hands := HandsOf(results);
    ApplyHandsLastWins(sqrt, width, height, Mapping(prev.target, prev.panel, false), hands);
    var last := LastOf(hands, Right);
    if last.Some? && Pinching(sqrt, hands[last.value]) {
      assert Grips(sqrt, hands[last.value]);
    }
  }

  /** One hand per landmark set, in order, with the handedness and score of
      the same index; the status is `TARGET_ACQUIRED` exactly when there is a
      hand. */
  lemma ReduceHandsAndStatus(sqrt: real -> real, width: real, height: real, prev: Session, results: Option<DetectionResult>)
    requires IsSqrt(sqrt) && WellFormed(results)
    ensures var s := Reduce(sqrt, width, height, prev, results);
      && |s.hands| == |LandmarkSets(results)|
      && (forall i :: 0 <= i < |s.hands| ==>
            s.hands[i].landmarks == LandmarkSets(results)[i] &&
            s.hands[i].handedness == results.value.handedness[i][0].categoryName &&
            s.hands[i].score == results.value.handedness[i][0].score)
      && (s.status == TargetAcquired <==> |LandmarkSets(results)| > 0)
      && (s.status != TargetAcquired ==> s.status == ScanningSector)
  {
  }

  /** A frame without detections keeps the target and the panel's position,
      ends any drag, and shows `SCANNING_SECTOR` with no hands. */
  lemma EmptyFrame(sqrt: real -> real, width: real, height: real, prev: Session, results: Option<DetectionResult>)
    requires IsSqrt(sqrt) && WellFormed(results)
    requires LandmarkSets(results) == []
    ensures var s := Reduce(sqrt, width, height, prev, results);
      s.target == prev.target && s.panel == prev.panel.(isDragging := false) &&
      s.hands == [] && s.status == ScanningSector
  {
    assert HandsOf(results) == [];
  }

  /* ------------------------------------------------------ worked frames */

  /** Scale at pinch distances 0, 0.2 and 0.3 (the last saturates). */
  lemma ScaleExamples()
    ensures ScaleFor(0.0) == 0.5 && ScaleFor(0.2) == 2.0 && ScaleFor(0.3) == 2.5
  {
  }

  /** A 21-landmark hand with the palm base at `palm` and the index tip
      `gap` to the right of a thumb tip at the origin. */
  function Pose(palm: Point, gap: real): (lms: seq<Point>)
    ensures |lms| == 21 && lms[PalmBase] == palm
    ensures lms[ThumbTip] == Point(0.0, 0.0, None) && lms[IndexTip] == Point(gap, 0.0, None)
  {
    seq(21, i => if i == PalmBase then palm else if i == IndexTip then Point(gap, 0.0, None) else Point(0.0, 0.0, None))
  }

  /** The distance between the thumb and index tips of a `Pose` is its gap. */
  lemma PoseDistance(sqrt: real -> real, palm: Point, gap: real)
    requires IsSqrt(sqrt) && 0.0 <= gap
    ensures Distance(sqrt, Pose(palm, gap)[ThumbTip], Pose(palm, gap)[IndexTip]) == gap
  {
    var lms := Pose(palm, gap);
    var d := Distance(sqrt, lms[ThumbTip], lms[IndexTip]);
    assert d * d == gap * gap;
    RootUnique(d, gap);
  }

  /** A frame with a single detection. */
  function OneHand(side: Handedness, palm: Point, gap: real): Option<DetectionResult> {
    Some(DetectionResult(Some([Pose(palm, gap)]), [[Category(side, 0.9)]]))
  }

  /** A right hand pinching at 0.03 grabs the panel and moves it under the
      palm; at exactly 0.05 it releases the panel where it was. */
  lemma PinchThresholdExamples(sqrt: real -> real, width: real, height: real, prev: Session)
    requires IsSqrt(sqrt)
    ensures var results := OneHand(Right, Point(0.3, 0.4, None), 0.03);
      WellFormed(results) &&
      Reduce(sqrt, width, height, prev, results).panel == Panel(0.7 * width - 128.0, 0.4 * height - 50.0, true)
    ensures var results := OneHand(Right, Point(0.3, 0.4, None), 0.05);
      WellFormed(results) &&
      Reduce(sqrt, width, height, prev, results).panel == prev.panel.(isDragging := false)
  {
    var near := OneHand(Right, Point(0.3, 0.4, None), 0.03);
    PoseDistance(sqrt, Point(0.3, 0.4, None), 0.03);
    assert HandsOf(near) == [HandAt(near, 0)];
    assert HandsOf(near)[..0] == [];
    var far := OneHand(Right, Point(0.3, 0.4, None), 0.05);
    PoseDistance(sqrt, Point(0.3, 0.4, None), 0.05);
    assert HandsOf(far) == [HandAt(far, 0)];
    assert HandsOf(far)[..0] == [];
    assert !Pinching(sqrt, HandAt(far, 0));
    assert LastGrip(sqrt, HandsOf(far)) == None;
    ReducePanel(sqrt, width, height, prev, far);
  }

  /** The two-hand frame: a left hand centred with a 0.1 pinch, and a right
      hand at (0.3, 0.4) pinching at 0.02. */
  function TwoHands(): Option<DetectionResult> {
    Some(DetectionResult(Some([Pose(Point(0.5, 0.5, None), 0.1), Pose(Point(0.3, 0.4, None), 0.02)]),
                         [[Category(Left, 0.9)], [Category(Right, 0.8)]]))
  }

  /** The globe faces front at scale 1, the panel is dragged under the right
      palm, and the status is `TARGET_ACQUIRED`, whatever the state before. */
  lemma TwoHandsExample(sqrt: real -> real, width: real, height: real, prev: Session)
    requires IsSqrt(sqrt)
    ensures WellFormed(TwoHands())
    ensures var s := Reduce(sqrt, width, height, prev, TwoHands());
      s.target == Interaction(0.0, 0.0, 1.0) &&
      s.panel == Panel(0.7 * width - 128.0, 0.4 * height - 50.0, true) &&
      |s.hands| == 2 && s.status == TargetAcquired
  {
    var results := TwoHands();
    PoseDistance(sqrt, Point(0.5, 0.5, None), 0.1);
    PoseDistance(sqrt, Point(0.3, 0.4, None), 0.02);
    var hands := HandsOf(results);
    assert hands == [HandAt(results, 0), HandAt(results, 1)];
    assert hands[..1] == [HandAt(results, 0)];
    assert hands[..1][..0] == [];
    assert 0.0 * PI == 0.0;
    assert RotationX(0.5) == 0.0 && RotationY(0.5) == 0.0;
    assert LeftTarget(sqrt, hands[0]) == Interaction(0.0, 0.0, 1.0);
    assert LastOf(hands, Left) == Some(0);
    ReduceTarget(sqrt, width, height, prev, results);
  }

  /* --------------------------------------------------- the mapper's state */

  /** The state `processHands` updates: `interactionRef.current` (rotation
      and scale), `panelState`, `hands` and `hudState.systemStatus`. */
  class HandTracker {
    var rotationX: real
    var rotationY: real
    var scale: real
    var panelX: real
    var panelY: real
    var isDragging: bool
    var hands: seq<HandData>
    var status: string

    /** The scale stays in [0.5, 2.5]. */
    ghost predicate Valid()
      reads this
    {
      MinScale <= scale <= MaxScale
    }

    function State(): Session
      reads this
    {
      Session(Interaction(rotationX, rotationY, scale), Panel(panelX, panelY, isDragging), hands, status)
    }

    /** The initial state for a viewport of the given size. */
    constructor (width: real, height: real)
      ensures Valid()
      ensures State() == Session(Interaction(0.0, 0.0, 1.0), Panel(width - 300.0, height / 2.0 - 100.0, false), [], "INITIALIZING...")
    {
      rotationX, rotationY, scale := 0.0, 0.0, 1.0;
      panelX, panelY, isDragging := width - 300.0, height / 2.0 - 100.0, false;
      hands, status := [], "INITIALIZING...";
    }

    /** `processHands(results)` for a viewport of `width` by `height`. */
    method ProcessHands(sqrt: real -> real, width: real, height: real, results: Option<DetectionResult>)
      requires Valid() && IsSqrt(sqrt) && WellFormed(results)
      modifies this
      ensures Valid()
      ensures State() == Reduce(sqrt, width, height, old(State()), results)
    {
      var newHands: seq<HandData> := [];
      var isPinchingRight := false;
      // `panelState.isDragging` as of the render before this frame
      var wasDragging := isDragging;
      ghost var start := Mapping(Interaction(rotationX, rotationY, scale), Panel(panelX, panelY, isDragging), false);
      ghost var prev := State();

      if results.Some? && results.value.landmarks.Some? {
        var sets := results.value.landmarks.value;
        var i := 0;
        while i < |sets|
          invariant 0 <= i <= |sets|
          invariant newHands == HandsOf(results)[..i]
          invariant Mapping(Interaction(rotationX, rotationY, scale), Panel(panelX, panelY, isDragging), isPinchingRight)
            == ApplyHands(sqrt, width, height, start, newHands)
        {
          var landmarks := sets[i];
          var category := results.value.handedness[i][0];
          var handedness := category.categoryName;
          newHands := newHands + [HandData(landmarks, handedness, category.score)];

          if handedness == Left {
            var x := landmarks[PalmBase].x;
            var y := landmarks[PalmBase].y;
            var pinchDist := Distance(sqrt, landmarks[ThumbTip], landmarks[IndexTip]);
            rotationY := RotationY(x);
            rotationX := RotationX(y);
            scale := ScaleFor(pinchDist);
          }

          if handedness == Right {
            var pinchDist := Distance(sqrt, landmarks[ThumbTip], landmarks[IndexTip]);
            if pinchDist < PinchThreshold {
              isPinchingRight := true;
              panelX, panelY, isDragging := PanelX(landmarks[PalmBase].x, width), PanelY(landmarks[PalmBase].y, height), true;
            } else {
              isDragging := false;
            }
          }

          assert newHands[..i] == HandsOf(results)[..i];
          assert HandsOf(results)[..i + 1] == newHands;
          i := i + 1;
        }
        assert newHands == HandsOf(results);
      }

      hands := newHands;
      if !isPinchingRight && wasDragging {
        isDragging := false;
      }
      status := if |newHands| > 0 then TargetAcquired else ScanningSector;

      ReduceKeepsScaleInRange(sqrt, width, height, prev, results);
    }
  }
}
