/** The shapes of types.ts, plus the optional value JavaScript expresses with
    `null`/`undefined`. */
module Types {

  datatype Option<T> = None | Some(value: T)

  /** A landmark in normalised image coordinates; `z` is optional. */
  datatype Point = Point(x: real, y: real, z: Option<real>)

  /** The detector's handedness label, `'Left' | 'Right'`. */
  datatype Handedness = Left | Right

  /** One detected hand: its landmarks (21 of them from the detector), its
      handedness and the detector's confidence. */
  datatype HandData = HandData(landmarks: seq<Point>, handedness: Handedness, score: real)

  /** The shared interaction target `{ rotation: { x, y }, scale }` that the
      mapper writes and the globe reads. */
  datatype Interaction = Interaction(rotationX: real, rotationY: real, scale: real)
}
