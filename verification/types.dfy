/**
 Shared data model of the gesture-to-fireworks pipeline: the gesture enum,
 the hand sample handed from the webcam callback to the animation loop, and
 the particle and star records the animation loop owns.

 Numbers are exact reals; the browser's doubles are not modelled.
 */
module Types {

  /** A value that may be absent (JavaScript `null` / `undefined`). */
  datatype Option<+T> = None | Some(value: T)

  /** The four outcomes of the classifier; UNKNOWN means "not enough landmarks". */
  datatype GestureType = OPEN | CLOSED | NEUTRAL | UNKNOWN

  /** One hand landmark as the tracker reports it: normalised x and y, and a depth z. */
  datatype Landmark = Landmark(x: real, y: real, z: real)

  /** The latest hand sample: mirrored, normalised position, the gesture and a wall-clock stamp. */
  datatype HandTrackingData = HandTrackingData(x: real, y: real, gesture: GestureType, timestamp: real)

  /** A firework spark. `color` is one of the palette's CSS colour strings. */
  datatype Particle = Particle(
    x: real, y: real,
    vx: real, vy: real,
    color: string,
    alpha: real,
    size: real,
    decay: real,
    life: real,
    maxLife: real)

  /** A background star; `twinkleSpeed` is signed and flips at the opacity band's edges. */
  datatype Star = Star(x: real, y: real, size: real, opacity: real, twinkleSpeed: real)

  /** One draw of `Math.random()`: a real in [0, 1). */
  type Random = r: real | 0.0 <= r < 1.0 witness 0.0

  /** Canvas backing-store size in pixels (an integer in the browser). */
  datatype Canvas = Canvas(width: nat, height: nat)

  function Abs(r: real): (a: real)
    ensures a >= 0.0
    ensures a == r || a == -r
  {
    if r < 0.0 then -r else r
  }

  /** `Math.random() * w`: a draw scaled to [0, w]. */
  function Scale(r: Random, w: real): (p: real)
    requires w >= 0.0
    ensures 0.0 <= p <= w
  {
    ProductNonNegative(1.0 - r, w);
    ProductNonNegative(r, w);
    assert w - r * w == (1.0 - r) * w;
    r * w
  }

  lemma ProductNonNegative(a: real, b: real)
    requires a >= 0.0 && b >= 0.0
    ensures a * b >= 0.0
  {
  }
}
