/**
 The background starfield: creation on the first resize, and the per-frame
 twinkle that bounces each star's opacity off the band [0.2, 1].
 */
module Stars {
  import opened Types

  const StarCount := 150
  /** The twinkle bounces when opacity leaves [LowOpacity, HighOpacity]. */
  const LowOpacity: real := 0.2
  const HighOpacity: real := 1.0

  /** The five `Math.random()` draws made for one star. */
  datatype StarDraws = StarDraws(x: Random, y: Random, size: Random, opacity: Random, speed: Random)

  /** One star placed on a `w` × `h` canvas. */
  function NewStar(w: nat, h: nat, d: StarDraws): (s: Star)
    ensures 0.0 <= s.x <= w as real
    ensures 0.0 <= s.y <= h as real
    ensures 0.5 <= s.size < 2.5
    ensures 0.0 <= s.opacity < 1.0
    ensures 0.005 <= s.twinkleSpeed < 0.025
  {
    Star(Scale(d.x, w as real), Scale(d.y, h as real), d.size * 2.0 + 0.5, d.opacity, d.speed * 0.02 + 0.005)
  }

  /** initStars: exactly 150 stars, each on the canvas, with an initial
      opacity in [0, 1) and a positive twinkle speed. */
  function InitStars(w: nat, h: nat, draws: nat -> StarDraws): (r: seq<Star>)
    ensures |r| == StarCount
    ensures forall i | 0 <= i < |r| ::
              && 0.0 <= r[i].x <= w as real && 0.0 <= r[i].y <= h as real
              && 0.5 <= r[i].size < 2.5
              && 0.0 <= r[i].opacity < 1.0
              && 0.005 <= r[i].twinkleSpeed < 0.025
  {
    var r := seq(StarCount, i requires 0 <= i < StarCount => NewStar(w, h, draws(i)));
    assert forall i | 0 <= i < |r| :: r[i] == NewStar(w, h, draws(i));
    r
  }

  /** Canvas size and starfield after the resize check at the top of a frame. */
  datatype Resized = Resized(canvas: Canvas, stars: seq<Star>)

  /** The resize step: the canvas always ends up at the window's size, and the
      stars are created, for the new size, only when the size changed while
      the starfield was still empty. Otherwise the starfield is kept as is. */
  function HandleResize(canvas: Canvas, window: Canvas, stars: seq<Star>, draws: nat -> StarDraws)
    : (r: Resized)
    ensures r.canvas == window
    ensures canvas != window && |stars| == 0 ==> r.stars == InitStars(window.width, window.height, draws)
    ensures !(canvas != window && |stars| == 0) ==> r.stars == stars
    ensures |r.stars| == 0 || |r.stars| == StarCount || r.stars == stars
  {
    if canvas != window then
      Resized(window, if |stars| == 0 then InitStars(window.width, window.height, draws) else stars)
    else
      Resized(canvas, stars)
  }

  // ---------------------------------------------------------------------
  // Twinkle

  /** One frame for one star: step the opacity by the signed speed, and flip
      the speed's sign when the new opacity is above 1 or below 0.2. The
      speed's magnitude never changes and the star does not move. */
  function Twinkle(s: Star): (t: Star)
    ensures t.opacity == s.opacity + s.twinkleSpeed
    ensures Abs(t.twinkleSpeed) == Abs(s.twinkleSpeed)
    ensures t.twinkleSpeed == s.twinkleSpeed || t.twinkleSpeed == -s.twinkleSpeed
    ensures t.x == s.x && t.y == s.y && t.size == s.size
  {
    var o := s.opacity + s.twinkleSpeed;
    s.(opacity := o,
       twinkleSpeed := if o > HighOpacity || o < LowOpacity then -s.twinkleSpeed else s.twinkleSpeed)
  }

  /** The twinkle of the whole starfield. */
  function TwinkleAll(stars: seq<Star>): (r: seq<Star>)
    ensures |r| == |stars|
    ensures forall i | 0 <= i < |stars| :: r[i] == Twinkle(stars[i])
  {
    seq(|stars|, i requires 0 <= i < |stars| => Twinkle(stars[i]))
  }

  /** A star after `n` frames. */
  function TwinkleTimes(s: Star, n: nat): Star {
    if n == 0 then s else Twinkle(TwinkleTimes(s, n - 1))
  }

  /** The inductive invariant of the bounce: opacity lies within one speed-step
      of the band, and a star outside the band is already heading back in. */
  ghost predicate InBand(s: Star) {
    var v := Abs(s.twinkleSpeed);
    && LowOpacity - v <= s.opacity <= HighOpacity + v
    && (s.opacity > HighOpacity ==> s.twinkleSpeed < 0.0)
    && (s.opacity < LowOpacity ==> s.twinkleSpeed > 0.0)
  }

  lemma TwinklePreservesBand(s: Star)
    requires InBand(s)
    ensures InBand(Twinkle(s))
  {
  }

  /** The band invariant holds in every later frame, with the same speed magnitude. */
  lemma {:induction false} BandForever(s: Star, n: nat)
    requires InBand(s)
    ensures InBand(TwinkleTimes(s, n))
    ensures Abs(TwinkleTimes(s, n).twinkleSpeed) == Abs(s.twinkleSpeed)
  {
    if n > 0 {
      BandForever(s, n - 1);
      TwinklePreservesBand(TwinkleTimes(s, n - 1));
    }
  }

  /** A star that starts inside [0.2, 1] keeps its opacity within one step of
      the band, [0.2 − |speed|, 1 + |speed|], forever. */
  lemma TwinkleBounded(s: Star, n: nat)
    requires LowOpacity <= s.opacity <= HighOpacity
    ensures var v := Abs(s.twinkleSpeed);
            LowOpacity - v <= TwinkleTimes(s, n).opacity <= HighOpacity + v
  {
    BandForever(s, n);
  }

  /** A star that starts below 0.2 and cannot reach 0.2 in one step is stuck:
      it flips direction every frame, returns to its start every second
      frame, and never brightens into the band. */
  lemma {:induction false} StuckBelowBand(s: Star, n: nat)
    requires s.twinkleSpeed > 0.0 && s.opacity + s.twinkleSpeed < LowOpacity
    ensures TwinkleTimes(s, n) == if n % 2 == 0 then s else Twinkle(s)
    ensures TwinkleTimes(s, n).opacity < LowOpacity
  {
    assert Twinkle(Twinkle(s)) == s;
    if n > 0 {
      StuckBelowBand(s, n - 1);
    }
  }
}
