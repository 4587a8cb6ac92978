/**
 One animation frame of the firework display, with drawing left out: resize
 and star creation, the star twinkle, the input step, the burst or clear it
 asks for, and the particle update. The scene invariant below is what every
 frame keeps.
 */
module FireworkDisplay {
  import opened Types
  import Stars
  import Particles
  import Controller

  /** Everything the animation loop keeps between frames. */
  datatype Scene = Scene(canvas: Canvas, stars: seq<Star>, particles: seq<Particle>, control: Controller.State)

  /** The scene when the component mounts: an empty sky on a canvas of
      whatever size it had, and a controller that has seen no gesture and
      counts its last burst at time 0. */
  function InitialScene(canvas: Canvas): (r: Scene)
    ensures r.canvas == canvas
    ensures |r.stars| == 0 && |r.particles| == 0
    ensures r.control.lastGesture == UNKNOWN && r.control.lastExplosionTime == 0.0
  {
    Scene(canvas, [], [], Controller.Initial)
  }

  /** What one frame reads from outside: the window size, the frame clock, the
      latest hand sample, and the random draws it may need. */
  datatype FrameInput = FrameInput(
    window: Canvas,
    time: real,
    sample: Option<HandTrackingData>,
    starDraws: nat -> Stars.StarDraws,
    burst: Particles.BurstDraws,
    sparks: nat -> Particles.ParticleDraws)

  /** The particles after the input step's effect, before the update. */
  function ApplyEffects(ps: seq<Particle>, e: Controller.Effects, b: Particles.BurstDraws, sparks: nat -> Particles.ParticleDraws)
    : (r: seq<Particle>)
    ensures e.explosion.Some? ==> r == Particles.CreateExplosion(ps, e.explosion.value.x, e.explosion.value.y, b, sparks)
    ensures e.explosion.None? && e.clear ==> r == Particles.ClearParticles(ps)
    ensures e.explosion.None? && !e.clear ==> r == ps
    ensures |ps| <= |r| <= |ps| + 120
  {
    match e.explosion
    case Some(p) => Particles.CreateExplosion(ps, p.x, p.y, b, sparks)
    case None => if e.clear then Particles.ClearParticles(ps) else ps
  }

  /** One frame. The burst is placed using the canvas size after this frame's
      resize, and freshly spawned sparks are updated in the same frame. */
  function Animate(sc: Scene, inp: FrameInput): (r: Scene)
    ensures r.canvas == inp.window
    ensures |r.stars| == |Stars.HandleResize(sc.canvas, inp.window, sc.stars, inp.starDraws).stars|
    ensures r.control == Controller.Step(sc.control, inp.sample, inp.time, inp.window).next
    ensures |r.particles| <= |sc.particles| + 120
    ensures forall k | 0 <= k < |r.particles| :: r.particles[k].alpha > 0.0
    ensures inp.sample.None? ==> r.control == sc.control && |r.particles| <= |sc.particles|
  {
    var rs := Stars.HandleResize(sc.canvas, inp.window, sc.stars, inp.starDraws);
    var t := Controller.Step(sc.control, inp.sample, inp.time, rs.canvas);
    var ps := ApplyEffects(sc.particles, t.effects, inp.burst, inp.sparks);
    Scene(rs.canvas, Stars.TwinkleAll(rs.stars), Particles.Advance(ps), t.next)
  }

  // ---------------------------------------------------------------------
  // The scene invariant

  /** What every live particle satisfies between frames. */
  ghost predicate ParticleOk(p: Particle) {
    && 0.0 < p.alpha <= 1.0
    && p.life == p.alpha
    && p.maxLife == 1.0
    && 0.005 <= p.decay <= Particles.ClearDecay
    && 1.0 <= p.size < 4.0
    && p.color in Particles.Colors
  }

  ghost predicate AllOk(ps: seq<Particle>) {
    forall i | 0 <= i < |ps| :: ParticleOk(ps[i])
  }

  /** The starfield is either not created yet or complete, and every particle is well-formed. */
  ghost predicate SceneOk(sc: Scene) {
    && (|sc.stars| == 0 || |sc.stars| == Stars.StarCount)
    && AllOk(sc.particles)
  }

  lemma InitialSceneOk(canvas: Canvas)
    ensures SceneOk(InitialScene(canvas))
  {
  }

  /** A burst adds only well-formed particles and keeps the old ones. */
  lemma ExplosionKeepsOk(ps: seq<Particle>, x: real, y: real, b: Particles.BurstDraws, sparks: nat -> Particles.ParticleDraws)
    requires AllOk(ps)
    ensures AllOk(Particles.CreateExplosion(ps, x, y, b, sparks))
  {
    var r := Particles.CreateExplosion(ps, x, y, b, sparks);
    forall i | 0 <= i < |r| ensures ParticleOk(r[i]) {
      if i < |ps| {
        assert r[i] == r[..|ps|][i];
      }
    }
  }

  /** A clear keeps every particle well-formed: the forced decay is the top of the decay range. */
  lemma ClearKeepsOk(ps: seq<Particle>)
    requires AllOk(ps)
    ensures AllOk(Particles.ClearParticles(ps))
  {
  }

  /** The update keeps every surviving particle well-formed: alpha only falls,
      and life follows it. */
  lemma AdvanceKeepsOk(ps: seq<Particle>)
    requires AllOk(ps)
    ensures AllOk(Particles.Advance(ps))
  {
    Particles.AdvanceIsOrderedFilter(ps);
    var r := Particles.Advance(ps);
    var idx := Particles.SurvivorIndices(ps, 0);
    forall k | 0 <= k < |r| ensures ParticleOk(r[k]) {
      var p := ps[idx[k]];
      assert r[k] == Particles.StepParticle(p);
      assert ParticleOk(p);
    }
  }

  /** Every frame keeps the scene invariant. */
  lemma AnimateKeepsSceneOk(sc: Scene, inp: FrameInput)
    requires SceneOk(sc)
    ensures SceneOk(Animate(sc, inp))
  {
    var rs := Stars.HandleResize(sc.canvas, inp.window, sc.stars, inp.starDraws);
    var t := Controller.Step(sc.control, inp.sample, inp.time, rs.canvas);
    var ps := ApplyEffects(sc.particles, t.effects, inp.burst, inp.sparks);
    match t.effects.explosion {
      case Some(p) => ExplosionKeepsOk(sc.particles, p.x, p.y, inp.burst, inp.sparks);
      case None => if t.effects.clear { ClearKeepsOk(sc.particles); }
    }
    AdvanceKeepsOk(ps);
  }

  /** The controller's view of a run of frames. */
  function Frames(inps: seq<FrameInput>): (fs: seq<Controller.Frame>)
    ensures |fs| == |inps|
    decreases |inps|
  {
    if |inps| == 0 then []
    else [Controller.Frame(inps[0].sample, inps[0].time, inps[0].window)] + Frames(inps[1..])
  }

  /** Frames run one after another. After a non-empty run the canvas has the
      last frame's window size, a complete starfield stays complete, and the
      controller is where the frames alone take it: particles and stars never
      feed back into the input logic. */
  function AnimateAll(sc: Scene, inps: seq<FrameInput>): (r: Scene)
    ensures |inps| == 0 ==> r == sc
    ensures |inps| > 0 ==> r.canvas == inps[|inps| - 1].window
    ensures |sc.stars| == Stars.StarCount ==> |r.stars| == Stars.StarCount
    ensures r.control == Controller.Final(sc.control, Frames(inps))
    decreases |inps|
  {
    if |inps| == 0 then sc else AnimateAll(Animate(sc, inps[0]), inps[1..])
  }

  /** The invariant holds in every scene the display reaches from mount. */
  lemma {:induction false} ReachableScenesOk(sc: Scene, inps: seq<FrameInput>)
    requires SceneOk(sc)
    ensures SceneOk(AnimateAll(sc, inps))
    decreases |inps|
  {
    if |inps| > 0 {
      AnimateKeepsSceneOk(sc, inps[0]);
      ReachableScenesOk(Animate(sc, inps[0]), inps[1..]);
    }
  }

  /** Once created, the starfield keeps its 150 stars; and it is created by the
      first frame that finds the canvas at a size other than the window's. */
  lemma StarsCreatedOnce(sc: Scene, inp: FrameInput)
    ensures |sc.stars| == Stars.StarCount ==> |Animate(sc, inp).stars| == Stars.StarCount
    ensures |sc.stars| == 0 && sc.canvas != inp.window ==> |Animate(sc, inp).stars| == Stars.StarCount
    ensures |sc.stars| == 0 && sc.canvas == inp.window ==> |Animate(sc, inp).stars| == 0
  {
  }

  // ---------------------------------------------------------------------
  // The fist clears the sky

  /** What a frame's effect does to particles that were already there: a
      clear clears them, and a burst or no effect leaves them alone. */
  function OldEffect(f: seq<Particle>, e: Controller.Effects): seq<Particle> {
    if e.explosion.None? && e.clear then Particles.ClearParticles(f) else f
  }

  /** A group of particles at the front of the list stays a separate prefix
      through a frame: the frame run on `f + ps` is the frame run on `ps`,
      with `f`'s own effect and update in front. */
  lemma AnimateSplit(sc: Scene, f: seq<Particle>, inp: FrameInput)
    ensures var e := Controller.Step(sc.control, inp.sample, inp.time, inp.window).effects;
            var a := Animate(sc, inp);
            Animate(sc.(particles := f + sc.particles), inp)
              == a.(particles := Particles.Advance(OldEffect(f, e)) + a.particles)
  {
    var t := Controller.Step(sc.control, inp.sample, inp.time, inp.window);
    var ps := ApplyEffects(sc.particles, t.effects, inp.burst, inp.sparks);
    assert ApplyEffects(f + sc.particles, t.effects, inp.burst, inp.sparks) == OldEffect(f, t.effects) + ps by {
      match t.effects.explosion {
        case Some(p) => Particles.ExplosionAppend(f, sc.particles, p.x, p.y, inp.burst, inp.sparks);
        case None => if t.effects.clear { Particles.ClearAppend(f, sc.particles); }
      }
    }
    Particles.AdvanceAppend(OldEffect(f, t.effects), ps);
  }

  /** A fading cohort at the front of the particle list is gone after m
      frames, whatever those frames spawn or clear: from then on the display
      is exactly the display without it. */
  lemma {:induction false} FadingCohortVanishes(sc: Scene, f: seq<Particle>, m: nat, inps: seq<FrameInput>)
    requires m >= 1 && Particles.Fading(f, m)
    requires |inps| >= m
    ensures AnimateAll(sc.(particles := f + sc.particles), inps) == AnimateAll(sc, inps)
    decreases m
  {
    var inp := inps[0];
    var e := Controller.Step(sc.control, inp.sample, inp.time, inp.window).effects;
    var a := Animate(sc, inp);
    var g := OldEffect(f, e);
    assert Particles.Fading(g, m) by {
      if e.explosion.None? && e.clear { Particles.ClearIsFading(f, m); }
    }
    AnimateSplit(sc, f, inp);
    Particles.AdvanceFading(g, m);
    var f1 := Particles.Advance(g);
    if m == 1 {
      assert a.(particles := f1 + a.particles) == a;
    } else {
      FadingCohortVanishes(a, f1, m - 1, inps[1..]);
    }
  }

  /** Closing the fist clears the sky within ten frames: if the first frame of
      a run fires a clear and the run lasts at least ten frames, the display
      ends exactly as if there had been no particles when the fist closed.
      Sparks spawned by later bursts are untouched; only the cleared ones go. */
  lemma FistClearsSkyWithinTenFrames(sc: Scene, inps: seq<FrameInput>)
    requires forall i | 0 <= i < |sc.particles| :: sc.particles[i].alpha <= 1.0
    requires |inps| >= 10
    requires Controller.Step(sc.control, inps[0].sample, inps[0].time, inps[0].window).effects.clear
    ensures AnimateAll(sc, inps) == AnimateAll(sc.(particles := []), inps)
  {
    var empty := sc.(particles := []);
    assert empty.(particles := sc.particles + empty.particles) == sc;
    AnimateSplit(empty, sc.particles, inps[0]);
    var a := Animate(empty, inps[0]);
    Particles.ClearIsFading(sc.particles, 10);
    Particles.AdvanceFading(Particles.ClearParticles(sc.particles), 10);
    var f1 := Particles.Advance(Particles.ClearParticles(sc.particles));
    assert Animate(sc, inps[0]) == a.(particles := f1 + a.particles);
    FadingCohortVanishes(a, f1, 9, inps[1..]);
  }
}
