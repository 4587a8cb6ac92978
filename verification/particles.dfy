/**
 Firework particles: spawning a burst, the "clear" fade-out, and the per-frame
 update that moves every particle and drops the ones that have faded.

 Random draws are parameters of type `Random` (a real in [0, 1)); the cosine
 and sine of each spark's random angle are opaque reals of its draw record.
 */
module Particles {
  import opened Types

  const Gravity: real := 0.15
  const Friction: real := 0.96
  /** Decay rate forced on every live particle by a clear. */
  const ClearDecay: real := 0.1
  /** Velocity boost applied by a clear. */
  const ClearBoost: real := 1.1

  /** The eight-colour palette. */
  const Colors: seq<string> :=
    ["#ff0040", "#00ff80", "#4000ff", "#ffff00", "#ff8000", "#ff00ff", "#00ffff", "#ffffff"]

  // ---------------------------------------------------------------------
  // Spawning

  /** Smallest integer not below `c`. */
  function Ceil(c: real): (n: int)
    ensures (n - 1) as real < c <= n as real
  {
    -((-c).Floor)
  }

  /** Number of sparks in a burst: the loop `for (i = 0; i < 80 + r·40; i++)`
      runs once for every integer below 80 + r·40, i.e. ⌈80 + r·40⌉ times,
      which is between 80 and 120 inclusive. */
  function BurstSize(r: Random): (n: nat)
    ensures 80 <= n <= 120
    ensures (n - 1) as real < 80.0 + r * 40.0 <= n as real
  {
    Ceil(80.0 + r * 40.0)
  }

  /** `Math.floor(r * COLORS.length)`: a valid palette index. */
  function PaletteIndex(r: Random): (i: nat)
    ensures i < |Colors|
    ensures i as real <= r * 8.0 < (i + 1) as real
  {
    (r * 8.0).Floor
  }

  function PickColor(r: Random): (c: string)
    ensures c in Colors
  {
    Colors[PaletteIndex(r)]
  }

  /** The draws made once per burst: size, base colour, and the mixed-colour coin. */
  datatype BurstDraws = BurstDraws(count: Random, base: Random, mix: Random)

  /** The draws made per spark; `cos` and `sin` stand for the cosine and sine of
      the spark's random angle. */
  datatype ParticleDraws = ParticleDraws(speed: Random, cos: real, sin: real, color: Random, size: Random, decay: Random)

  /** A mixed burst re-draws every spark's colour. */
  predicate Mixed(b: BurstDraws) {
    b.mix > 0.5
  }

  /** Spark speed, in [2, 10). */
  function Speed(r: Random): (s: real)
    ensures 2.0 <= s < 10.0
  {
    r * 8.0 + 2.0
  }

  /** One new spark at (x, y). */
  function Spark(x: real, y: real, base: string, mixed: bool, d: ParticleDraws): (p: Particle)
    ensures p.x == x && p.y == y
    ensures p.alpha == 1.0 && p.life == 1.0 && p.maxLife == 1.0
    ensures 1.0 <= p.size < 4.0
    ensures 0.005 <= p.decay < 0.02
    ensures mixed ==> p.color in Colors
    ensures !mixed ==> p.color == base
    ensures p.vx == d.cos * Speed(d.speed) && p.vy == d.sin * Speed(d.speed)
  {
    Particle(
      x, y,
      d.cos * Speed(d.speed), d.sin * Speed(d.speed),
      if mixed then PickColor(d.color) else base,
      1.0,
      d.size * 3.0 + 1.0,
      d.decay * 0.015 + 0.005,
      1.0, 1.0)
  }

  /** The sparks of one burst at (x, y), in spawn order. */
  function Burst(x: real, y: real, b: BurstDraws, draws: nat -> ParticleDraws): (r: seq<Particle>)
    ensures |r| == BurstSize(b.count)
    ensures forall i | 0 <= i < |r| :: r[i] == Spark(x, y, PickColor(b.base), Mixed(b), draws(i))
  {
    var base := PickColor(b.base);
    var n := BurstSize(b.count);
    seq(n, i requires 0 <= i < n => Spark(x, y, base, Mixed(b), draws(i)))
  }

  /** createExplosion: appends a burst of 80 to 120 sparks at (x, y) and leaves
      the existing particles as they were. Every new spark starts fully opaque
      with a palette colour; in a burst that is not mixed they all share the
      base colour. */
  function CreateExplosion(ps: seq<Particle>, x: real, y: real, b: BurstDraws, draws: nat -> ParticleDraws)
    : (r: seq<Particle>)
    ensures |r| == |ps| + BurstSize(b.count)
    ensures 80 <= |r| - |ps| <= 120
    ensures r[..|ps|] == ps
    ensures forall i | |ps| <= i < |r| ::
              && r[i].x == x && r[i].y == y
              && r[i].alpha == 1.0 && r[i].life == 1.0 && r[i].maxLife == 1.0
              && 1.0 <= r[i].size < 4.0
              && 0.005 <= r[i].decay < 0.02
              && r[i].color in Colors
    ensures !Mixed(b) ==> forall i | |ps| <= i < |r| :: r[i].color == PickColor(b.base)
    ensures forall i | |ps| <= i < |r| ::
              var s := Speed(draws(i - |ps|).speed);
              r[i].vx == draws(i - |ps|).cos * s && r[i].vy == draws(i - |ps|).sin * s
  {
    var sparks := Burst(x, y, b, draws);
    var r := ps + sparks;
    assert forall i | |ps| <= i < |r| :: r[i] == sparks[i - |ps|];
    r
  }

  // ---------------------------------------------------------------------
  // Clearing

  /** clearParticles: every live particle fades ten times faster and speeds up
      by 10%. Nothing is added or removed, the order is kept, and position,
      opacity, colour, size and life are untouched. */
  function ClearParticles(ps: seq<Particle>): (r: seq<Particle>)
    ensures |r| == |ps|
    ensures forall i | 0 <= i < |ps| ::
              && r[i].decay == ClearDecay
              && r[i].vx == ps[i].vx * ClearBoost && r[i].vy == ps[i].vy * ClearBoost
              && r[i].x == ps[i].x && r[i].y == ps[i].y
              && r[i].alpha == ps[i].alpha && r[i].color == ps[i].color
              && r[i].size == ps[i].size && r[i].life == ps[i].life && r[i].maxLife == ps[i].maxLife
  {
    seq(|ps|, i requires 0 <= i < |ps| =>
      ps[i].(decay := ClearDecay, vx := ps[i].vx * ClearBoost, vy := ps[i].vy * ClearBoost))
  }

  // ---------------------------------------------------------------------
  // Per-frame update

  /** One frame of physics for one particle: move by the old velocity, apply
      friction then gravity, fade by the decay rate, and copy alpha into life.
      With a positive decay the particle is strictly more transparent. */
  function StepParticle(p: Particle): (q: Particle)
    ensures q.x == p.x + p.vx && q.y == p.y + p.vy
    ensures q.vx == p.vx * Friction && q.vy == p.vy * Friction + Gravity
    ensures q.alpha == p.alpha - p.decay
    ensures q.life == q.alpha
    ensures p.decay > 0.0 ==> q.alpha < p.alpha
    ensures q.decay == p.decay && q.color == p.color && q.size == p.size && q.maxLife == p.maxLife
  {
    p.(x := p.x + p.vx, y := p.y + p.vy,
       vx := p.vx * Friction, vy := p.vy * Friction + Gravity,
       alpha := p.alpha - p.decay, life := p.alpha - p.decay)
  }

  /** The particle after its update, if it is still visible (alpha > 0). */
  function Kept(p: Particle): (r: seq<Particle>)
    ensures |r| <= 1
    ensures |r| == 1 <==> StepParticle(p).alpha > 0.0
  {
    var q := StepParticle(p);
    if q.alpha > 0.0 then [q] else []
  }

  /** The updated survivors among `ps[lo..]`, in order. */
  function AdvanceFrom(ps: seq<Particle>, lo: nat): seq<Particle>
    requires lo <= |ps|
    decreases |ps| - lo
  {
    if lo == |ps| then []
    else Kept(ps[lo]) + AdvanceFrom(ps, lo + 1)
  }

  /** The survivors of `ps[lo..]` are at most as many as the particles, all
      visible, and none at all when every one of them fades out. */
  lemma {:induction false} AdvanceFromBounds(ps: seq<Particle>, lo: nat)
    requires lo <= |ps|
    decreases |ps| - lo
    ensures var r := AdvanceFrom(ps, lo);
            && |r| <= |ps| - lo
            && (forall k | 0 <= k < |r| :: r[k].alpha > 0.0)
            && ((forall j | lo <= j < |ps| :: StepParticle(ps[j]).alpha <= 0.0) ==> r == [])
  {
    if lo < |ps| {
      AdvanceFromBounds(ps, lo + 1);
      var q := StepParticle(ps[lo]);
      var rest := AdvanceFrom(ps, lo + 1);
      if q.alpha > 0.0 {
        var r: seq<Particle> := [q] + rest;
        assert AdvanceFrom(ps, lo) == r;
        forall i | 0 <= i < |r| ensures r[i].alpha > 0.0 {
          if i > 0 { assert r[i] == rest[i - 1]; }
        }
      } else {
        assert AdvanceFrom(ps, lo) == rest;
      }
    }
  }

  /** The update of the whole particle list: never longer than the list, only
      visible particles remain, and nothing remains when every particle fades
      out in this frame. */
  function Advance(ps: seq<Particle>): (r: seq<Particle>)
    ensures |r| <= |ps|
    ensures forall k | 0 <= k < |r| :: r[k].alpha > 0.0
    ensures (forall j | 0 <= j < |ps| :: StepParticle(ps[j]).alpha <= 0.0) ==> r == []
  {
    AdvanceFromBounds(ps, 0);
    AdvanceFrom(ps, 0)
  }

  /** The update of a suffix does not depend on what precedes it. */
  lemma {:induction false} AdvanceShift(a: seq<Particle>, b: seq<Particle>, j: nat)
    requires j <= |b|
    decreases |b| - j
    ensures AdvanceFrom(a + b, |a| + j) == AdvanceFrom(b, j)
  {
    if j < |b| {
      assert (a + b)[|a| + j] == b[j];
      AdvanceShift(a, b, j + 1);
    }
  }

  lemma {:induction false} AdvancePrefix(a: seq<Particle>, b: seq<Particle>, lo: nat)
    requires lo <= |a|
    decreases |a| - lo
    ensures AdvanceFrom(a + b, lo) == AdvanceFrom(a, lo) + Advance(b)
  {
    if lo == |a| {
      AdvanceShift(a, b, 0);
      assert AdvanceFrom(a, lo) == [];
      assert AdvanceFrom(a, lo) + Advance(b) == Advance(b);
    } else {
      AdvancePrefix(a, b, lo + 1);
      PrefixStep(a + b, a, Advance(b), lo);
    }
  }

  /** One step of `AdvancePrefix`: a shared particle at `lo` extends a shared
      tail by the same survivors. */
  lemma PrefixStep(ab: seq<Particle>, a: seq<Particle>, rest: seq<Particle>, lo: nat)
    requires lo < |a| <= |ab| && ab[lo] == a[lo]
    requires AdvanceFrom(ab, lo + 1) == AdvanceFrom(a, lo + 1) + rest
    ensures AdvanceFrom(ab, lo) == AdvanceFrom(a, lo) + rest
  {
    var k := Kept(a[lo]);
    assert AdvanceFrom(ab, lo) == k + AdvanceFrom(ab, lo + 1);
    assert AdvanceFrom(a, lo) == k + AdvanceFrom(a, lo + 1);
    assert k + (AdvanceFrom(a, lo + 1) + rest) == (k + AdvanceFrom(a, lo + 1)) + rest;
  }

  /** The update works particle by particle, so it distributes over
      concatenation: two groups of particles are updated independently. */
  lemma AdvanceAppend(a: seq<Particle>, b: seq<Particle>)
    ensures Advance(a + b) == Advance(a) + Advance(b)
  {
    AdvancePrefix(a, b, 0);
  }

  /** Indices (at least `lo`) of the particles that survive their update. */
  function SurvivorIndices(ps: seq<Particle>, lo: nat): seq<nat>
    requires lo <= |ps|
    decreases |ps| - lo
  {
    if lo == |ps| then []
    else (if StepParticle(ps[lo]).alpha > 0.0 then [lo] else []) + SurvivorIndices(ps, lo + 1)
  }

  /** There are as many surviving indices as survivors. */
  lemma {:induction false} SurvivorCount(ps: seq<Particle>, lo: nat)
    requires lo <= |ps|
    decreases |ps| - lo
    ensures |SurvivorIndices(ps, lo)| == |AdvanceFrom(ps, lo)|
  {
    if lo < |ps| {
      SurvivorCount(ps, lo + 1);
    }
  }

  /** Surviving indices lie in range, and the k-th survivor is the update of
      the particle at the k-th surviving index. */
  lemma {:induction false} SurvivorsMatch(ps: seq<Particle>, lo: nat)
    requires lo <= |ps|
    decreases |ps| - lo
    ensures |SurvivorIndices(ps, lo)| == |AdvanceFrom(ps, lo)|
    ensures forall k | 0 <= k < |SurvivorIndices(ps, lo)| ::
              lo <= SurvivorIndices(ps, lo)[k] < |ps|
              && AdvanceFrom(ps, lo)[k] == StepParticle(ps[SurvivorIndices(ps, lo)[k]])
  {
    SurvivorCount(ps, lo);
    if lo < |ps| {
      SurvivorsMatch(ps, lo + 1);
      var idx := SurvivorIndices(ps, lo + 1);
      var r := AdvanceFrom(ps, lo + 1);
      var idx0 := SurvivorIndices(ps, lo);
      var r0 := AdvanceFrom(ps, lo);
      if StepParticle(ps[lo]).alpha > 0.0 {
        assert idx0 == [lo] + idx;
        assert r0 == [StepParticle(ps[lo])] + r;
        forall k | 0 <= k < |idx0|
          ensures lo <= idx0[k] < |ps| && r0[k] == StepParticle(ps[idx0[k]])
        {
          if k > 0 {
            assert idx0[k] == idx[k - 1];
            assert r0[k] == r[k - 1];
            assert r[k - 1] == StepParticle(ps[idx[k - 1]]);
          }
        }
      } else {
        assert idx0 == idx;
        assert r0 == r;
      }
    }
  }

  lemma {:induction false} SurvivorIndicesIncrease(ps: seq<Particle>, lo: nat)
    requires lo <= |ps|
    decreases |ps| - lo
    ensures forall k | 0 <= k < |SurvivorIndices(ps, lo)| :: lo <= SurvivorIndices(ps, lo)[k]
    ensures forall k, m | 0 <= k < m < |SurvivorIndices(ps, lo)| ::
              SurvivorIndices(ps, lo)[k] < SurvivorIndices(ps, lo)[m]
  {
    if lo < |ps| {
      SurvivorIndicesIncrease(ps, lo + 1);
      var idx := SurvivorIndices(ps, lo + 1);
      if StepParticle(ps[lo]).alpha > 0.0 {
        var idx0 := SurvivorIndices(ps, lo);
        assert idx0 == [lo] + idx;
        forall k, m | 0 <= k < m < |idx0|
          ensures idx0[k] < idx0[m]
        {
          assert idx0[m] == idx[m - 1];
          if k > 0 {
            assert idx0[k] == idx[k - 1];
          }
        }
      }
    }
  }

  /** An index from `lo` on is a survivor exactly when its updated alpha is positive. */
  lemma {:induction false} SurvivorIndicesExact(ps: seq<Particle>, lo: nat)
    requires lo <= |ps|
    decreases |ps| - lo
    ensures forall j | lo <= j < |ps| :: j in SurvivorIndices(ps, lo) <==> StepParticle(ps[j]).alpha > 0.0
  {
    if lo < |ps| {
      SurvivorIndicesExact(ps, lo + 1);
      SurvivorIndicesIncrease(ps, lo + 1);
      var idx := SurvivorIndices(ps, lo + 1);
      assert lo !in idx;
      if StepParticle(ps[lo]).alpha > 0.0 {
        assert SurvivorIndices(ps, lo) == [lo] + idx;
      } else {
        assert SurvivorIndices(ps, lo) == idx;
      }
    }
  }

  /** The update is an order-preserving filter of the updated particles: the
      k-th survivor is the update of the particle at the k-th surviving index,
      the indices increase, and an index survives exactly when its updated
      alpha is positive. So every particle is updated exactly once. */
  lemma AdvanceIsOrderedFilter(ps: seq<Particle>)
    ensures |SurvivorIndices(ps, 0)| == |Advance(ps)|
    ensures forall k | 0 <= k < |SurvivorIndices(ps, 0)| ::
              SurvivorIndices(ps, 0)[k] < |ps|
              && Advance(ps)[k] == StepParticle(ps[SurvivorIndices(ps, 0)[k]])
    ensures forall k, m | 0 <= k < m < |SurvivorIndices(ps, 0)| ::
              SurvivorIndices(ps, 0)[k] < SurvivorIndices(ps, 0)[m]
    ensures forall j | 0 <= j < |ps| :: j in SurvivorIndices(ps, 0) <==> StepParticle(ps[j]).alpha > 0.0
  {
    SurvivorsMatch(ps, 0);
    SurvivorIndicesIncrease(ps, 0);
    SurvivorIndicesExact(ps, 0);
  }

  /** The update loop of the animation frame: walk the list from the last index
      down to the first, update each particle in place, and splice it out when
      it has faded. Walking backwards makes the splice harmless: the result is
      the ordered filter `Advance`, so each particle is visited exactly once. */
  method UpdateParticles(ps: seq<Particle>) returns (qs: seq<Particle>)
    ensures qs == Advance(ps)
    ensures |qs| <= |ps|
    ensures forall k | 0 <= k < |qs| :: qs[k].alpha > 0.0
  {
    qs := ps;
    var i: int := |ps| - 1;
    while i >= 0
      invariant -1 <= i < |ps|
      invariant qs == ps[..i + 1] + AdvanceFrom(ps, i + 1)
    {
      LoopStep(ps, i);
      var p := StepParticle(qs[i]);
      if p.alpha <= 0.0 {
        qs := qs[..i] + qs[i + 1..];
      } else {
        qs := qs[i := p];
      }
      i := i - 1;
    }
    assert ps[..0] == [];
  }

  /** One iteration of the update loop, on the list as the loop holds it: the
      unvisited prefix followed by the updated survivors of the suffix. Both
      the splice and the in-place write extend the processed suffix by one. */
  lemma LoopStep(ps: seq<Particle>, i: nat)
    requires i < |ps|
    ensures var qs := ps[..i + 1] + AdvanceFrom(ps, i + 1);
            var p := StepParticle(ps[i]);
            && qs[i] == ps[i]
            && (p.alpha <= 0.0 ==> qs[..i] + qs[i + 1..] == ps[..i] + AdvanceFrom(ps, i))
            && (p.alpha > 0.0 ==> qs[i := p] == ps[..i] + AdvanceFrom(ps, i))
  {
    var pre := ps[..i];
    var rest := AdvanceFrom(ps, i + 1);
    assert ps[..i + 1] == pre + [ps[i]];
    assert AdvanceFrom(ps, i) == Kept(ps[i]) + rest;
    ElementAt(pre, ps[i], rest);
    RemoveAt(pre, ps[i], rest);
    ReplaceAt(pre, ps[i], StepParticle(ps[i]), rest);
  }

  lemma ElementAt<T>(pre: seq<T>, x: T, rest: seq<T>)
    ensures (pre + [x] + rest)[|pre|] == x
  {
  }

  /** Splicing out the element at `|pre|`. */
  lemma RemoveAt<T>(pre: seq<T>, x: T, rest: seq<T>)
    ensures var s := pre + [x] + rest;
            s[..|pre|] + s[|pre| + 1..] == pre + rest
  {
    var s := pre + [x] + rest;
    assert s[..|pre|] == pre;
    assert s[|pre| + 1..] == rest;
  }

  /** Overwriting the element at `|pre|`. */
  lemma ReplaceAt<T>(pre: seq<T>, x: T, y: T, rest: seq<T>)
    ensures (pre + [x] + rest)[|pre| := y] == pre + ([y] + rest)
  {
  }

  /** A clear, too, treats two groups of particles independently. */
  lemma ClearAppend(a: seq<Particle>, b: seq<Particle>)
    ensures ClearParticles(a + b) == ClearParticles(a) + ClearParticles(b)
  {
    var l := ClearParticles(a + b);
    var r := ClearParticles(a) + ClearParticles(b);
    forall i | 0 <= i < |l| ensures l[i] == r[i] {
      if i < |a| {
        assert (a + b)[i] == a[i];
      } else {
        assert (a + b)[i] == b[i - |a|];
      }
    }
  }

  /** A burst only appends: whatever precedes the list stays in front. */
  lemma ExplosionAppend(f: seq<Particle>, ps: seq<Particle>, x: real, y: real, b: BurstDraws, draws: nat -> ParticleDraws)
    ensures CreateExplosion(f + ps, x, y, b, draws) == f + CreateExplosion(ps, x, y, b, draws)
  {
    var sparks := Burst(x, y, b, draws);
    assert (f + ps) + sparks == f + (ps + sparks);
  }

  /** A cohort of particles fading at the clear rate with alpha at most m·0.1. */
  predicate Fading(ps: seq<Particle>, m: nat) {
    forall i | 0 <= i < |ps| :: ps[i].decay == ClearDecay && ps[i].alpha <= (m as real) * ClearDecay
  }

  /** Each frame takes one step off a fading cohort's bound, and the last step
      removes it. */
  lemma AdvanceFading(ps: seq<Particle>, m: nat)
    requires m >= 1 && Fading(ps, m)
    ensures Fading(Advance(ps), m - 1)
    ensures m == 1 ==> Advance(ps) == []
  {
    var r := Advance(ps);
    if m == 1 {
      assert forall j | 0 <= j < |ps| :: StepParticle(ps[j]).alpha <= 0.0;
    } else {
      AdvanceIsOrderedFilter(ps);
      var idx := SurvivorIndices(ps, 0);
      var bound := ((m - 1) as real) * ClearDecay;
      assert bound == (m as real) * ClearDecay - ClearDecay;
      forall k | 0 <= k < |r|
        ensures r[k].decay == ClearDecay && r[k].alpha <= bound
      {
        var p := ps[idx[k]];
        assert r[k] == StepParticle(p);
        assert p.alpha <= (m as real) * ClearDecay && p.decay == ClearDecay;
      }
    }
  }

  /** A clear turns particles with alpha at most m·0.1 into a fading cohort,
      and keeps a fading cohort fading. */
  lemma ClearIsFading(ps: seq<Particle>, m: nat)
    requires forall i | 0 <= i < |ps| :: ps[i].alpha <= (m as real) * ClearDecay
    ensures Fading(ClearParticles(ps), m)
  {
  }

  /** `n` consecutive frames of update with no spawning in between. */
  function AdvanceTimes(ps: seq<Particle>, n: nat): seq<Particle>
    decreases n
  {
    if n == 0 then ps else AdvanceTimes(Advance(ps), n - 1)
  }

  /** Particles fading at the clear rate with alpha at most n·0.1 are all gone
      after n frames (n ≥ 1). */
  lemma {:induction false} FastFadeEmpties(ps: seq<Particle>, n: nat)
    requires n >= 1
    requires Fading(ps, n)
    decreases n
    ensures AdvanceTimes(ps, n) == []
  {
    var r := Advance(ps);
    assert AdvanceTimes(ps, n) == AdvanceTimes(r, n - 1);
    AdvanceFading(ps, n);
    if n > 1 {
      FastFadeEmpties(r, n - 1);
    }
  }

  /** After a clear, every particle with alpha at most 1 is removed by the
      tenth frame (over exact reals), provided no new burst is spawned. */
  lemma ClearedVanishWithinTen(ps: seq<Particle>)
    requires forall i | 0 <= i < |ps| :: ps[i].alpha <= 1.0
    ensures AdvanceTimes(ClearParticles(ps), 10) == []
  {
    ClearIsFading(ps, 10);
    FastFadeEmpties(ClearParticles(ps), 10);
  }
}
