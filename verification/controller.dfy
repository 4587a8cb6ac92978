/**
 The per-frame input logic of the animation loop: a two-field state machine
 that turns the latest hand sample into at most one effect per frame — a
 firework burst on an OPEN rising edge (debounced by 200 ms), or a clear on a
 CLOSED rising edge.
 */
module Controller {
  import opened Types

  /** Minimum spacing between bursts, in the frame clock's milliseconds. */
  const DebounceMs: real := 200.0

  datatype State = State(lastGesture: GestureType, lastExplosionTime: real)

  /** The state before the first frame: no gesture seen, and a burst "at time 0". */
  const Initial: State := State(UNKNOWN, 0.0)

  /** A point on the canvas, in pixels. */
  datatype Point = Point(x: real, y: real)

  /** What a frame's input step asks the particle system to do. */
  datatype Effects = Effects(explosion: Option<Point>, clear: bool)

  const NoEffects: Effects := Effects(None, false)

  datatype Transition = Transition(next: State, effects: Effects)

  /** The input step of one frame at `time`, with the canvas at its current size.
      Without a sample nothing happens. With one, a burst fires at the sample's
      position scaled to the canvas exactly when the gesture turns OPEN and more
      than 200 ms have passed since the last burst; a clear fires exactly when
      the gesture turns CLOSED, whatever the time. The last gesture is then
      overwritten, also when the debounce swallowed the burst. */
  function Step(s: State, sample: Option<HandTrackingData>, time: real, canvas: Canvas): (t: Transition)
    ensures sample.None? ==> t == Transition(s, NoEffects)
    ensures t.effects.explosion.Some? <==>
              && sample.Some?
              && sample.value.gesture == OPEN && s.lastGesture != OPEN
              && time - s.lastExplosionTime > DebounceMs
    ensures t.effects.explosion.Some? ==>
              t.effects.explosion.value ==
                Point(sample.value.x * canvas.width as real, sample.value.y * canvas.height as real)
    ensures t.next.lastExplosionTime == if t.effects.explosion.Some? then time else s.lastExplosionTime
    ensures t.effects.clear <==>
              sample.Some? && sample.value.gesture == CLOSED && s.lastGesture != CLOSED
    ensures !(t.effects.explosion.Some? && t.effects.clear)
    ensures t.next.lastGesture == if sample.Some? then sample.value.gesture else s.lastGesture
  {
    match sample
    case None => Transition(s, NoEffects)
    case Some(d) =>
      var at := Point(d.x * canvas.width as real, d.y * canvas.height as real);
      var fire := d.gesture == OPEN && s.lastGesture != OPEN && time - s.lastExplosionTime > DebounceMs;
      var clear := d.gesture == CLOSED && s.lastGesture != CLOSED;
      Transition(
        State(d.gesture, if fire then time else s.lastExplosionTime),
        Effects(if fire then Some(at) else None, clear))
  }

  // ---------------------------------------------------------------------
  // Runs over many frames

  /** The controller's view of one animation frame. */
  datatype Frame = Frame(sample: Option<HandTrackingData>, time: real, canvas: Canvas)

  function StepFrame(s: State, f: Frame): Transition {
    Step(s, f.sample, f.time, f.canvas)
  }

  /** The state after a run of frames. */
  function Final(s: State, fs: seq<Frame>): State
    decreases |fs|
  {
    if |fs| == 0 then s else Final(StepFrame(s, fs[0]).next, fs[1..])
  }

  /** The frame times at which a burst fired, in order. */
  function ExplosionTimes(s: State, fs: seq<Frame>): seq<real>
    decreases |fs|
  {
    if |fs| == 0 then []
    else
      var t := StepFrame(s, fs[0]);
      (if t.effects.explosion.Some? then [fs[0].time] else []) + ExplosionTimes(t.next, fs[1..])
  }

  /** One frame of a run: the run's bursts are this frame's burst, if any,
      followed by the bursts of the rest of the run. */
  lemma RunUnfold(s: State, fs: seq<Frame>)
    requires |fs| > 0
    ensures var t := StepFrame(s, fs[0]);
            && ExplosionTimes(s, fs) ==
                 (if t.effects.explosion.Some? then [fs[0].time] else []) + ExplosionTimes(t.next, fs[1..])
            && Final(s, fs) == Final(t.next, fs[1..])
            && t.next.lastExplosionTime == (if t.effects.explosion.Some? then fs[0].time else s.lastExplosionTime)
            && (t.effects.explosion.Some? ==> fs[0].time > s.lastExplosionTime + DebounceMs)
  {
  }

  /** Every burst of a run is more than 200 ms after the state's last burst,
      and the final state remembers the latest burst. */
  lemma {:induction false} BurstsAfterLast(s: State, fs: seq<Frame>)
    ensures var e := ExplosionTimes(s, fs);
            && (forall i | 0 <= i < |e| :: e[i] > s.lastExplosionTime + DebounceMs)
            && Final(s, fs).lastExplosionTime == if |e| == 0 then s.lastExplosionTime else e[|e| - 1]
    decreases |fs|
  {
    if |fs| > 0 {
      var t := StepFrame(s, fs[0]);
      RunUnfold(s, fs);
      BurstsAfterLast(t.next, fs[1..]);
      var rest := ExplosionTimes(t.next, fs[1..]);
      var e := ExplosionTimes(s, fs);
      if t.effects.explosion.Some? {
        assert e == [fs[0].time] + rest;
        forall i | 0 <= i < |e| ensures e[i] > s.lastExplosionTime + DebounceMs {
          if i > 0 { assert e[i] == rest[i - 1]; }
        }
      } else {
        assert e == rest;
      }
    }
  }

  /** The debounce holds across any run, whatever the clock does: consecutive
      bursts are more than 200 ms apart. */
  lemma {:induction false} DebounceSpacing(s: State, fs: seq<Frame>)
    ensures var e := ExplosionTimes(s, fs);
            forall i | 0 < i < |e| :: e[i] > e[i - 1] + DebounceMs
    decreases |fs|
  {
    if |fs| > 0 {
      var t := StepFrame(s, fs[0]);
      RunUnfold(s, fs);
      DebounceSpacing(t.next, fs[1..]);
      BurstsAfterLast(t.next, fs[1..]);
      var rest := ExplosionTimes(t.next, fs[1..]);
      var e := ExplosionTimes(s, fs);
      if t.effects.explosion.Some? {
        assert e == [fs[0].time] + rest;
        forall i | 0 < i < |e| ensures e[i] > e[i - 1] + DebounceMs {
          assert e[i] == rest[i - 1];
          if i > 1 { assert e[i - 1] == rest[i - 2]; }
        }
      } else {
        assert e == rest;
      }
    }
  }

  /** Because the initial "last burst" is at time 0 and the test is strict,
      no burst ever fires at a frame time of 200 ms or less. */
  lemma NoBurstInFirst200ms(fs: seq<Frame>)
    ensures forall i | 0 <= i < |ExplosionTimes(Initial, fs)| :: ExplosionTimes(Initial, fs)[i] > DebounceMs
  {
    BurstsAfterLast(Initial, fs);
  }

  /** Every frame carries a sample with this gesture. */
  predicate AllSamples(fs: seq<Frame>, g: GestureType) {
    forall i | 0 <= i < |fs| :: fs[i].sample.Some? && fs[i].sample.value.gesture == g
  }

  /** An OPEN hand that is held never fires again: only the edge counts. */
  lemma {:induction false} HeldOpenNeverFires(s: State, fs: seq<Frame>)
    requires s.lastGesture == OPEN
    requires AllSamples(fs, OPEN)
    ensures ExplosionTimes(s, fs) == []
    ensures Final(s, fs).lastGesture == OPEN
    decreases |fs|
  {
    if |fs| > 0 {
      assert AllSamples(fs[1..], OPEN) by {
        forall i | 0 <= i < |fs[1..]| ensures fs[1..][i] == fs[i + 1] { }
      }
      HeldOpenNeverFires(StepFrame(s, fs[0]).next, fs[1..]);
    }
  }

  /** A rising edge swallowed by the debounce is lost: if the hand opens too
      soon after the last burst and stays open, no burst fires at all, however
      long the hand is held. */
  lemma SuppressedEdgeIsLost(s: State, fs: seq<Frame>)
    requires |fs| > 0 && AllSamples(fs, OPEN)
    requires fs[0].time - s.lastExplosionTime <= DebounceMs
    ensures ExplosionTimes(s, fs) == []
  {
    var t := StepFrame(s, fs[0]);
    assert AllSamples(fs[1..], OPEN) by {
      forall i | 0 <= i < |fs[1..]| ensures fs[1..][i] == fs[i + 1] { }
    }
    HeldOpenNeverFires(t.next, fs[1..]);
  }

  /** A frame with no hand changes nothing. */
  lemma {:induction false} NoHandRunIsIdle(s: State, fs: seq<Frame>)
    requires forall i | 0 <= i < |fs| :: fs[i].sample.None?
    ensures ExplosionTimes(s, fs) == []
    ensures Final(s, fs) == s
    decreases |fs|
  {
    if |fs| > 0 {
      NoHandRunIsIdle(s, fs[1..]);
    }
  }

  function Sample(g: GestureType): Option<HandTrackingData> {
    Some(HandTrackingData(0.5, 0.5, g, 0.0))
  }

  /** A worked run: open at 300 fires, the re-open at 450 is within 200 ms of
      it and is swallowed, the re-open at 600 fires again. */
  lemma ScenarioTwoBursts()
    ensures var c := Canvas(800, 600);
            var fs := [Frame(Sample(NEUTRAL), 100.0, c), Frame(Sample(OPEN), 300.0, c),
                       Frame(Sample(OPEN), 350.0, c), Frame(Sample(NEUTRAL), 400.0, c),
                       Frame(Sample(OPEN), 450.0, c), Frame(Sample(NEUTRAL), 500.0, c),
                       Frame(Sample(OPEN), 600.0, c)];
            ExplosionTimes(Initial, fs) == [300.0, 600.0]
  {
    var c := Canvas(800, 600);
    var fs := [Frame(Sample(NEUTRAL), 100.0, c), Frame(Sample(OPEN), 300.0, c),
               Frame(Sample(OPEN), 350.0, c), Frame(Sample(NEUTRAL), 400.0, c),
               Frame(Sample(OPEN), 450.0, c), Frame(Sample(NEUTRAL), 500.0, c),
               Frame(Sample(OPEN), 600.0, c)];
    var s1 := State(NEUTRAL, 0.0);
    var s2 := State(OPEN, 300.0);
    var s4 := State(NEUTRAL, 300.0);
    var s5 := State(OPEN, 300.0);
    var s6 := State(NEUTRAL, 300.0);
    assert ExplosionTimes(s6, fs[6..]) == [600.0];
    assert ExplosionTimes(s5, fs[5..]) == [600.0];
    assert ExplosionTimes(s4, fs[4..]) == [600.0];
    assert ExplosionTimes(s2, fs[3..]) == [600.0];
    assert ExplosionTimes(s2, fs[2..]) == [600.0];
    assert ExplosionTimes(s1, fs[1..]) == [300.0, 600.0];
  }
}
