# handworks — gesture-controlled fireworks, modelled in Dafny

handworks is a browser toy. A webcam hand tracker reports 21 landmarks per
detected hand. A classifier turns those landmarks into a gesture: OPEN,
CLOSED, NEUTRAL or UNKNOWN. The animation loop reacts to gesture edges:

- turning the hand OPEN launches a firework burst at the palm's position,
  at most one every 200 ms;
- making a fist (CLOSED) makes every live spark fade out quickly.

The loop also draws a twinkling starfield.

This project models the deterministic core of that pipeline and proves what it promises:

| module | file | models |
|---|---|---|
| `Types` | `types.dfy` | the shared records: gesture, landmark, hand sample, particle, star, canvas size, a random draw in [0, 1) |
| `GestureUtils` | `gesture_utils.dfy` | `getDistance` and `detectGesture`, over exact reals with squared distances |
| `Particles` | `particles.dfy` | `createExplosion`, `clearParticles`, and the per-frame update-and-remove loop |
| `Stars` | `stars.dfy` | `initStars`, the resize/star-creation condition, and the twinkle step |
| `Controller` | `controller.dfy` | the input block of `animate`: the rising-edge and debounce state machine |
| `FireworkDisplay` | `firework_display.dfy` | one whole animation frame without drawing, and the scene invariant every frame keeps |
| `WebcamInput` | `webcam_input.dfy` | the result-packaging branch of `onResults`: hands list to an optional mirrored sample |

Things the browser would supply are parameters of the model:

- each `Math.random()` is a value of type `Random`, a real in [0, 1);
- the per-star and per-spark draws are streams `nat -> …Draws`;
- the cosine and sine of a spark's random angle are opaque reals;
- `Date.now()` is the argument `now`;
- the `requestAnimationFrame` timestamp is the frame's `time`;
- the window size is the frame's `window`.

The classifier never takes a square root. `GestureUtils.SquaredTestsAgree`
proves that comparing d against k·h, for d, h ≥ 0 and k ∈ {1.1, 1.3, 0.5},
decides exactly as comparing d² against k²·h².
`GestureUtils.DistanceFormAgrees` lifts this to the whole hand: given the
non-negative roots of the six squared distances, the five digit verdicts are
exactly those of the distance tests in `detectGesture`.

Behaviours of the code a reader might not expect. The first and the third
contradict the repository's own comments; the model follows the code there:

- **Decision rule.** The classifier's comments speak of "5 fingers", but the
  code decides CLOSED or OPEN on at least four of the five digits
  (utils/gestureUtils.ts:63-67).
- **Zero hand size.** This case is not guarded. No digit can then be curled,
  so the result is OPEN or NEUTRAL, never UNKNOWN
  (`GestureUtils.ZeroHandSizeNeverClosed`).
- **Palm position.** The comment says the palm is the midpoint of
  landmark 9 and the wrist, but the code reads landmark 9 alone
  (components/WebcamInput.tsx:46,53).
- **Burst size.** The burst loop runs ⌈80 + 40·r⌉ times, so a burst holds
  between 80 and 120 sparks inclusive (`Particles.BurstSize`).
- **First 200 ms.** The last burst time starts at 0 and the debounce test is
  strict, so no burst can fire at a frame time of 200 ms or less
  (`Controller.NoBurstInFirst200ms`).
- **Lost edges.** An OPEN edge that the debounce swallows is lost
  (`Controller.SuppressedEdgeIsLost`).
- **Stuck stars.** A star whose first twinkle step cannot reach opacity 0.2
  flips direction every frame, returns to its start every second frame, and
  never reaches 0.2 (`Stars.StuckBelowBand`).

## Model

| member | source | states |
|---|---|---|
| Types.Scale | components/FireworkDisplay.tsx:34-35 | a random draw scaled by a non-negative extent w lies in [0, w], so every star is placed on the canvas |
| GestureUtils.DistSq | utils/gestureUtils.ts:7-9 | the squared image-plane distance is non-negative and zero between points that agree in x and y |
| GestureUtils.DistSqPlanar | utils/gestureUtils.ts:7-9 | points that agree in x and y give equal squared distances, so depth z plays no part |
| GestureUtils.TipByDistance | utils/gestureUtils.ts:45-50 | for h ≥ 0 a fingertip at distance d is Curled exactly when d < 1.1h and Extended exactly when d > 1.3h |
| GestureUtils.ThumbByDistance | utils/gestureUtils.ts:56-60 | the thumb is never ambiguous: Curled exactly when d < 0.5h, Extended otherwise |
| GestureUtils.TipBySquare | utils/gestureUtils.ts:32-51 | a fingertip is Curled exactly when its squared wrist distance is below 1.21·h², Extended exactly when above 1.69·h², so for h² ≥ 0 the two are disjoint |
| GestureUtils.ThumbBySquare | utils/gestureUtils.ts:55-60 | the thumb is never ambiguous: Curled exactly when its squared distance to the index knuckle is below 0.25·h², Extended otherwise |
| GestureUtils.SquaredTestsAgree | utils/gestureUtils.ts:30-57 | for d, h ≥ 0 the distance tests of `detectGesture` (d < 1.1h, d > 1.3h, d < 0.5h) classify every digit exactly as the squared tests do |
| GestureUtils.DistanceFormAgrees | utils/gestureUtils.ts:30-60 | given non-negative roots of the squared hand size and the five squared digit distances, the five digits are exactly the distance-form verdicts: index, middle, ring, pinky, thumb |
| GestureUtils.HandSizeSq | utils/gestureUtils.ts:30 | the squared hand size is non-negative, and zero when the wrist and the middle knuckle agree in x and y |
| GestureUtils.Tips | utils/gestureUtils.ts:38-51 | four verdicts, one per fingertip in the order index, middle, ring, pinky; each Curled exactly when its squared wrist distance is below 1.21·h², Extended exactly when above 1.69·h² |
| GestureUtils.Digits | utils/gestureUtils.ts:38-60 | five verdicts: the four fingertips followed by the thumb, which is never ambiguous |
| GestureUtils.Count | utils/gestureUtils.ts:40-60 | a digit count never exceeds the number of digits and is zero exactly when no digit has that state |
| GestureUtils.Thumb | utils/gestureUtils.ts:55-60 | the thumb always adds one to the curled count or to the extended count |
| GestureUtils.CountsBounded | utils/gestureUtils.ts:40-60 | curled + extended + neither is exactly 5, at most the four fingertips are ambiguous, between one and five digits are counted, and curled ≥ 4 and extended ≥ 4 never hold together |
| GestureUtils.DetectGesture | utils/gestureUtils.ts:15-70 | UNKNOWN exactly when fewer than 21 landmarks are given; otherwise CLOSED iff at least four digits are curled, OPEN iff at least four are extended, NEUTRAL iff neither count reaches four |
| GestureUtils.CheckOrderIrrelevant | utils/gestureUtils.ts:63-69 | testing OPEN before CLOSED gives the same gesture on every hand, because the two conditions exclude each other |
| GestureUtils.OnlyKeyLandmarksMatter | utils/gestureUtils.ts:15-57 | two hands that agree in x and y on landmarks 0, 4, 5, 8, 9, 12, 16 and 20 get the same gesture, whatever their other landmarks and depths |
| GestureUtils.SimilarDistSq | utils/gestureUtils.ts:7-9 | moving and uniformly scaling two landmarks by k multiplies their squared distance by k² |
| GestureUtils.ScaledTests | utils/gestureUtils.ts:32-36 | every per-digit test is unchanged when the digit distance and the hand size are scaled by the same non-zero factor |
| GestureUtils.SimilarityInvariant | utils/gestureUtils.ts:28-36 | the gesture is invariant under translating the hand and scaling it by any k > 0 |
| GestureUtils.ZeroHandSizeNeverClosed | utils/gestureUtils.ts:30-57 | if the wrist and the middle knuckle coincide, no digit is curled and the result is OPEN or NEUTRAL |
| GestureUtils.FourCurledTipsIsClosed | utils/gestureUtils.ts:63-64 | four curled fingertips give CLOSED whatever the thumb does |
| GestureUtils.FourExtendedTipsIsOpen | utils/gestureUtils.ts:66-67 | four extended fingertips give OPEN whatever the thumb does |
| Particles.BurstSize | components/FireworkDisplay.tsx:45-50 | the burst loop runs ⌈80 + 40r⌉ times, which is between 80 and 120 inclusive |
| Particles.PaletteIndex | components/FireworkDisplay.tsx:46 | ⌊8r⌋ is a valid index into the eight-colour palette |
| Particles.PickColor | components/FireworkDisplay.tsx:46 | a drawn colour is always one of the palette's colours |
| Particles.Mixed | components/FireworkDisplay.tsx:48 | a burst re-draws every spark's colour exactly when its mix draw exceeds 0.5 (used by Burst and CreateExplosion) |
| Particles.Speed | components/FireworkDisplay.tsx:51 | spark speed lies in [2, 10) |
| Particles.Spark | components/FireworkDisplay.tsx:51-65 | a new spark sits at the burst point, is fully opaque with life 1, has size in [1, 4) and decay in [0.005, 0.02), takes the base colour unless mixed, and its velocity is speed times the angle's cosine and sine |
| Particles.Burst | components/FireworkDisplay.tsx:50-66 | a burst is ⌈80 + 40r⌉ sparks drawn in order from the per-spark draws, all sharing the burst's base colour and mix flag |
| Particles.CreateExplosion | components/FireworkDisplay.tsx:44-66 | appends 80 to 120 sparks, leaves the existing particles untouched as a prefix, gives each new spark the listed start values, and gives them all the base colour when the burst is not mixed |
| Particles.ClearParticles | components/FireworkDisplay.tsx:69-76 | keeps count and order, sets every decay to 0.1, scales both velocity components by 1.1, and leaves position, alpha, colour, size and life as they were |
| Particles.StepParticle | components/FireworkDisplay.tsx:141-148 | the position moves by the old velocity; vx is multiplied by the friction 0.96, vy by 0.96 and then increased by the gravity 0.15; alpha falls by the decay, strictly when the decay is positive; life becomes the new alpha; decay, colour, size and maxLife are kept |
| Particles.Kept | components/FireworkDisplay.tsx:158-161 | a particle survives its update exactly when its new alpha is positive |
| Particles.AdvanceFromBounds | components/FireworkDisplay.tsx:138-162 | the update of a suffix never adds particles, every survivor has alpha > 0, and nothing survives when every particle fades |
| Particles.Advance | components/FireworkDisplay.tsx:138-162 | the update of the whole list never adds particles, leaves only particles with alpha > 0, and empties the list when every particle fades in this frame |
| Particles.AdvanceShift | components/FireworkDisplay.tsx:138-162 | the update of a suffix does not depend on the particles before it |
| Particles.AdvancePrefix | components/FireworkDisplay.tsx:138-162 | updating a + b from an index lo within a gives a's survivors from lo followed by all of b's survivors |
| Particles.PrefixStep | components/FireworkDisplay.tsx:158-161 | a shared particle in front of two lists extends a shared tail of survivors by the same survivor, if any |
| Particles.AdvanceAppend | components/FireworkDisplay.tsx:138-162 | the update distributes over concatenation: Advance(a + b) = Advance(a) + Advance(b) |
| Particles.SurvivorCount | components/FireworkDisplay.tsx:138-162 | there are exactly as many survivors as surviving indices |
| Particles.SurvivorsMatch | components/FireworkDisplay.tsx:138-162 | the k-th survivor is the update of the particle at the k-th surviving index |
| Particles.SurvivorIndicesIncrease | components/FireworkDisplay.tsx:138-162 | surviving indices strictly increase, so survivors keep their relative order |
| Particles.SurvivorIndicesExact | components/FireworkDisplay.tsx:138-162 | an index survives exactly when its updated alpha is positive |
| Particles.AdvanceIsOrderedFilter | components/FireworkDisplay.tsx:138-162 | the update is an order-preserving filter: each particle is updated exactly once and kept iff still visible |
| Particles.UpdateParticles | components/FireworkDisplay.tsx:138-162 | the reverse-index loop with in-place splice computes exactly that ordered filter, never grows the list, and leaves only particles with alpha > 0 |
| Particles.LoopStep | components/FireworkDisplay.tsx:159-161 | on the list as the loop holds it, both the splice at index i and the in-place write leave the visited suffix updated and filtered |
| Particles.ClearAppend | components/FireworkDisplay.tsx:69-76 | a clear distributes over concatenation |
| Particles.ExplosionAppend | components/FireworkDisplay.tsx:44-66 | a burst only appends, so particles in front of the list stay in front, unchanged |
| Particles.AdvanceFading | components/FireworkDisplay.tsx:138-162 | a cohort fading at 0.1 per frame with alpha at most m·0.1 has alpha at most (m − 1)·0.1 after one update, and is gone when m = 1 |
| Particles.FastFadeEmpties | components/FireworkDisplay.tsx:138-162 | particles that fade at 0.1 per frame with alpha at most n·0.1 are all removed after n updates |
| Particles.ClearedVanishWithinTen | components/FireworkDisplay.tsx:69-76 | after a clear, particles with alpha at most 1 are all removed within ten updates when no burst is spawned; FireworkDisplay.FistClearsSkyWithinTenFrames covers runs that do spawn |
| Stars.NewStar | components/FireworkDisplay.tsx:33-39 | a star lies on the canvas, with size in [0.5, 2.5), opacity in [0, 1) and twinkle speed in [0.005, 0.025) |
| Stars.InitStars | components/FireworkDisplay.tsx:30-42 | exactly 150 stars, each with those bounds |
| Stars.HandleResize | components/FireworkDisplay.tsx:85-89 | the canvas ends at the window size; stars are created for the new size exactly when the size changed while there were no stars, and are kept unchanged otherwise |
| Stars.Twinkle | components/FireworkDisplay.tsx:97-98 | opacity moves by the signed speed; the speed keeps its magnitude and at most changes sign; the star does not move |
| Stars.TwinkleAll | components/FireworkDisplay.tsx:96-99 | every star twinkles once and the star count is kept |
| Stars.TwinklePreservesBand | components/FireworkDisplay.tsx:97-98 | the bounce keeps the band invariant: opacity within one speed-step of [0.2, 1], and a star outside the band is heading back in |
| Stars.BandForever | components/FireworkDisplay.tsx:97-98 | the band invariant and the speed's magnitude hold in every later frame |
| Stars.TwinkleBounded | components/FireworkDisplay.tsx:96-99 | a star starting with opacity in [0.2, 1] keeps its opacity within [0.2 − s, 1 + s] forever, where s is its speed's magnitude |
| Stars.StuckBelowBand | components/FireworkDisplay.tsx:97-98 | a star below 0.2 that cannot reach 0.2 in one step returns to its start every second frame and never reaches 0.2 |
| Controller.Step | components/FireworkDisplay.tsx:106-135 | no sample changes nothing; a burst fires iff the sample is OPEN, the last gesture was not OPEN and more than 200 ms have passed, at (x·W, y·H), recording the time; a clear fires iff the sample is CLOSED after a non-CLOSED gesture, with no timing condition; never both; the last gesture becomes the sample's even when the burst was swallowed |
| Controller.RunUnfold | components/FireworkDisplay.tsx:121-127 | a run's bursts are the first frame's burst, if any, followed by the rest of the run's, and a burst fires only more than 200 ms after the last |
| Controller.BurstsAfterLast | components/FireworkDisplay.tsx:121-127 | over any run, every burst is more than 200 ms after the starting state's last burst, and the final state records the latest burst |
| Controller.DebounceSpacing | components/FireworkDisplay.tsx:121-127 | over any run, consecutive bursts are more than 200 ms apart, whatever the frame clock does |
| Controller.NoBurstInFirst200ms | components/FireworkDisplay.tsx:14-127 | starting from the mount state, no burst ever fires at a frame time of 200 ms or less |
| Controller.HeldOpenNeverFires | components/FireworkDisplay.tsx:121-134 | holding the hand OPEN after an OPEN frame never fires a burst |
| Controller.SuppressedEdgeIsLost | components/FireworkDisplay.tsx:121-134 | an OPEN edge swallowed by the debounce is never fired later while the hand stays open |
| Controller.NoHandRunIsIdle | components/FireworkDisplay.tsx:107-108 | frames without a hand fire nothing and leave the state unchanged |
| Controller.ScenarioTwoBursts | components/FireworkDisplay.tsx:106-135 | the run NEUTRAL@100, OPEN@300, OPEN@350, NEUTRAL@400, OPEN@450, NEUTRAL@500, OPEN@600 bursts at 300 and 600 only |
| FireworkDisplay.ApplyEffects | components/FireworkDisplay.tsx:121-132 | a fired burst spawns sparks at its point, else a clear fades every particle, else the particles are kept; the count never falls and grows by at most 120 |
| FireworkDisplay.Animate | components/FireworkDisplay.tsx:78-162 | after a frame the canvas has the window's size, at most 120 particles were added, every particle left has alpha > 0, and a frame without a hand adds none and keeps the controller state |
| FireworkDisplay.InitialScene | components/FireworkDisplay.tsx:11-14 | the mounted scene keeps the canvas size it was given, has no stars and no particles, and its controller has seen no gesture and counts its last burst at time 0 |
| FireworkDisplay.InitialSceneOk | components/FireworkDisplay.tsx:11-14 | the mount state satisfies the scene invariant |
| FireworkDisplay.ExplosionKeepsOk | components/FireworkDisplay.tsx:44-66 | a burst keeps every particle well-formed: alpha in (0, 1], life equal to alpha, maxLife 1, decay in [0.005, 0.1], size in [1, 4), palette colour |
| FireworkDisplay.ClearKeepsOk | components/FireworkDisplay.tsx:69-76 | a clear keeps every particle well-formed |
| FireworkDisplay.AdvanceKeepsOk | components/FireworkDisplay.tsx:138-162 | the update keeps every surviving particle well-formed |
| FireworkDisplay.AnimateKeepsSceneOk | components/FireworkDisplay.tsx:84-162 | every frame keeps the scene invariant: there are 0 or 150 stars and every particle is well-formed |
| FireworkDisplay.AnimateAll | components/FireworkDisplay.tsx:78-169 | no frames leave the scene as it is; after a non-empty run the canvas has the last frame's window size; a complete starfield stays complete; the controller ends where the frame inputs alone take it, whatever the particles and stars do |
| FireworkDisplay.ReachableScenesOk | components/FireworkDisplay.tsx:78-169 | the invariant holds after any sequence of frames |
| FireworkDisplay.AnimateSplit | components/FireworkDisplay.tsx:121-162 | a group of particles at the front of the list stays a separate prefix through a frame: it receives its own clear, if any, and its own update, and the rest of the frame is as without it |
| FireworkDisplay.FadingCohortVanishes | components/FireworkDisplay.tsx:121-162 | a cohort fading at 0.1 per frame with alpha at most m·0.1 at the front of the list is gone after m frames, whatever those frames spawn or clear |
| FireworkDisplay.FistClearsSkyWithinTenFrames | components/FireworkDisplay.tsx:69-162 | if a frame fires a clear and at least ten frames run from it, the display ends exactly as if there had been no particles when the fist closed; sparks of later bursts are untouched |
| FireworkDisplay.StarsCreatedOnce | components/FireworkDisplay.tsx:85-89 | a complete starfield stays at 150 stars; an empty one becomes 150 stars on the first frame that finds the canvas size differing from the window, and stays empty otherwise |
| WebcamInput.Mirror | components/WebcamInput.tsx:57 | the mirrored x and the original sum to 1, so [0, 1] maps into [0, 1] |
| WebcamInput.MirrorInvolution | components/WebcamInput.tsx:57 | mirroring twice gives back the original coordinate |
| WebcamInput.MirrorOnto | components/WebcamInput.tsx:57 | every point of [0, 1] is the mirror of a point of [0, 1] |
| WebcamInput.PackageResults | components/WebcamInput.tsx:42-64 | no sample exactly when the hands list is absent or empty; otherwise the first hand's landmark 9 with x mirrored, its detected gesture, and the given clock time |
| WebcamInput.OnlyFirstHandMatters | components/WebcamInput.tsx:42-43 | hands after the first never change the sample |
| WebcamInput.FullHandIsClassified | components/WebcamInput.tsx:42-44 | a first hand with 21 landmarks always yields a sample with a gesture other than UNKNOWN |
| WebcamInput.SampleStaysNormalised | components/WebcamInput.tsx:53-58 | a palm inside the normalised frame gives a sample position inside the normalised frame |

## Left out

- All canvas drawing is left out: fade fill, star and spark arcs, the hand cursor, global alpha and compositing. It has no state the model could check.
- `requestAnimationFrame`, `cancelAnimationFrame` and the React `useEffect`/`useRef` lifecycle are left out. One frame is the function `FireworkDisplay.Animate`, and the loop is `FireworkDisplay.AnimateAll`.
- The frame's early return when there is no canvas or no 2-D context is left out. That is browser setup.
- The MediaPipe `Hands` and `Camera` setup, model loading, the mirrored preview drawing and the loading flag are left out. These are foreign library calls and I/O.
- App.tsx and index.tsx are not part of this model. They hold UI markup and the single-slot hand-off, which is the optional-sample argument of each frame.
- IEEE-754 doubles are not modelled: all arithmetic is exact. In particular, the ten-frame fade bound holds over reals.
- `Math.sqrt` is not modelled. Squared distances stand in for it, and `GestureUtils.SquaredTestsAgree` proves that the two forms decide alike.
- `Math.cos` and `Math.sin` are opaque inputs, so nothing is claimed about a spark's speed as the length of its velocity vector.
- `Math.random()` and `Date.now()` are parameters. The order in which one burst interleaves its draws is not modelled: the burst-level draws and the per-spark draws are separate inputs.
- The `!landmarks` null guard in `detectGesture` is left out. The only caller always passes the array of the first hand.
- Reading `.x` of a missing landmark 9 throws in `onResults`. `WebcamInput.PackageResults` therefore requires the first hand to have at least ten landmarks.
- The window and canvas sizes are natural numbers of pixels. Resizing is modelled only as far as the star-creation condition needs.
