/**
 The gesture classifier: 21 hand landmarks to OPEN / CLOSED / NEUTRAL / UNKNOWN.

 `detectGesture` measures Euclidean distances (with a square root) and compares
 them with multiples of the hand size. Here every comparison is made on
 squared distances with squared factors (1.1² = 1.21, 1.3² = 1.69,
 0.5² = 0.25); `SquaredTestsAgree` proves the two forms decide alike.
 */
module GestureUtils {
  import opened Types

  // Landmark indices of the hand model
  const Wrist := 0
  const ThumbTip := 4
  const IndexMcp := 5
  const IndexTip := 8
  const MiddleMcp := 9
  const MiddleTip := 12
  const RingTip := 16
  const PinkyTip := 20
  const LandmarkCount := 21

  /** The fingertips whose distance to the wrist is tested, in order. */
  const TipIndices: seq<int> := [IndexTip, MiddleTip, RingTip, PinkyTip]

  /** The only landmarks the classifier reads. */
  const KeyLandmarks: set<int> := {Wrist, ThumbTip, IndexMcp, IndexTip, MiddleMcp, MiddleTip, RingTip, PinkyTip}

  /** How one digit is counted. */
  datatype Finger = Curled | Extended | Neither

  /** Squared distance in the image plane; depth `z` plays no part. */
  function DistSq(p: Landmark, q: Landmark): (d: real)
    ensures d >= 0.0
    ensures p.x == q.x && p.y == q.y ==> d == 0.0
  {
    SquareNonNegative(p.x - q.x);
    SquareNonNegative(p.y - q.y);
    (p.x - q.x) * (p.x - q.x) + (p.y - q.y) * (p.y - q.y)
  }

  lemma ProductPositive(a: real, b: real)
    requires a > 0.0 && b > 0.0
    ensures a * b > 0.0
  {
  }

  lemma SquareNonNegative(a: real)
    ensures a * a >= 0.0
    ensures a == 0.0 ==> a * a == 0.0
  {
    if a < 0.0 {
      ProductPositive(-a, -a);
      assert (-a) * (-a) == a * a;
    } else if a == 0.0 {
      assert a * a == 0.0 * 0.0;
    }
  }

  // ---------------------------------------------------------------------
  // Per-digit tests, in `detectGesture`'s Euclidean form and in squared form

  /** A non-thumb fingertip at Euclidean distance `d` from the wrist, hand size `h`. */
  function TipByDistance(d: real, h: real): (f: Finger)
    ensures h >= 0.0 ==> (f == Curled <==> d < h * 1.1)
    ensures h >= 0.0 ==> (f == Extended <==> d > h * 1.3)
  {
    if d < h * 1.1 then Curled
    else if d > h * 1.3 then Extended
    else Neither
  }

  /** The thumb tip at Euclidean distance `d` from the index knuckle: never Neither. */
  function ThumbByDistance(d: real, h: real): (f: Finger)
    ensures f != Neither
    ensures f == Curled <==> d < h * 0.5
  {
    if d < h * 0.5 then Curled else Extended
  }

  /** The fingertip test on squared distances. For a non-negative hand size the
      two bands cannot overlap, so each branch is taken exactly on its own
      threshold test and the order of the tests does not matter. */
  function TipBySquare(dSq: real, hSq: real): (f: Finger)
    ensures hSq >= 0.0 ==> (f == Curled <==> dSq < hSq * 1.21)
    ensures hSq >= 0.0 ==> (f == Extended <==> dSq > hSq * 1.69)
  {
    if dSq < hSq * 1.21 then Curled
    else if dSq > hSq * 1.69 then Extended
    else Neither
  }

  /** The thumb test on squared distances. */
  function ThumbBySquare(dSq: real, hSq: real): (f: Finger)
    ensures f != Neither
    ensures f == Curled <==> dSq < hSq * 0.25
  {
    if dSq < hSq * 0.25 then Curled else Extended
  }

  /** For non-negative a and b, a < b exactly when a² < b². */
  lemma LessIffSquaresLess(a: real, b: real)
    requires a >= 0.0 && b >= 0.0
    ensures a < b <==> a * a < b * b
  {
    assert b * b - a * a == (b - a) * (b + a);
    if a < b {
      ProductPositive(b - a, b + a);
    } else if a > b {
      ProductPositive(a - b, a + b);
      assert a * a - b * b == (a - b) * (a + b);
    }
  }

  /** Comparing distances with k·h decides alike on squares with k²·h²; `d` and
      `h` stand for the square roots of `d * d` and `h * h`. */
  lemma SquaredTestsAgree(d: real, h: real)
    requires d >= 0.0 && h >= 0.0
    ensures TipByDistance(d, h) == TipBySquare(d * d, h * h)
    ensures ThumbByDistance(d, h) == ThumbBySquare(d * d, h * h)
  {
    LessIffSquaresLess(d, h * 1.1);
    assert (h * 1.1) * (h * 1.1) == h * h * 1.21;
    LessIffSquaresLess(h * 1.3, d);
    assert (h * 1.3) * (h * 1.3) == h * h * 1.69;
    LessIffSquaresLess(d, h * 0.5);
    assert (h * 0.5) * (h * 0.5) == h * h * 0.25;
  }

  /** The whole digit list agrees with `detectGesture`'s distance form: given
      the non-negative roots of the hand size and of the five squared digit
      distances, the five digits are exactly the Euclidean tests' verdicts, so
      both counts and hence the gesture are the same in either form. */
  lemma DistanceFormAgrees(lm: seq<Landmark>, h: real, dI: real, dM: real, dR: real, dP: real, dT: real)
    requires |lm| >= LandmarkCount
    requires h >= 0.0 && h * h == HandSizeSq(lm)
    requires dI >= 0.0 && dI * dI == DistSq(lm[IndexTip], lm[Wrist])
    requires dM >= 0.0 && dM * dM == DistSq(lm[MiddleTip], lm[Wrist])
    requires dR >= 0.0 && dR * dR == DistSq(lm[RingTip], lm[Wrist])
    requires dP >= 0.0 && dP * dP == DistSq(lm[PinkyTip], lm[Wrist])
    requires dT >= 0.0 && dT * dT == DistSq(lm[ThumbTip], lm[IndexMcp])
    ensures Digits(lm) == [TipByDistance(dI, h), TipByDistance(dM, h), TipByDistance(dR, h),
                           TipByDistance(dP, h), ThumbByDistance(dT, h)]
  {
    SquaredTestsAgree(dI, h);
    SquaredTestsAgree(dM, h);
    SquaredTestsAgree(dR, h);
    SquaredTestsAgree(dP, h);
    SquaredTestsAgree(dT, h);
  }

  // ---------------------------------------------------------------------
  // Counting

  /** Number of digits in `fs` counted as `f`. */
  function Count(fs: seq<Finger>, f: Finger): (n: nat)
    ensures n <= |fs|
    ensures n == 0 <==> f !in fs
  {
    if |fs| == 0 then 0
    else (if fs[0] == f then 1 else 0) + Count(fs[1..], f)
  }

  /** Every digit is counted exactly once, as Curled, Extended or Neither. */
  lemma {:induction false} CountPartition(fs: seq<Finger>)
    ensures Count(fs, Curled) + Count(fs, Extended) + Count(fs, Neither) == |fs|
  {
    if |fs| > 0 {
      CountPartition(fs[1..]);
    }
  }

  /** A list made only of `f` counts every entry. */
  lemma {:induction false} CountUniform(fs: seq<Finger>, f: Finger)
    requires forall i | 0 <= i < |fs| :: fs[i] == f
    ensures Count(fs, f) == |fs|
  {
    if |fs| > 0 {
      CountUniform(fs[1..], f);
    }
  }

  /** Counting over a concatenation adds the counts. */
  lemma {:induction false} CountAppend(a: seq<Finger>, b: seq<Finger>, f: Finger)
    ensures Count(a + b, f) == Count(a, f) + Count(b, f)
  {
    if |a| == 0 {
      assert a + b == b;
    } else {
      assert (a + b)[1..] == a[1..] + b;
      CountAppend(a[1..], b, f);
    }
  }

  /** Squared hand size: wrist to middle knuckle. */
  function HandSizeSq(lm: seq<Landmark>): (h: real)
    requires |lm| >= LandmarkCount
    ensures h >= 0.0
    ensures SamePlanePoint(lm[Wrist], lm[MiddleMcp]) ==> h == 0.0
  {
    DistSq(lm[Wrist], lm[MiddleMcp])
  }

  /** The four fingertips (index, middle, ring, pinky), in the order `detectGesture` lists them. */
  function Tips(lm: seq<Landmark>): (fs: seq<Finger>)
    requires |lm| >= LandmarkCount
    ensures |fs| == |TipIndices|
    ensures forall k | 0 <= k < |fs| ::
              var d := DistSq(lm[TipIndices[k]], lm[Wrist]);
              && (fs[k] == Curled <==> d < HandSizeSq(lm) * 1.21)
              && (fs[k] == Extended <==> d > HandSizeSq(lm) * 1.69)
  {
    var h := HandSizeSq(lm);
    [ TipBySquare(DistSq(lm[IndexTip], lm[Wrist]), h),
      TipBySquare(DistSq(lm[MiddleTip], lm[Wrist]), h),
      TipBySquare(DistSq(lm[RingTip], lm[Wrist]), h),
      TipBySquare(DistSq(lm[PinkyTip], lm[Wrist]), h) ]
  }

  /** The thumb, judged by its distance to the index knuckle. */
  function Thumb(lm: seq<Landmark>): (f: Finger)
    requires |lm| >= LandmarkCount
    ensures f != Neither
  {
    ThumbBySquare(DistSq(lm[ThumbTip], lm[IndexMcp]), HandSizeSq(lm))
  }

  /** All five digits: four fingertips, then the thumb. */
  function Digits(lm: seq<Landmark>): (fs: seq<Finger>)
    requires |lm| >= LandmarkCount
    ensures |fs| == 5
    ensures fs[..4] == Tips(lm) && fs[4] == Thumb(lm)
    ensures fs[4] != Neither
  {
    Tips(lm) + [Thumb(lm)]
  }

  function CurledCount(lm: seq<Landmark>): nat
    requires |lm| >= LandmarkCount
  {
    Count(Digits(lm), Curled)
  }

  function ExtendedCount(lm: seq<Landmark>): nat
    requires |lm| >= LandmarkCount
  {
    Count(Digits(lm), Extended)
  }

  /** Digits in the ambiguous band between the two thresholds. */
  function NeitherCount(lm: seq<Landmark>): nat
    requires |lm| >= LandmarkCount
  {
    Count(Digits(lm), Neither)
  }

  /** The thumb always adds one to the curled or the extended count; only the
      four fingertips can be ambiguous. Hence between one and five digits are
      counted, and at most one of the two counts can reach four. */
  lemma CountsBounded(lm: seq<Landmark>)
    requires |lm| >= LandmarkCount
    ensures CurledCount(lm) + ExtendedCount(lm) + NeitherCount(lm) == 5
    ensures NeitherCount(lm) <= 4
    ensures 1 <= CurledCount(lm) + ExtendedCount(lm) <= 5
    ensures !(CurledCount(lm) >= 4 && ExtendedCount(lm) >= 4)
  {
    var t := Tips(lm);
    CountPartition(Digits(lm));
    CountAppend(t, [Thumb(lm)], Neither);
    assert Count([Thumb(lm)], Neither) == 0;
  }

  /** detectGesture. Fewer than 21 landmarks is UNKNOWN; otherwise CLOSED when
      at least four digits are curled, OPEN when at least four are extended,
      NEUTRAL when neither count reaches four. */
  function DetectGesture(lm: seq<Landmark>): (g: GestureType)
    ensures g == UNKNOWN <==> |lm| < LandmarkCount
    ensures |lm| >= LandmarkCount ==> (g == CLOSED <==> CurledCount(lm) >= 4)
    ensures |lm| >= LandmarkCount ==> (g == OPEN <==> ExtendedCount(lm) >= 4)
    ensures |lm| >= LandmarkCount ==>
              (g == NEUTRAL <==> CurledCount(lm) < 4 && ExtendedCount(lm) < 4)
  {
    if |lm| < LandmarkCount then UNKNOWN
    else
      CountsBounded(lm);
      if CurledCount(lm) >= 4 then CLOSED
      else if ExtendedCount(lm) >= 4 then OPEN
      else NEUTRAL
  }

  /** `detectGesture`'s check order (CLOSED first) does not matter: testing OPEN
      first gives the same answer on every input. */
  lemma CheckOrderIrrelevant(lm: seq<Landmark>)
    requires |lm| >= LandmarkCount
    ensures DetectGesture(lm) ==
              if ExtendedCount(lm) >= 4 then OPEN
              else if CurledCount(lm) >= 4 then CLOSED
              else NEUTRAL
  {
    CountsBounded(lm);
  }

  // ---------------------------------------------------------------------
  // What the result depends on

  /** Two landmark lists agree on x and y at every landmark the classifier reads. */
  ghost predicate SameKeyPoints(a: seq<Landmark>, b: seq<Landmark>)
    requires |a| >= LandmarkCount && |b| >= LandmarkCount
  {
    forall i | i in KeyLandmarks :: SamePlanePoint(a[i], b[i])
  }

  predicate SamePlanePoint(p: Landmark, q: Landmark) {
    p.x == q.x && p.y == q.y
  }

  /** Squared distance sees only the image plane. */
  lemma DistSqPlanar(p: Landmark, q: Landmark, p': Landmark, q': Landmark)
    requires SamePlanePoint(p, p') && SamePlanePoint(q, q')
    ensures DistSq(p, q) == DistSq(p', q')
  {
  }

  /** The result depends only on x and y of landmarks 0, 4, 5, 8, 9, 12, 16
      and 20 (and on whether there are 21 landmarks at all): any other
      landmark, and every depth z, may change freely. */
  lemma OnlyKeyLandmarksMatter(a: seq<Landmark>, b: seq<Landmark>)
    requires |a| < LandmarkCount <==> |b| < LandmarkCount
    requires |a| >= LandmarkCount && |b| >= LandmarkCount ==> SameKeyPoints(a, b)
    ensures DetectGesture(a) == DetectGesture(b)
  {
    if |a| >= LandmarkCount {
      assert SamePlanePoint(a[Wrist], b[Wrist]);
      assert SamePlanePoint(a[MiddleMcp], b[MiddleMcp]);
      assert SamePlanePoint(a[ThumbTip], b[ThumbTip]);
      assert SamePlanePoint(a[IndexMcp], b[IndexMcp]);
      assert SamePlanePoint(a[IndexTip], b[IndexTip]);
      assert SamePlanePoint(a[MiddleTip], b[MiddleTip]);
      assert SamePlanePoint(a[RingTip], b[RingTip]);
      assert SamePlanePoint(a[PinkyTip], b[PinkyTip]);
      DistSqPlanar(a[Wrist], a[MiddleMcp], b[Wrist], b[MiddleMcp]);
      DistSqPlanar(a[IndexTip], a[Wrist], b[IndexTip], b[Wrist]);
      DistSqPlanar(a[MiddleTip], a[Wrist], b[MiddleTip], b[Wrist]);
      DistSqPlanar(a[RingTip], a[Wrist], b[RingTip], b[Wrist]);
      DistSqPlanar(a[PinkyTip], a[Wrist], b[PinkyTip], b[Wrist]);
      DistSqPlanar(a[ThumbTip], a[IndexMcp], b[ThumbTip], b[IndexMcp]);
      assert Tips(a) == Tips(b);
      assert Thumb(a) == Thumb(b);
      assert Digits(a) == Digits(b);
    }
  }

  /** Uniform scaling by k followed by a translation by (dx, dy), in the image
      plane; depth is kept. */
  function Move(p: Landmark, k: real, dx: real, dy: real): Landmark {
    Landmark(k * p.x + dx, k * p.y + dy, p.z)
  }

  /** The same similarity applied to every landmark. */
  function Similar(lm: seq<Landmark>, k: real, dx: real, dy: real): (r: seq<Landmark>)
    ensures |r| == |lm|
    ensures forall i | 0 <= i < |lm| :: r[i] == Move(lm[i], k, dx, dy)
  {
    seq(|lm|, i requires 0 <= i < |lm| => Move(lm[i], k, dx, dy))
  }

  /** A similarity multiplies every squared distance by k². */
  lemma SimilarDistSq(p: Landmark, q: Landmark, k: real, dx: real, dy: real)
    ensures DistSq(Move(p, k, dx, dy), Move(q, k, dx, dy)) == (k * k) * DistSq(p, q)
  {
    var ex := p.x - q.x;
    var ey := p.y - q.y;
    assert (k * p.x + dx) - (k * q.x + dx) == k * ex;
    assert (k * p.y + dy) - (k * q.y + dy) == k * ey;
    assert (k * ex) * (k * ex) == (k * k) * (ex * ex);
    assert (k * ey) * (k * ey) == (k * k) * (ey * ey);
  }

  /** Multiplying both sides by k² (k ≠ 0) keeps a strict comparison. */
  lemma ScaledLess(k: real, a: real, b: real)
    requires k != 0.0
    ensures (k * k) * a < (k * k) * b <==> a < b
  {
  }

  /** Both per-digit tests are unchanged when both squared distances are
      multiplied by the same k² with k ≠ 0. */
  lemma ScaledTests(k: real, dSq: real, hSq: real)
    requires k != 0.0
    ensures TipBySquare((k * k) * dSq, (k * k) * hSq) == TipBySquare(dSq, hSq)
    ensures ThumbBySquare((k * k) * dSq, (k * k) * hSq) == ThumbBySquare(dSq, hSq)
  {
    assert (k * k) * hSq * 1.21 == (k * k) * (hSq * 1.21);
    ScaledLess(k, dSq, hSq * 1.21);
    assert (k * k) * hSq * 1.69 == (k * k) * (hSq * 1.69);
    ScaledLess(k, hSq * 1.69, dSq);
    assert (k * k) * hSq * 0.25 == (k * k) * (hSq * 0.25);
    ScaledLess(k, dSq, hSq * 0.25);
  }

  /** Normalising by hand size makes the result invariant under moving the
      hand and under bringing it nearer or farther (uniform scaling by k > 0). */
  lemma SimilarityInvariant(lm: seq<Landmark>, k: real, dx: real, dy: real)
    requires k > 0.0
    ensures DetectGesture(Similar(lm, k, dx, dy)) == DetectGesture(lm)
  {
    var s := Similar(lm, k, dx, dy);
    if |lm| >= LandmarkCount {
      var h := HandSizeSq(lm);
      SimilarPair(lm, k, dx, dy, Wrist, MiddleMcp);
      SimilarTip(lm, k, dx, dy, IndexTip);
      SimilarTip(lm, k, dx, dy, MiddleTip);
      SimilarTip(lm, k, dx, dy, RingTip);
      SimilarTip(lm, k, dx, dy, PinkyTip);
      SimilarThumb(lm, k, dx, dy);
      assert Tips(s) == Tips(lm);
      assert Thumb(s) == Thumb(lm);
      assert Digits(s) == Digits(lm);
    }
  }

  /** One squared distance of the transformed hand. */
  lemma SimilarPair(lm: seq<Landmark>, k: real, dx: real, dy: real, i: nat, j: nat)
    requires i < |lm| && j < |lm|
    ensures DistSq(Similar(lm, k, dx, dy)[i], Similar(lm, k, dx, dy)[j]) == (k * k) * DistSq(lm[i], lm[j])
  {
    SimilarDistSq(lm[i], lm[j], k, dx, dy);
  }

  /** One fingertip of the transformed hand is judged as before. */
  lemma SimilarTip(lm: seq<Landmark>, k: real, dx: real, dy: real, t: nat)
    requires |lm| >= LandmarkCount && t < |lm| && k > 0.0
    ensures var s := Similar(lm, k, dx, dy);
            TipBySquare(DistSq(s[t], s[Wrist]), HandSizeSq(s))
            == TipBySquare(DistSq(lm[t], lm[Wrist]), HandSizeSq(lm))
  {
    var s := Similar(lm, k, dx, dy);
    var d := DistSq(lm[t], lm[Wrist]);
    var h := HandSizeSq(lm);
    SimilarPair(lm, k, dx, dy, Wrist, MiddleMcp);
    assert HandSizeSq(s) == (k * k) * h;
    SimilarPair(lm, k, dx, dy, t, Wrist);
    assert DistSq(s[t], s[Wrist]) == (k * k) * d;
    ScaledTests(k, d, h);
  }

  /** The thumb of the transformed hand is judged as before. */
  lemma SimilarThumb(lm: seq<Landmark>, k: real, dx: real, dy: real)
    requires |lm| >= LandmarkCount && k > 0.0
    ensures Thumb(Similar(lm, k, dx, dy)) == Thumb(lm)
  {
    var s := Similar(lm, k, dx, dy);
    var d := DistSq(lm[ThumbTip], lm[IndexMcp]);
    var h := HandSizeSq(lm);
    SimilarPair(lm, k, dx, dy, Wrist, MiddleMcp);
    assert HandSizeSq(s) == (k * k) * h;
    SimilarPair(lm, k, dx, dy, ThumbTip, IndexMcp);
    assert DistSq(s[ThumbTip], s[IndexMcp]) == (k * k) * d;
    ScaledTests(k, d, h);
  }

  // ---------------------------------------------------------------------
  // Degenerate and characteristic hands

  /** With the wrist on the middle knuckle the hand size is zero and nothing is
      guarded: no digit can be curled, so the result is OPEN or NEUTRAL. */
  lemma ZeroHandSizeNeverClosed(lm: seq<Landmark>)
    requires |lm| >= LandmarkCount
    requires lm[Wrist].x == lm[MiddleMcp].x && lm[Wrist].y == lm[MiddleMcp].y
    ensures CurledCount(lm) == 0
    ensures DetectGesture(lm) == OPEN || DetectGesture(lm) == NEUTRAL
  {
    assert HandSizeSq(lm) == 0.0;
    assert Curled !in Digits(lm);
  }

  /** Four curled fingertips make a fist whatever the thumb does: the decision
      needs four of the five digits, not all five. */
  lemma FourCurledTipsIsClosed(lm: seq<Landmark>)
    requires |lm| >= LandmarkCount
    requires forall i | 0 <= i < 4 :: Tips(lm)[i] == Curled
    ensures DetectGesture(lm) == CLOSED
  {
    CountUniform(Tips(lm), Curled);
    CountAppend(Tips(lm), [Thumb(lm)], Curled);
    CountsBounded(lm);
  }

  /** Four extended fingertips make an open hand whatever the thumb does. */
  lemma FourExtendedTipsIsOpen(lm: seq<Landmark>)
    requires |lm| >= LandmarkCount
    requires forall i | 0 <= i < 4 :: Tips(lm)[i] == Extended
    ensures DetectGesture(lm) == OPEN
  {
    CountUniform(Tips(lm), Extended);
    CountAppend(Tips(lm), [Thumb(lm)], Extended);
    CountsBounded(lm);
  }
}
