/**
 The packaging half of the tracker's results callback: the list of detected
 hands becomes either no sample or one mirrored hand sample for the animation
 loop.
 */
module WebcamInput {
  import opened Types
  import GestureUtils

  /** The landmark whose position stands for the palm (the middle-finger knuckle). */
  const PalmLandmark := GestureUtils.MiddleMcp

  /** Horizontal mirror of a normalised coordinate, so that moving the hand to
      the right moves the cursor to the right in the mirrored preview. */
  function Mirror(x: real): (r: real)
    ensures r + x == 1.0
    ensures 0.0 <= x <= 1.0 ==> 0.0 <= r <= 1.0
  {
    1.0 - x
  }

  lemma MirrorInvolution(x: real)
    ensures Mirror(Mirror(x)) == x
  {
  }

  /** Every point of [0, 1] is the mirror of a point of [0, 1]. */
  lemma MirrorOnto(y: real)
    requires 0.0 <= y <= 1.0
    ensures 0.0 <= Mirror(y) <= 1.0 && Mirror(Mirror(y)) == y
  {
  }

  /** The packaged sample for one tracker result, stamped with the wall clock
      `now`. No hands (absent or empty list) gives no sample. Otherwise only the
      first hand is read: its gesture is the classifier's verdict on it, and its
      position is landmark 9 with x mirrored. `onResults` reads landmark 9
      unguarded, which throws for a hand with fewer than ten landmarks, hence
      the precondition. */
  function PackageResults(hands: Option<seq<seq<Landmark>>>, now: real): (r: Option<HandTrackingData>)
    requires hands.Some? && |hands.value| > 0 ==> |hands.value[0]| > PalmLandmark
    ensures r.None? <==> hands.None? || |hands.value| == 0
    ensures r.Some? ==>
              var lm := hands.value[0];
              && r.value.x == 1.0 - lm[PalmLandmark].x
              && r.value.y == lm[PalmLandmark].y
              && r.value.gesture == GestureUtils.DetectGesture(lm)
              && r.value.timestamp == now
  {
    if hands.Some? && |hands.value| > 0 then
      var lm := hands.value[0];
      Some(HandTrackingData(Mirror(lm[PalmLandmark].x), lm[PalmLandmark].y, GestureUtils.DetectGesture(lm), now))
    else
      None
  }

  /** Only the first hand matters: hands after it never change the sample. */
  lemma OnlyFirstHandMatters(first: seq<Landmark>, others: seq<seq<Landmark>>, more: seq<seq<Landmark>>, now: real)
    requires |first| > PalmLandmark
    ensures PackageResults(Some([first] + others), now) == PackageResults(Some([first] + more), now)
  {
    assert ([first] + others)[0] == first;
    assert ([first] + more)[0] == first;
  }

  /** A full 21-landmark hand always yields a classified gesture. */
  lemma FullHandIsClassified(hands: seq<seq<Landmark>>, now: real)
    requires |hands| > 0 && |hands[0]| >= GestureUtils.LandmarkCount
    ensures var r := PackageResults(Some(hands), now);
            r.Some? && r.value.gesture != UNKNOWN
  {
  }

  /** A palm inside the normalised frame gives a sample inside the normalised frame. */
  lemma SampleStaysNormalised(hands: seq<seq<Landmark>>, now: real)
    requires |hands| > 0 && |hands[0]| > PalmLandmark
    requires 0.0 <= hands[0][PalmLandmark].x <= 1.0 && 0.0 <= hands[0][PalmLandmark].y <= 1.0
    ensures var r := PackageResults(Some(hands), now);
            0.0 <= r.value.x <= 1.0 && 0.0 <= r.value.y <= 1.0
  {
  }
}
