/**
 * The arithmetic of orb_match_all around its library calls: Lowe's ratio
 * test on the two nearest neighbours, the gate of ten good matches, the
 * inlier count, and the confidence of a detection.
 */
module OrbScoring {
  import opened Wrappers

  /** A match is good when its distance is below this fraction of the runner-up's. */
  const RatioTestFactor: real := 0.8

  /** Fewer good matches than this and the template is skipped. */
  const MinGoodMatches: nat := 10

  /** The keypoint count used as the confidence denominator is capped here. */
  const KeypointCap: nat := 60

  /** A descriptor match: template keypoint, scene keypoint and their distance. */
  datatype DMatch = DMatch(queryIdx: nat, trainIdx: nat, distance: real)

  /** The two nearest scene neighbours of one template descriptor, nearer first. */
  datatype KnnPair = KnnPair(nearest: DMatch, runnerUp: DMatch)

  /** m.distance < 0.8 * n.distance */
  predicate PassesRatioTest(p: KnnPair) {
    p.nearest.distance < RatioTestFactor * p.runnerUp.distance
  }

  /** The nearest matches of the pairs that pass the ratio test, in order. */
  function GoodMatches(knn: seq<KnnPair>): (good: seq<DMatch>)
    ensures |good| <= |knn|
  {
    if knn == [] then []
    else (if PassesRatioTest(knn[0]) then [knn[0].nearest] else []) + GoodMatches(knn[1..])
  }

  /** A match is good exactly when it is the nearest match of a pair that passes the test. */
  lemma {:induction false} GoodMatchesMembers(knn: seq<KnnPair>, m: DMatch)
    ensures m in GoodMatches(knn) <==> exists p :: p in knn && PassesRatioTest(p) && p.nearest == m
    decreases |knn|
  {
    if knn != [] {
      GoodMatchesMembers(knn[1..], m);
      assert forall p :: p in knn <==> p == knn[0] || p in knn[1..];
    }
  }

  /** Good matches of a concatenation are those of each part, concatenated. */
  lemma {:induction false} GoodMatchesAppend(knn: seq<KnnPair>, p: KnnPair)
    ensures GoodMatches(knn + [p]) == GoodMatches(knn) + (if PassesRatioTest(p) then [p.nearest] else [])
    decreases |knn|
  {
    if knn == [] {
      assert [p] + [] == [p];
      assert GoodMatches([p]) == (if PassesRatioTest(p) then [p.nearest] else []) + GoodMatches([]);
    } else {
      assert (knn + [p])[1..] == knn[1..] + [p];
      GoodMatchesAppend(knn[1..], p);
    }
  }

  /** The loop collecting good matches: for m, n in knn, keep m when the ratio test passes. */
  method FilterGoodMatches(knn: seq<KnnPair>) returns (good: seq<DMatch>)
    ensures good == GoodMatches(knn)
  {
    good := [];
    var i := 0;
    while i < |knn|
      invariant 0 <= i <= |knn|
      invariant good == GoodMatches(knn[..i])
    {
      GoodMatchesAppend(knn[..i], knn[i]);
      assert knn[..i + 1] == knn[..i] + [knn[i]];
      if PassesRatioTest(knn[i]) {
        good := good + [knn[i].nearest];
      }
      i := i + 1;
    }
    assert knn[..i] == knn;
  }

  /** The number of inliers RANSAC marked in its mask (mask.sum()). */
  function CountInliers(mask: seq<bool>): (n: nat)
    ensures n <= |mask|
  {
    if mask == [] then 0 else (if mask[0] then 1 else 0) + CountInliers(mask[1..])
  }

  /** The denominator of the confidence: max(1, min(keypoints, 60)). */
  function ConfidenceDenominator(keypoints: nat): (d: nat)
    ensures 1 <= d <= KeypointCap
    ensures d <= keypoints || keypoints == 0
  {
    if keypoints < KeypointCap then (if keypoints < 1 then 1 else keypoints) else KeypointCap
  }

  /** min(1.0, inliers / max(1, min(keypoints, 60))) */
  function Confidence(inliers: nat, keypoints: nat): (c: real)
    ensures 0.0 <= c <= 1.0
    ensures c == 1.0 <==> inliers >= ConfidenceDenominator(keypoints)
    ensures c < 1.0 ==> c * ConfidenceDenominator(keypoints) as real == inliers as real
  {
    var d := ConfidenceDenominator(keypoints) as real;
    var ratio := inliers as real / d;
    QuotientAtLeastOne(inliers as real, d);
    if 1.0 <= ratio then 1.0 else ratio
  }

  lemma QuotientAtLeastOne(n: real, d: real)
    requires n >= 0.0 && d > 0.0
    ensures n / d >= 0.0 && (n / d) * d == n
    ensures 1.0 <= n / d <==> d <= n
  {
    var q := n / d;
    assert q * d == n;
    if 1.0 <= q {
      assert q * d >= 1.0 * d;
    } else {
      assert q * d < 1.0 * d;
    }
  }

  /** More inliers never lower the confidence. */
  lemma ConfidenceMonotone(a: nat, b: nat, keypoints: nat)
    requires a <= b
    ensures Confidence(a, keypoints) <= Confidence(b, keypoints)
  {
    var d := ConfidenceDenominator(keypoints) as real;
    var ca, cb := Confidence(a, keypoints), Confidence(b, keypoints);
    if cb < 1.0 {
      assert b < ConfidenceDenominator(keypoints);
      assert ca < 1.0;
      assert ca * d == a as real && cb * d == b as real;
    }
  }

  /** What findHomography returned: nothing, or a homography with or without an inlier mask. */
  datatype Homography = NotFound | Found(mask: Option<seq<bool>>)

  /** The outcome for one template: skipped, or detected with a confidence. */
  datatype OrbOutcome = Skipped | Detected(confidence: real)

  /**
   * One template of orb_match_all: no descriptors skips it; otherwise its
   * best score is its number of good matches, fewer than ten skip it, no
   * homography skips it, and the confidence follows from the inliers
   * (the whole good set when RANSAC gives no mask).
   */
  method ScoreTemplate(hasDescriptors: bool, knn: seq<KnnPair>, homography: Homography, keypoints: nat)
    returns (bestScore: Option<real>, outcome: OrbOutcome)
    ensures !hasDescriptors ==> bestScore == None && outcome == Skipped
    ensures hasDescriptors ==> bestScore == Some(|GoodMatches(knn)| as real)
    ensures outcome.Detected? <==>
      hasDescriptors && |GoodMatches(knn)| >= MinGoodMatches && homography.Found?
    ensures outcome.Detected? ==> 0.0 <= outcome.confidence <= 1.0
    ensures outcome.Detected? && homography.mask.None? ==>
      outcome.confidence == Confidence(|GoodMatches(knn)|, keypoints)
    ensures outcome.Detected? && homography.mask.Some? ==>
      outcome.confidence == Confidence(CountInliers(homography.mask.value), keypoints)
  {
    if !hasDescriptors {
      return None, Skipped;
    }
    var good := FilterGoodMatches(knn);
    bestScore := Some(|good| as real);
    if |good| < MinGoodMatches {
      return bestScore, Skipped;
    }
    if homography.NotFound? {
      return bestScore, Skipped;
    }
    var inliers := if homography.mask.Some? then CountInliers(homography.mask.value) else |good|;
    outcome := Detected(Confidence(inliers, keypoints));
  }
}
