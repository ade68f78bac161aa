/**
 * The fast top-K peak extraction of match_all_multiscale: on a copy of a
 * template's score map, repeatedly take the first maximum in row-major
 * order, stop when it is below the threshold, emit a box at it, and zero
 * the window of a third of the template's size around it.
 */
module TopK {
  import opened Boxes

  /** Peaks taken per template per scale (TOPK_PER_TEMPLATE_PER_SCALE). */
  const TopKPerTemplatePerScale: nat := 2

  /** An emitted match: its score and its box (x, y, tw, th). */
  datatype Candidate = Candidate(score: real, box: Box)

  /** Cell (i, j) of map m: row i, column j. */
  ghost predicate InMap(m: array2<real>, i: int, j: int) {
    0 <= i < m.Length0 && 0 <= j < m.Length1
  }

  /**
   * Cell (i, j) lies in the unclipped suppression window of c:
   * rows [y - h//3, y + h//3), columns [x - w//3, x + w//3).
   */
  ghost predicate InWindow(c: Candidate, i: int, j: int) {
    && c.box.y - c.box.h / 3 <= i < c.box.y + c.box.h / 3
    && c.box.x - c.box.w / 3 <= j < c.box.x + c.box.w / 3
  }

  /** Cell (i, j) lies in the window of some candidate of peaks. */
  ghost predicate Covered(peaks: seq<Candidate>, i: int, j: int)
    decreases |peaks|
  {
    |peaks| > 0 && (InWindow(peaks[|peaks| - 1], i, j) || Covered(peaks[..|peaks| - 1], i, j))
  }

  /** The score at (i, j) once the windows of peaks have been zeroed. */
  ghost function MaskedAt(r: array2<real>, peaks: seq<Candidate>, i: int, j: int): real
    reads r
    requires InMap(r, i, j)
  {
    if Covered(peaks, i, j) then 0.0 else r[i, j]
  }

  /** (i, j) comes before (y, x) in row-major order. */
  ghost predicate RowMajorBefore(i: int, j: int, y: int, x: int) {
    i < y || (i == y && j < x)
  }

  /**
   * Peak m of peaks is what minMaxLoc finds on the map masked by the peaks
   * before it: its cell holds its score, which no cell exceeds and no
   * earlier cell in row-major order reaches; its box has the template size.
   */
  ghost predicate IsPeak(r: array2<real>, peaks: seq<Candidate>, m: nat, tw: int, th: int)
    reads r
    requires m < |peaks|
  {
    var c := peaks[m];
    && c.box.w == tw && c.box.h == th
    && InMap(r, c.box.y, c.box.x)
    && MaskedAt(r, peaks[..m], c.box.y, c.box.x) == c.score
    && (forall i, j :: InMap(r, i, j) ==> MaskedAt(r, peaks[..m], i, j) <= c.score)
    && (forall i, j :: InMap(r, i, j) && RowMajorBefore(i, j, c.box.y, c.box.x) ==>
          MaskedAt(r, peaks[..m], i, j) < c.score)
  }

  /**
   * peaks is what the top-K loop emits from score map r: at most k peaks,
   * each the masked maximum and at or above the threshold, and fewer than
   * k only when the masked map has nothing left at the threshold.
   */
  ghost predicate IsTopK(r: array2<real>, threshold: real, tw: int, th: int, k: nat, peaks: seq<Candidate>)
    reads r
  {
    && |peaks| <= k
    && (forall m :: 0 <= m < |peaks| ==> IsPeak(r, peaks, m, tw, th) && peaks[m].score >= threshold)
    && (|peaks| < k ==> forall i, j :: InMap(r, i, j) ==> MaskedAt(r, peaks, i, j) < threshold)
  }

  /**
   * cv2.minMaxLoc, maximum part: the largest value of a non-empty map and
   * its first cell in row-major order.
   */
  method MaxLoc(m: array2<real>) returns (v: real, y: nat, x: nat)
    requires m.Length0 >= 1 && m.Length1 >= 1
    ensures InMap(m, y, x) && m[y, x] == v
    ensures forall i, j :: InMap(m, i, j) ==> m[i, j] <= v
    ensures forall i, j :: InMap(m, i, j) && RowMajorBefore(i, j, y, x) ==> m[i, j] < v
  {
    v, y, x := m[0, 0], 0, 0;
    var i := 0;
    while i < m.Length0
      invariant 0 <= i <= m.Length0
      invariant InMap(m, y, x) && m[y, x] == v && (y < i || (y == 0 && x == 0))
      invariant forall a, b :: 0 <= a < i && 0 <= b < m.Length1 ==> m[a, b] <= v
      invariant forall a, b :: InMap(m, a, b) && RowMajorBefore(a, b, y, x) ==> m[a, b] < v
    {
      var j := 0;
      while j < m.Length1
        invariant 0 <= j <= m.Length1
        invariant InMap(m, y, x) && m[y, x] == v && (RowMajorBefore(y, x, i, j) || (y == 0 && x == 0))
        invariant forall a, b :: 0 <= a < i && 0 <= b < m.Length1 ==> m[a, b] <= v
        invariant forall b :: 0 <= b < j ==> m[i, b] <= v
        invariant forall a, b :: InMap(m, a, b) && RowMajorBefore(a, b, y, x) ==> m[a, b] < v
      {
        if m[i, j] > v {
          v, y, x := m[i, j], i, j;
        }
        j := j + 1;
      }
      i := i + 1;
    }
  }

  /**
   * res[y0:y1, x0:x1] = 0 with the window around c clipped to the map:
   * rows [max(0, y - th//3), min(H, y + th//3)), columns likewise; every
   * other cell keeps its value.
   */
  method SuppressWindow(res: array2<real>, c: Candidate)
    modifies res
    ensures forall i, j :: InMap(res, i, j) ==>
      res[i, j] == if InWindow(c, i, j) then 0.0 else old(res[i, j])
  {
    var x0 := Max(0, c.box.x - c.box.w / 3);
    var y0 := Max(0, c.box.y - c.box.h / 3);
    var x1 := Min(res.Length1, c.box.x + c.box.w / 3);
    var y1 := Min(res.Length0, c.box.y + c.box.h / 3);
    forall i, j | y0 <= i < y1 && x0 <= j < x1 {
      res[i, j] := 0.0;
    }
  }

  /** Appending a candidate adds its window to the covered cells. */
  lemma CoveredAppend(peaks: seq<Candidate>, c: Candidate, i: int, j: int)
    ensures Covered(peaks + [c], i, j) <==> Covered(peaks, i, j) || InWindow(c, i, j)
  {
    assert (peaks + [c])[..|peaks|] == peaks;
  }

  /** Appending a candidate leaves the earlier peaks what they were. */
  lemma IsPeakAppend(r: array2<real>, peaks: seq<Candidate>, c: Candidate, m: nat, tw: int, th: int)
    requires m < |peaks| && IsPeak(r, peaks, m, tw, th)
    ensures IsPeak(r, peaks + [c], m, tw, th)
  {
    assert (peaks + [c])[..m] == peaks[..m];
  }

  /**
   * The top-K loop for one template at one scale. r is the score map of
   * matchTemplate, never empty because templates larger than the screen are
   * skipped before; tw and th are the template's width and height. The loop
   * works on a copy, as the source does with r.copy(), so r is unchanged.
   */
  method TopKPeaks(r: array2<real>, threshold: real, tw: int, th: int, k: nat) returns (peaks: seq<Candidate>)
    requires r.Length0 >= 1 && r.Length1 >= 1
    ensures IsTopK(r, threshold, tw, th, k, peaks)
  {
    var res := new real[r.Length0, r.Length1]((i, j) reads r requires 0 <= i < r.Length0 && 0 <= j < r.Length1 => r[i, j]);
    peaks := [];
    while |peaks| < k
      invariant res != r && res.Length0 == r.Length0 && res.Length1 == r.Length1
      invariant |peaks| <= k
      invariant forall i, j :: InMap(r, i, j) ==> res[i, j] == MaskedAt(r, peaks, i, j)
      invariant forall m :: 0 <= m < |peaks| ==> IsPeak(r, peaks, m, tw, th) && peaks[m].score >= threshold
      decreases k - |peaks|
    {
      var v, y, x := MaxLoc(res);
      if v < threshold {
        return;
      }
      var c := Candidate(v, Box(x, y, tw, th));
      forall m | 0 <= m < |peaks| ensures IsPeak(r, peaks + [c], m, tw, th) {
        IsPeakAppend(r, peaks, c, m, tw, th);
      }
      assert (peaks + [c])[..|peaks|] == peaks;
      assert IsPeak(r, peaks + [c], |peaks|, tw, th);
      SuppressWindow(res, c);
      forall i, j | InMap(r, i, j) ensures res[i, j] == MaskedAt(r, peaks + [c], i, j) {
        CoveredAppend(peaks, c, i, j);
      }
      peaks := peaks + [c];
    }
  }

  /** A cell left uncovered by a list of peaks is uncovered by each of its prefixes. */
  lemma {:induction false} UncoveredPrefix(peaks: seq<Candidate>, m: nat, i: int, j: int)
    requires m <= |peaks| && !Covered(peaks, i, j)
    ensures !Covered(peaks[..m], i, j)
    decreases |peaks|
  {
    if m < |peaks| {
      var init := peaks[..|peaks| - 1];
      assert init[..m] == peaks[..m];
      UncoveredPrefix(init, m, i, j);
    } else {
      assert peaks[..m] == peaks;
    }
  }

  /**
   * With a non-negative threshold the emitted scores never increase. (A
   * negative threshold could emit a zeroed cell above an earlier negative
   * peak; the thresholds the matcher uses all lie strictly between 0 and 1.)
   */
  lemma PeakScoresNonIncreasing(r: array2<real>, threshold: real, tw: int, th: int, k: nat, peaks: seq<Candidate>)
    requires IsTopK(r, threshold, tw, th, k, peaks) && threshold >= 0.0
    ensures forall m, n :: 0 <= m < n < |peaks| ==> peaks[m].score >= peaks[n].score
  {
    forall m, n | 0 <= m < n < |peaks| ensures peaks[m].score >= peaks[n].score {
      var c := peaks[n];
      assert IsPeak(r, peaks, m, tw, th) && IsPeak(r, peaks, n, tw, th);
      if !Covered(peaks[..n], c.box.y, c.box.x) {
        assert peaks[..n][..m] == peaks[..m];
        UncoveredPrefix(peaks[..n], m, c.box.y, c.box.x);
        assert MaskedAt(r, peaks[..m], c.box.y, c.box.x) == c.score;
      }
    }
  }

  /** A window of less than three pixels in either direction covers nothing. */
  lemma {:induction false} NarrowWindowsCoverNothing(peaks: seq<Candidate>, tw: int, th: int, i: int, j: int)
    requires tw < 3 || th < 3
    requires forall m :: 0 <= m < |peaks| ==> peaks[m].box.w == tw && peaks[m].box.h == th
    ensures !Covered(peaks, i, j)
    decreases |peaks|
  {
    if |peaks| > 0 {
      NarrowWindowsCoverNothing(peaks[..|peaks| - 1], tw, th, i, j);
    }
  }

  /**
   * When the template is narrower or shorter than three pixels the window
   * is empty, nothing is suppressed, and every emitted peak repeats the first.
   */
  lemma NarrowTemplateRepeatsPeak(r: array2<real>, threshold: real, tw: int, th: int, k: nat, peaks: seq<Candidate>)
    requires IsTopK(r, threshold, tw, th, k, peaks) && (tw < 3 || th < 3)
    ensures forall m :: 0 <= m < |peaks| ==> peaks[m] == peaks[0]
  {
    forall m | 0 <= m < |peaks| ensures peaks[m] == peaks[0] {
      var a, b := peaks[0], peaks[m];
      assert IsPeak(r, peaks, 0, tw, th) && IsPeak(r, peaks, m, tw, th);
      NarrowWindowsCoverNothing(peaks[..0], tw, th, b.box.y, b.box.x);
      NarrowWindowsCoverNothing(peaks[..m], tw, th, a.box.y, a.box.x);
      NarrowWindowsCoverNothing(peaks[..0], tw, th, a.box.y, a.box.x);
      NarrowWindowsCoverNothing(peaks[..m], tw, th, b.box.y, b.box.x);
      assert a.box.y == b.box.y && a.box.x == b.box.x;
    }
  }

  /**
   * One template at one scale: skip it when the template is larger than the
   * sh x sw screen; otherwise raise the template's best score to the map's
   * maximum and take its top-K peaks. r is the score map of matchTemplate,
   * (sh - th + 1) x (sw - tw + 1) whenever the template fits.
   */
  method MatchAtScale(r: array2<real>, sh: nat, sw: nat, tw: int, th: int, threshold: real, best: real)
    returns (peaks: seq<Candidate>, newBest: real)
    requires tw >= 1 && th >= 1
    requires th <= sh && tw <= sw ==> r.Length0 == sh - th + 1 && r.Length1 == sw - tw + 1
    ensures th > sh || tw > sw ==> peaks == [] && newBest == best
    ensures th <= sh && tw <= sw ==> IsTopK(r, threshold, tw, th, TopKPerTemplatePerScale, peaks)
    ensures |peaks| <= TopKPerTemplatePerScale
    ensures forall m :: 0 <= m < |peaks| ==>
      var b := peaks[m].box;
      0 <= b.x && b.x + b.w <= sw && 0 <= b.y && b.y + b.h <= sh && peaks[m].score >= threshold
    ensures newBest >= best
    ensures th <= sh && tw <= sw ==> forall i, j :: InMap(r, i, j) ==> r[i, j] <= newBest
    ensures newBest == best || exists i, j :: InMap(r, i, j) && r[i, j] == newBest
  {
    if th > sh || tw > sw {
      return [], best;
    }
    var maxVal, y, x := MaxLoc(r);
    newBest := if maxVal > best then maxVal else best;
    peaks := TopKPeaks(r, threshold, tw, th, TopKPerTemplatePerScale);
    forall m | 0 <= m < |peaks| ensures InMap(r, peaks[m].box.y, peaks[m].box.x) {
      assert IsPeak(r, peaks, m, tw, th);
    }
  }
}
