/**
 * Greedy non-maximum suppression over integer boxes (nms_boxes).
 *
 * Boxes are visited in descending score order; the best remaining one is
 * kept and every remaining box whose IoU with it reaches the threshold is
 * dropped. The order the source gets from argsort()[::-1] breaks ties among
 * equal scores in no defined way, so the greedy loop is proved for ANY
 * ranking: any permutation of the indices whose scores do not increase.
 */
module Nms {
  import opened Boxes

  /** Every index of s names a box of a list of n. */
  ghost predicate InRange(s: seq<nat>, n: nat) {
    forall p :: 0 <= p < |s| ==> s[p] < n
  }

  ghost predicate Distinct(s: seq<nat>) {
    forall p, q :: 0 <= p < q < |s| ==> s[p] != s[q]
  }

  /** Scores do not increase along s. */
  ghost predicate NonIncreasing(s: seq<nat>, scores: seq<real>)
    requires InRange(s, |scores|)
  {
    forall p, q :: 0 <= p < q < |s| ==> scores[s[p]] >= scores[s[q]]
  }

  /** x occurs in s at an earlier position than y. */
  ghost predicate Precedes(s: seq<nat>, x: nat, y: nat) {
    exists p, q :: 0 <= p < q < |s| && s[p] == x && s[q] == y
  }

  /** order is a permutation of the indices of scores, best score first. */
  ghost predicate IsRanking(order: seq<nat>, scores: seq<real>) {
    && |order| == |scores|
    && InRange(order, |scores|)
    && Distinct(order)
    && (forall k: nat :: k < |scores| ==> k in order)
    && NonIncreasing(order, scores)
  }

  /**
   * The indices of rest whose box overlaps box i with IoU below the
   * threshold, in their original order: indices[1:][iou < iou_threshold].
   */
  function Survivors(boxes: seq<Box>, i: nat, rest: seq<nat>, threshold: real): (r: seq<nat>)
    requires i < |boxes| && InRange(rest, |boxes|)
    ensures |r| <= |rest|
    ensures InRange(r, |boxes|)
    ensures forall x :: x in r <==> x in rest && IoU(boxes[i], boxes[x]) < threshold
  {
    if rest == [] then []
    else
      (if IoU(boxes[i], boxes[rest[0]]) < threshold then [rest[0]] else [])
      + Survivors(boxes, i, rest[1..], threshold)
  }

  /**
   * The indices greedy suppression keeps when it visits the boxes in the
   * order of s: the head of s, then what is kept of its survivors.
   */
  function GreedyNms(boxes: seq<Box>, s: seq<nat>, threshold: real): (keep: seq<nat>)
    requires InRange(s, |boxes|)
    ensures InRange(keep, |boxes|)
    ensures forall x :: x in keep ==> x in s
    ensures s == [] <==> keep == []
    ensures s != [] ==> keep[0] == s[0]
    decreases |s|
  {
    if s == [] then []
    else [s[0]] + GreedyNms(boxes, Survivors(boxes, s[0], s[1..], threshold), threshold)
  }

  /** A pair ordered in the tail of s is ordered in s. */
  lemma PrecedesTail(s: seq<nat>, x: nat, y: nat)
    requires s != [] && Precedes(s[1..], x, y)
    ensures Precedes(s, x, y)
  {
    var p, q :| 0 <= p < q < |s[1..]| && s[1..][p] == x && s[1..][q] == y;
    assert s[p + 1] == x && s[q + 1] == y;
  }

  /** The head of s precedes every element of its tail. */
  lemma HeadPrecedes(s: seq<nat>, y: nat)
    requires s != [] && y in s[1..]
    ensures Precedes(s, s[0], y)
  {
    var q :| 0 <= q < |s[1..]| && s[1..][q] == y;
    assert s[q + 1] == y;
  }

  /** A pair ordered in h + t is the head followed by an element of t, or a pair ordered in t. */
  lemma PrecedesCons(h: nat, t: seq<nat>, x: nat, y: nat)
    requires Precedes([h] + t, x, y)
    ensures (x == h && y in t) || Precedes(t, x, y)
  {
    var s := [h] + t;
    var p, q :| 0 <= p < q < |s| && s[p] == x && s[q] == y;
    assert s[q] == t[q - 1];
    if p > 0 {
      assert s[p] == t[p - 1];
    }
  }

  /** Filtering keeps the relative order of the survivors. */
  lemma {:induction false} SurvivorsKeepOrder(boxes: seq<Box>, i: nat, rest: seq<nat>, threshold: real, x: nat, y: nat)
    requires i < |boxes| && InRange(rest, |boxes|)
    requires Precedes(Survivors(boxes, i, rest, threshold), x, y)
    ensures Precedes(rest, x, y)
    decreases |rest|
  {
    var tail := Survivors(boxes, i, rest[1..], threshold);
    if IoU(boxes[i], boxes[rest[0]]) < threshold {
      PrecedesCons(rest[0], tail, x, y);
      if Precedes(tail, x, y) {
        SurvivorsKeepOrder(boxes, i, rest[1..], threshold, x, y);
        PrecedesTail(rest, x, y);
      } else {
        HeadPrecedes(rest, y);
      }
    } else {
      SurvivorsKeepOrder(boxes, i, rest[1..], threshold, x, y);
      PrecedesTail(rest, x, y);
    }
  }

  /** The kept indices appear in the same relative order as in s. */
  lemma {:induction false} GreedyKeepsOrder(boxes: seq<Box>, s: seq<nat>, threshold: real, x: nat, y: nat)
    requires InRange(s, |boxes|)
    requires Precedes(GreedyNms(boxes, s, threshold), x, y)
    ensures Precedes(s, x, y)
    decreases |s|
  {
    var survivors := Survivors(boxes, s[0], s[1..], threshold);
    var rest := GreedyNms(boxes, survivors, threshold);
    PrecedesCons(s[0], rest, x, y);
    if Precedes(rest, x, y) {
      GreedyKeepsOrder(boxes, survivors, threshold, x, y);
      SurvivorsKeepOrder(boxes, s[0], s[1..], threshold, x, y);
      PrecedesTail(s, x, y);
    } else {
      assert y in survivors;
      HeadPrecedes(s, y);
    }
  }

  /** Any two entries of keep, the earlier first, overlap with IoU below the threshold. */
  ghost predicate PairwiseApart(boxes: seq<Box>, keep: seq<nat>, threshold: real)
    requires InRange(keep, |boxes|)
  {
    forall p, q :: 0 <= p < q < |keep| ==> IoU(boxes[keep[p]], boxes[keep[q]]) < threshold
  }

  /** Prepending a box that is apart from every entry keeps a list pairwise apart. */
  lemma PrependApart(boxes: seq<Box>, h: nat, rest: seq<nat>, threshold: real)
    requires h < |boxes| && InRange(rest, |boxes|) && PairwiseApart(boxes, rest, threshold)
    requires forall x :: x in rest ==> IoU(boxes[h], boxes[x]) < threshold
    ensures InRange([h] + rest, |boxes|) && PairwiseApart(boxes, [h] + rest, threshold)
  {
    var keep := [h] + rest;
    forall p, q | 0 <= p < q < |keep| ensures IoU(boxes[keep[p]], boxes[keep[q]]) < threshold {
      assert keep[q] == rest[q - 1];
      if p == 0 {
        assert rest[q - 1] in rest;
      } else {
        assert keep[p] == rest[p - 1];
      }
    }
  }

  /** Any two kept boxes overlap with IoU strictly below the threshold. */
  lemma {:induction false} GreedyPairwiseApart(boxes: seq<Box>, s: seq<nat>, threshold: real)
    requires InRange(s, |boxes|)
    ensures PairwiseApart(boxes, GreedyNms(boxes, s, threshold), threshold)
    decreases |s|
  {
    if s != [] {
      var survivors := Survivors(boxes, s[0], s[1..], threshold);
      var rest := GreedyNms(boxes, survivors, threshold);
      GreedyPairwiseApart(boxes, survivors, threshold);
      PrependApart(boxes, s[0], rest, threshold);
    }
  }

  /**
   * Every index of s that is dropped overlaps, with IoU at or above the
   * threshold, some kept index that comes before it in s.
   */
  lemma {:induction false} GreedyDropsOnlyOverlaps(boxes: seq<Box>, s: seq<nat>, threshold: real, x: nat)
    requires InRange(s, |boxes|)
    requires x in s && x !in GreedyNms(boxes, s, threshold)
    ensures x < |boxes|
    ensures exists k :: k in GreedyNms(boxes, s, threshold) && k < |boxes|
                        && Precedes(s, k, x) && IoU(boxes[k], boxes[x]) >= threshold
    decreases |s|
  {
    var survivors := Survivors(boxes, s[0], s[1..], threshold);
    var rest := GreedyNms(boxes, survivors, threshold);
    var keep := GreedyNms(boxes, s, threshold);
    assert keep == [s[0]] + rest;
    assert x != s[0] && x in s[1..];
    if IoU(boxes[s[0]], boxes[x]) >= threshold {
      HeadPrecedes(s, x);
      assert s[0] in keep;
    } else {
      assert x in survivors && x !in rest;
      GreedyDropsOnlyOverlaps(boxes, survivors, threshold, x);
      var k :| k in rest && k < |boxes| && Precedes(survivors, k, x) && IoU(boxes[k], boxes[x]) >= threshold;
      SurvivorsKeepOrder(boxes, s[0], s[1..], threshold, k, x);
      PrecedesTail(s, k, x);
      assert k in keep;
    }
  }

  /** Along a ranking, a kept index preceding another has a score at least as high. */
  lemma RankingPrecedes(order: seq<nat>, scores: seq<real>, x: nat, y: nat)
    requires IsRanking(order, scores) && Precedes(order, x, y)
    ensures x < |scores| && y < |scores| && scores[x] >= scores[y]
  {
    var p, q :| 0 <= p < q < |order| && order[p] == x && order[q] == y;
  }

  /** Along a ranking, greedy suppression keeps nothing exactly for no boxes, else a best box first. */
  lemma RankedGreedyStartsWithBest(boxes: seq<Box>, scores: seq<real>, order: seq<nat>, threshold: real)
    requires |boxes| == |scores| && IsRanking(order, scores)
    ensures var keep := GreedyNms(boxes, order, threshold);
      && (keep == [] <==> boxes == [])
      && (keep != [] ==> forall j :: 0 <= j < |scores| ==> scores[keep[0]] >= scores[j])
  {
    var keep := GreedyNms(boxes, order, threshold);
    if keep != [] {
      forall j | 0 <= j < |scores| ensures scores[keep[0]] >= scores[j] {
        assert j in order;
        var q :| 0 <= q < |order| && order[q] == j;
        if q != 0 {
          assert scores[order[0]] >= scores[order[q]];
        }
      }
    }
  }

  /**
   * Along a ranking, whatever its tie order, the kept indices are distinct
   * and come in the ranking's order, hence with non-increasing scores.
   */
  lemma RankedGreedyIsOrdered(boxes: seq<Box>, scores: seq<real>, order: seq<nat>, threshold: real)
    requires |boxes| == |scores| && IsRanking(order, scores)
    ensures var keep := GreedyNms(boxes, order, threshold);
      && (forall p, q :: 0 <= p < q < |keep| ==> Precedes(order, keep[p], keep[q]))
      && Distinct(keep)
      && NonIncreasing(keep, scores)
  {
    var keep := GreedyNms(boxes, order, threshold);
    forall p, q | 0 <= p < q < |keep|
      ensures Precedes(order, keep[p], keep[q])
      ensures keep[p] != keep[q] && scores[keep[p]] >= scores[keep[q]]
    {
      assert Precedes(keep, keep[p], keep[q]);
      GreedyKeepsOrder(boxes, order, threshold, keep[p], keep[q]);
      RankingPrecedes(order, scores, keep[p], keep[q]);
      var p', q' :| 0 <= p' < q' < |order| && order[p'] == keep[p] && order[q'] == keep[q];
    }
  }

  /** Any two distinct kept boxes overlap with IoU below the threshold, in either argument order. */
  lemma GreedyKeepsApartBoth(boxes: seq<Box>, s: seq<nat>, threshold: real)
    requires InRange(s, |boxes|)
    ensures var keep := GreedyNms(boxes, s, threshold);
      forall p, q :: 0 <= p < |keep| && 0 <= q < |keep| && p != q ==>
        IoU(boxes[keep[p]], boxes[keep[q]]) < threshold
  {
    var keep := GreedyNms(boxes, s, threshold);
    forall p, q | 0 <= p < |keep| && 0 <= q < |keep| && p != q
      ensures IoU(boxes[keep[p]], boxes[keep[q]]) < threshold
    {
      GreedyPairwiseApart(boxes, s, threshold);
      if q < p {
        IoUSymmetric(boxes[keep[p]], boxes[keep[q]]);
      }
    }
  }

  /**
   * At any threshold up to 0.99 (the default is 0.5), two kept entries never
   * hold the same box of at least one pixel, so a peak reported twice survives once.
   */
  lemma GreedyDropsDuplicates(boxes: seq<Box>, s: seq<nat>, threshold: real)
    requires InRange(s, |boxes|) && threshold <= 0.99
    ensures var keep := GreedyNms(boxes, s, threshold);
      forall p, q :: 0 <= p < |keep| && 0 <= q < |keep| && p != q && boxes[keep[p]].w >= 1 && boxes[keep[p]].h >= 1 ==>
        boxes[keep[p]] != boxes[keep[q]]
  {
    var keep := GreedyNms(boxes, s, threshold);
    forall p, q | 0 <= p < |keep| && 0 <= q < |keep| && p != q && boxes[keep[p]].w >= 1 && boxes[keep[p]].h >= 1
      ensures boxes[keep[p]] != boxes[keep[q]]
    {
      GreedyPairwiseApart(boxes, s, threshold);
      if q < p {
        IoUSymmetric(boxes[keep[p]], boxes[keep[q]]);
      }
      ApartBoxesDiffer(boxes[keep[p]], boxes[keep[q]], threshold);
    }
  }

  /**
   * Along a ranking, every box that is not kept overlaps, at or above the
   * threshold, a kept box ranked ahead of it.
   */
  lemma RankedGreedyCovers(boxes: seq<Box>, scores: seq<real>, order: seq<nat>, threshold: real)
    requires |boxes| == |scores| && IsRanking(order, scores)
    ensures var keep := GreedyNms(boxes, order, threshold);
      forall j :: 0 <= j < |boxes| && j !in keep ==>
        exists k :: k in keep && k < |boxes| && Precedes(order, k, j) && IoU(boxes[k], boxes[j]) >= threshold
  {
    var keep := GreedyNms(boxes, order, threshold);
    forall j | 0 <= j < |boxes| && j !in keep
      ensures exists k :: k in keep && k < |boxes| && Precedes(order, k, j) && IoU(boxes[k], boxes[j]) >= threshold
    {
      assert j in order;
      GreedyDropsOnlyOverlaps(boxes, order, threshold, j);
    }
  }

  /** Along a ranking, every box that is not kept overlaps a kept box scoring at least as high. */
  lemma RankedGreedyCoversByScore(boxes: seq<Box>, scores: seq<real>, order: seq<nat>, threshold: real, keep: seq<nat>)
    requires |boxes| == |scores| && IsRanking(order, scores)
    requires keep == GreedyNms(boxes, order, threshold)
    ensures forall j :: 0 <= j < |boxes| && j !in keep ==>
      exists k :: k in keep && k < |boxes| && scores[k] >= scores[j] && IoU(boxes[k], boxes[j]) >= threshold
  {
    RankedGreedyCovers(boxes, scores, order, threshold);
    forall j | 0 <= j < |boxes| && j !in keep
      ensures exists k :: k in keep && k < |boxes| && scores[k] >= scores[j] && IoU(boxes[k], boxes[j]) >= threshold
    {
      var k :| k in keep && k < |boxes| && Precedes(order, k, j) && IoU(boxes[k], boxes[j]) >= threshold;
      RankingPrecedes(order, scores, k, j);
    }
  }

  /** One turn of the loop: the head moves from the indices to the kept list. */
  lemma GreedyStep(boxes: seq<Box>, keep: seq<nat>, indices: seq<nat>, threshold: real)
    requires InRange(indices, |boxes|) && indices != []
    ensures var next := Survivors(boxes, indices[0], indices[1..], threshold);
      && keep + GreedyNms(boxes, indices, threshold) == (keep + [indices[0]]) + GreedyNms(boxes, next, threshold)
      && (|indices| == 1 ==> keep + GreedyNms(boxes, indices, threshold) == keep + [indices[0]])
  {
    var next := Survivors(boxes, indices[0], indices[1..], threshold);
    assert GreedyNms(boxes, indices, threshold) == [indices[0]] + GreedyNms(boxes, next, threshold);
    if |indices| == 1 {
      assert next == [];
    }
  }

  /** The elements and positions of s with x inserted at position p. */
  lemma InsertAt(s: seq<nat>, x: nat, p: nat)
    requires p <= |s|
    ensures var t := s[..p] + [x] + s[p..];
      && |t| == |s| + 1
      && (forall q :: 0 <= q < p ==> t[q] == s[q])
      && t[p] == x
      && (forall q :: p < q < |t| ==> t[q] == s[q - 1])
      && (forall y :: y in t <==> y in s || y == x)
  {
    assert s == s[..p] + s[p..];
  }

  /** Inserting i after the indices scoring at least as high keeps a ranking of 0..i. */
  lemma InsertKeepsRanking(order: seq<nat>, scores: seq<real>, i: nat, p: nat)
    requires i < |scores| && p <= |order| == i
    requires InRange(order, i) && Distinct(order) && NonIncreasing(order, scores)
    requires forall x: nat :: x in order <==> x < i
    requires forall q :: 0 <= q < p ==> scores[order[q]] >= scores[i]
    requires p < |order| ==> scores[order[p]] < scores[i]
    ensures var next := order[..p] + [i] + order[p..];
      && |next| == i + 1 && InRange(next, i + 1) && Distinct(next) && NonIncreasing(next, scores)
      && (forall x: nat :: x in next <==> x < i + 1)
  {
    var next := order[..p] + [i] + order[p..];
    InsertAt(order, i, p);
    forall q, r | 0 <= q < r < |next| ensures next[q] != next[r] && scores[next[q]] >= scores[next[r]] {
      if q == p && r > p + 1 {
        assert scores[order[p]] >= scores[order[r - 1]];
      }
    }
  }

  /**
   * The while loop of nms_boxes over a given visiting order: keep the head,
   * stop if it was the last index, else keep only its survivors.
   */
  method NmsGreedy(boxes: seq<Box>, order: seq<nat>, threshold: real) returns (keep: seq<nat>)
    requires InRange(order, |boxes|)
    ensures keep == GreedyNms(boxes, order, threshold)
  {
    var indices := order;
    keep := [];
    while |indices| > 0
      invariant InRange(indices, |boxes|)
      invariant keep + GreedyNms(boxes, indices, threshold) == GreedyNms(boxes, order, threshold)
      decreases |indices|
    {
      var i := indices[0];
      GreedyStep(boxes, keep, indices, threshold);
      keep := keep + [i];
      if |indices| == 1 {
        break;
      }
      indices := Survivors(boxes, i, indices[1..], threshold);
    }
  }

  /**
   * A ranking of the indices of scores, best first; among equal scores the
   * lower index comes first, one of the orders argsort()[::-1] may produce.
   */
  method RankByScore(scores: seq<real>) returns (order: seq<nat>)
    ensures IsRanking(order, scores)
  {
    order := [];
    var i := 0;
    while i < |scores|
      invariant 0 <= i <= |scores|
      invariant |order| == i
      invariant InRange(order, i)
      invariant forall x: nat :: x in order <==> x < i
      invariant Distinct(order)
      invariant NonIncreasing(order, scores)
    {
      var p := 0;
      while p < |order| && scores[order[p]] >= scores[i]
        invariant 0 <= p <= |order|
        invariant forall q :: 0 <= q < p ==> scores[order[q]] >= scores[i]
      {
        p := p + 1;
      }
      InsertKeepsRanking(order, scores, i, p);
      order := order[..p] + [i] + order[p..];
      i := i + 1;
    }
  }

  /**
   * nms_boxes: the indices of the boxes kept by greedy suppression, best
   * first. Equal-length lists of boxes and scores are what every caller
   * passes (one score per box).
   */
  method NmsBoxes(boxes: seq<Box>, scores: seq<real>, threshold: real) returns (keep: seq<nat>)
    requires |boxes| == |scores|
    ensures InRange(keep, |boxes|)
    ensures keep == [] <==> boxes == []
    ensures keep != [] ==> forall j :: 0 <= j < |scores| ==> scores[keep[0]] >= scores[j]
    ensures Distinct(keep) && NonIncreasing(keep, scores)
    ensures forall p, q :: 0 <= p < |keep| && 0 <= q < |keep| && p != q ==>
              IoU(boxes[keep[p]], boxes[keep[q]]) < threshold
    ensures forall j :: 0 <= j < |boxes| && j !in keep ==>
              exists k :: k in keep && k < |boxes| && scores[k] >= scores[j] && IoU(boxes[k], boxes[j]) >= threshold
  {
    if boxes == [] {
      return [];
    }
    var order := RankByScore(scores);
    keep := NmsGreedy(boxes, order, threshold);
    RankedGreedyStartsWithBest(boxes, scores, order, threshold);
    RankedGreedyIsOrdered(boxes, scores, order, threshold);
    GreedyKeepsApartBoth(boxes, order, threshold);
    RankedGreedyCoversByScore(boxes, scores, order, threshold, keep);
  }
}
