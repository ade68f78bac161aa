/** Integer boxes (x, y, w, h) and their intersection-over-union, as nms_boxes computes it. */
module Boxes {

  /** A box with its top-left corner at (x, y), width w and height h, in pixels. */
  datatype Box = Box(x: int, y: int, w: int, h: int) {
    function Right(): int { x + w }
    function Bottom(): int { y + h }
    function Area(): int { w * h }
  }

  function Max(a: int, b: int): int { if a >= b then a else b }
  function Min(a: int, b: int): int { if a <= b then a else b }

  /** The constant added to the IoU denominator. */
  const Epsilon: real := 0.000001

  /** Width of the overlap of two boxes along x, clamped at zero. */
  function OverlapWidth(a: Box, b: Box): int {
    Max(0, Min(a.Right(), b.Right()) - Max(a.x, b.x))
  }

  /** Height of the overlap of two boxes along y, clamped at zero. */
  function OverlapHeight(a: Box, b: Box): int {
    Max(0, Min(a.Bottom(), b.Bottom()) - Max(a.y, b.y))
  }

  /** Area of the overlap of two boxes. */
  function Intersection(a: Box, b: Box): (r: int)
    ensures r >= 0
  {
    OverlapWidth(a, b) * OverlapHeight(a, b)
  }

  /** An integer plus the epsilon is never zero, so IoU is total. */
  lemma EpsilonDenominator(n: int)
    ensures n as real + Epsilon != 0.0
    ensures n >= 0 ==> n as real + Epsilon > 0.0
  {
    if n < 0 {
      assert n <= -1;
    }
  }

  /**
   * Intersection over union with the epsilon in the denominator, in exact
   * arithmetic: inter / (area_a + area_b - inter + 1e-6).
   */
  function IoU(a: Box, b: Box): real {
    var inter := Intersection(a, b);
    EpsilonDenominator(a.Area() + b.Area() - inter);
    inter as real / ((a.Area() + b.Area() - inter) as real + Epsilon)
  }

  /** IoU does not depend on the order of its arguments. */
  lemma IoUSymmetric(a: Box, b: Box)
    ensures IoU(a, b) == IoU(b, a)
  {
    assert Intersection(a, b) == Intersection(b, a);
  }

  /** Product of non-negative factors is monotone in each factor. */
  lemma MulMono(a: int, b: int, c: int, d: int)
    requires 0 <= a <= c && 0 <= b <= d
    ensures a * b <= c * d
  {
    assert a * b <= c * b;
    assert c * b <= c * d;
  }

  /** The overlap of two boxes is no larger than either box. */
  lemma IntersectionBounded(a: Box, b: Box)
    requires a.w >= 0 && a.h >= 0 && b.w >= 0 && b.h >= 0
    ensures Intersection(a, b) <= a.Area()
    ensures Intersection(a, b) <= b.Area()
  {
    MulMono(OverlapWidth(a, b), OverlapHeight(a, b), a.w, a.h);
    MulMono(OverlapWidth(a, b), OverlapHeight(a, b), b.w, b.h);
  }

  /** A non-negative quotient below its positive denominator lies in [0, 1). */
  lemma FractionBounds(n: real, d: real)
    requires 0.0 <= n < d
    ensures 0.0 <= n / d < 1.0
  {
    var q := n / d;
    assert q * d == n;
  }

  /** For boxes of non-negative size, IoU lies in [0, 1). */
  lemma IoUBounds(a: Box, b: Box)
    requires a.w >= 0 && a.h >= 0 && b.w >= 0 && b.h >= 0
    ensures 0.0 <= IoU(a, b) < 1.0
  {
    var inter := Intersection(a, b);
    IntersectionBounded(a, b);
    var d := (a.Area() + b.Area() - inter) as real + Epsilon;
    FractionBounds(inter as real, d);
  }

  /**
   * A box of at least one pixel overlaps itself with IoU above 0.99, so two
   * identical boxes never both survive a threshold of 0.99 or less.
   */
  lemma SelfOverlap(a: Box)
    requires a.w >= 1 && a.h >= 1
    ensures IoU(a, a) > 0.99
  {
    MulMono(1, 1, a.w, a.h);
    assert Intersection(a, a) == a.Area();
    var area := a.Area() as real;
    LargeFraction(area, area + Epsilon);
  }

  /** n / d exceeds 0.99 when d exceeds n by at most a millionth and n >= 1. */
  lemma LargeFraction(n: real, d: real)
    requires n >= 1.0 && d == n + Epsilon
    ensures n / d > 0.99
  {
    var q := n / d;
    assert q * d == n;
    assert 0.99 * d < n;
  }

  /** A box of at least one pixel overlaps itself above 0.99, so boxes apart at such a threshold differ. */
  lemma ApartBoxesDiffer(a: Box, b: Box, threshold: real)
    requires a.w >= 1 && a.h >= 1 && threshold <= 0.99 && IoU(a, b) < threshold
    ensures a != b
  {
    if a == b {
      SelfOverlap(a);
    }
  }
}
