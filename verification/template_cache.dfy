/**
 * The per-scale template cache of get_scaled_template. Pixels are not
 * modelled: cv2.resize is the symbolic constructor Resized, which records
 * the image it was applied to, the requested size and the interpolation.
 */
module TemplateCache {
  import opened Wrappers

  datatype Interpolation = Area | Nearest

  /** A loaded template image, or the result of resizing an image. */
  datatype Image =
    | Loaded(id: nat, width: nat, height: nat)
    | Resized(source: Image, width: nat, height: nat, interpolation: Interpolation)

  /** A cache entry: the scaled image and its scaled mask, if the template has one. */
  datatype ScaledPair = ScaledPair(image: Image, mask: Option<Image>)

  /**
   * Python's round on a number: the nearest integer, ties to the even one.
   * The number is exact here; see README for the double product.
   */
  function RoundHalfEven(x: real): (n: int)
    ensures -0.5 <= n as real - x <= 0.5
    ensures (n as real - x == 0.5 || n as real - x == -0.5) ==> n % 2 == 0
  {
    var f := x.Floor;
    var frac := x - f as real;
    if frac < 0.5 then f
    else if frac > 0.5 then f + 1
    else if f % 2 == 0 then f
    else f + 1
  }

  /** Rounding to nearest, ties to even, has exactly one answer. */
  lemma RoundHalfEvenUnique(x: real, n: int)
    requires -0.5 <= n as real - x <= 0.5
    requires (n as real - x == 0.5 || n as real - x == -0.5) ==> n % 2 == 0
    ensures n == RoundHalfEven(x)
  {
  }

  /** A scale within 1e-3 of 1.0 keeps the original template. */
  predicate NearOne(scale: real) {
    -0.001 < scale - 1.0 < 0.001
  }

  /** max(1, int(round(dim * scale))): the scaled size, never below one pixel. */
  function ScaledDim(dim: nat, scale: real): (n: nat)
    ensures n >= 1
    ensures dim as real * scale >= 0.5 ==> -0.5 <= n as real - dim as real * scale <= 0.5
    ensures dim as real * scale < 0.5 ==> n == 1
  {
    var rounded := RoundHalfEven(dim as real * scale);
    if rounded < 1 then 1 else rounded
  }

  /**
   * What get_scaled_template computes on a cache miss: near 1.0 the original
   * image and mask; otherwise the image resized with area interpolation to
   * the scaled size, and the mask, if any, resized to the same size with
   * nearest-neighbour interpolation.
   */
  function ScaleTemplate(image: Image, mask: Option<Image>, scale: real): (r: ScaledPair)
    ensures NearOne(scale) ==> r == ScaledPair(image, mask)
    ensures !NearOne(scale) ==>
      && r.image.Resized? && r.image.source == image && r.image.interpolation == Area
      && r.image.width >= 1 && r.image.height >= 1
      && (image.width as real * scale >= 0.5 ==> -0.5 <= r.image.width as real - image.width as real * scale <= 0.5)
      && (image.height as real * scale >= 0.5 ==> -0.5 <= r.image.height as real - image.height as real * scale <= 0.5)
      && (r.mask.None? <==> mask.None?)
      && (r.mask.Some? ==>
            && r.mask.value.Resized? && r.mask.value.source == mask.value
            && r.mask.value.interpolation == Nearest
            && r.mask.value.width == r.image.width && r.mask.value.height == r.image.height)
  {
    if NearOne(scale) then ScaledPair(image, mask)
    else
      var w := ScaledDim(image.width, scale);
      var h := ScaledDim(image.height, scale);
      ScaledPair(
        Resized(image, w, h, Area),
        match mask
        case None => None
        case Some(m) => Some(Resized(m, w, h, Nearest)))
  }

  /**
   * One template's entry of the template table: its name, image, optional
   * mask, threshold, and the "scaled" dictionary, the only part that changes.
   */
  class TemplateInfo {
    const name: string
    const image: Image
    const mask: Option<Image>
    const threshold: real
    var scaled: map<real, ScaledPair>

    /** Every cached entry is what a fresh computation at its scale gives. */
    ghost predicate Valid()
      reads this
    {
      forall s :: s in scaled ==> scaled[s] == ScaleTemplate(image, mask, s)
    }

    constructor (name: string, image: Image, mask: Option<Image>, threshold: real)
      ensures Valid() && scaled == map[]
      ensures this.name == name && this.image == image && this.mask == mask && this.threshold == threshold
    {
      this.name := name;
      this.image := image;
      this.mask := mask;
      this.threshold := threshold;
      scaled := map[];
    }

    /**
     * get_scaled_template: a cached scale returns its stored pair and leaves
     * the cache alone; a new scale computes the pair and adds exactly that
     * entry. Either way the pair is the one ScaleTemplate defines.
     */
    method GetScaledTemplate(scale: real) returns (img: Image, msk: Option<Image>)
      requires Valid()
      modifies this
      ensures Valid()
      ensures ScaledPair(img, msk) == ScaleTemplate(image, mask, scale)
      ensures scale in old(scaled) ==> ScaledPair(img, msk) == old(scaled)[scale] && scaled == old(scaled)
      ensures scale !in old(scaled) ==> scaled == old(scaled)[scale := ScaledPair(img, msk)]
    {
      if scale in scaled {
        return scaled[scale].image, scaled[scale].mask;
      }
      var resImg: Image;
      var resMsk: Option<Image>;
      if NearOne(scale) {
        resImg := image;
        resMsk := mask;
      } else {
        var newW := ScaledDim(image.width, scale);
        var newH := ScaledDim(image.height, scale);
        resImg := Resized(image, newW, newH, Area);
        resMsk := None;
        if mask.Some? {
          resMsk := Some(Resized(mask.value, newW, newH, Nearest));
        }
      }
      scaled := scaled[scale := ScaledPair(resImg, resMsk)];
      return resImg, resMsk;
    }
  }

  /** The scales every template is tried at (TEMPLATE_SCALES). */
  const TemplateScales: seq<real> := [0.2, 0.25, 0.33, 0.4, 0.5, 0.6, 0.75, 0.85, 1.0, 1.15, 1.33]

  /**
   * Of the configured scales, exactly 1.0 reuses the original template and
   * mask; each of the other ten is a resize of the original to its own size.
   */
  lemma OnlyUnitScaleKeepsOriginal(image: Image, mask: Option<Image>)
    ensures 1.0 in TemplateScales && ScaleTemplate(image, mask, 1.0) == ScaledPair(image, mask)
    ensures forall s :: s in TemplateScales && s != 1.0 ==>
      ScaleTemplate(image, mask, s).image == Resized(image, ScaledDim(image.width, s), ScaledDim(image.height, s), Area)
  {
    forall s | s in TemplateScales && s != 1.0
      ensures !NearOne(s)
    {
    }
  }

  /**
   * The scale loop of match_all_multiscale as far as the cache sees it: each
   * scale in turn is looked up. Afterwards every scale is cached, entries
   * cached before are untouched, and nothing else was added.
   */
  method LookUpScales(info: TemplateInfo, scales: seq<real>)
    requires info.Valid()
    modifies info
    ensures info.Valid()
    ensures info.scaled.Keys == old(info.scaled.Keys) + set s | s in scales
    ensures forall s :: s in old(info.scaled) ==> info.scaled[s] == old(info.scaled[s])
  {
    var n := 0;
    while n < |scales|
      invariant 0 <= n <= |scales|
      invariant info.Valid()
      invariant info.scaled.Keys == old(info.scaled.Keys) + set s | s in scales[..n]
      invariant forall s :: s in old(info.scaled) ==> info.scaled[s] == old(info.scaled[s])
    {
      var img, msk := info.GetScaledTemplate(scales[n]);
      assert scales[..n + 1] == scales[..n] + [scales[n]];
      n := n + 1;
    }
    assert scales[..n] == scales;
  }
}
