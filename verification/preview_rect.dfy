/**
 * Clamping the preview window's rectangle to the captured frame before it
 * is blacked out of the frame handed to the template matcher.
 */
module PreviewRect {

  /** A window rectangle as GetWindowRect reports it: left, top, right, bottom. */
  datatype Rect = Rect(left: int, top: int, right: int, bottom: int)

  /** v clamped into [lo, hi], clamping at lo first as the source does. */
  function Clamp(v: int, lo: int, hi: int): int {
    var atLeast := if v < lo then lo else v;
    if atLeast > hi then hi else atLeast
  }

  /**
   * The clamp on a width x height frame: left and top are forced into the
   * frame's last column and row, right and bottom up to its width and height;
   * all four are first raised to zero.
   */
  function ClampToFrame(r: Rect, width: int, height: int): (c: Rect)
    ensures width >= 1 && height >= 1 ==>
      && 0 <= c.left < width && 0 <= c.right <= width
      && 0 <= c.top < height && 0 <= c.bottom <= height
    ensures 0 <= r.left < width ==> c.left == r.left
    ensures 0 <= r.top < height ==> c.top == r.top
    ensures 0 <= r.right <= width ==> c.right == r.right
    ensures 0 <= r.bottom <= height ==> c.bottom == r.bottom
    ensures r.left < 0 && width >= 1 ==> c.left == 0
    ensures r.left >= width ==> c.left == width - 1
    ensures r.right > width ==> c.right == width
  {
    Rect(Clamp(r.left, 0, width - 1), Clamp(r.top, 0, height - 1), Clamp(r.right, 0, width), Clamp(r.bottom, 0, height))
  }

  /** Clamping a clamped rectangle again changes nothing. */
  lemma ClampIdempotent(r: Rect, width: int, height: int)
    requires width >= 1 && height >= 1
    ensures ClampToFrame(ClampToFrame(r, width, height), width, height) == ClampToFrame(r, width, height)
  {
  }

  /**
   * Each clamped coordinate is the value of its allowed range nearest to
   * the reported one: no value of the range is closer.
   */
  lemma ClampIsNearest(v: int, lo: int, hi: int, w: int)
    requires lo <= hi && lo <= w <= hi
    ensures lo <= Clamp(v, lo, hi) <= hi
    ensures Dist(Clamp(v, lo, hi), v) <= Dist(w, v)
  {
  }

  function Dist(a: int, b: int): nat {
    if a >= b then a - b else b - a
  }
}
