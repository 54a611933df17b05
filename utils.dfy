/** `clip` and `clip_min`: saturate a signed 16-bit value into a byte range. */
module Utils {
  import opened Primitives

  /** The distance between two integers on the number line. */
  function Dist(a: int, b: int): nat {
    if a <= b then b - a else a - b
  }

  /**
    Saturate `v` into 0..=255: the byte nearest to `v`, and `v` itself when it
    already is a byte.
   */
  function Clip(v: I16): (r: U8)
    ensures 0 <= v <= 255 ==> r == v
    ensures forall y: U8 :: Dist(r, v) <= Dist(y, v)
  {
    if v < 0 then
      0
    else if v > 255 then
      255
    else
      v
  }

  /**
    Saturate `v` into min..=255: the value of that range nearest to `v`, and
    `v` itself when it lies in the range.
   */
  function ClipMin(v: I16, min: U8): (r: U8)
    ensures min <= r
    ensures min <= v <= 255 ==> r == v
    ensures forall y: U8 :: min <= y ==> Dist(r, v) <= Dist(y, v)
  {
    if v < min then
      min
    else if v > 255 then
      255
    else
      v
  }

  /** The three cases of `clip`. */
  lemma ClipCases(v: I16)
    ensures v < 0 ==> Clip(v) == 0
    ensures v > 255 ==> Clip(v) == 255
    ensures 0 <= v <= 255 ==> Clip(v) == v
  {
  }

  /** The three cases of `clip_min`. */
  lemma ClipMinCases(v: I16, min: U8)
    ensures v < min ==> ClipMin(v, min) == min
    ensures v > 255 ==> ClipMin(v, min) == 255
    ensures min <= v <= 255 ==> ClipMin(v, min) == v
  {
  }

  /** With a minimum of zero, `clip_min` is `clip`. */
  lemma ClipMinZeroIsClip(v: I16)
    ensures ClipMin(v, 0) == Clip(v)
  {
  }

  lemma ClipMonotone(v: I16, w: I16)
    requires v <= w
    ensures Clip(v) <= Clip(w)
  {
  }

  lemma ClipMinMonotone(v: I16, w: I16, min: U8)
    requires v <= w
    ensures ClipMin(v, min) <= ClipMin(w, min)
  {
  }

  /** The unit tests of utils.rs. */
  lemma TestVectors()
    ensures Clip(-1) == 0 && Clip(1) == 1 && Clip(255) == 255 && Clip(256) == 255
    ensures ClipMin(128, 10) == 128 && ClipMin(5, 10) == 10
    ensures ClipMin(256, 10) == 255 && ClipMin(255, 10) == 255
  {
  }
}
