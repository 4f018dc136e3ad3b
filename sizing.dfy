/** The size arithmetic of `Printer._get_image`: the image is resized to
    the raster width of the configured paper, keeping its aspect ratio,
    with the new height truncated to an integer. */
module Sizing {

  /** An image size in pixels, as PIL's `image.size` gives it: (width, height). */
  datatype Size = Size(width: nat, height: nat)

  /** Raster width of 62 mm paper; the source's `target_w` for `"62"`. */
  const WideRaster: nat := 696
  /** Raster width used for every other paper width string. */
  const NarrowRaster: nat := 554

  /** `target_w`: 696 exactly for the paper width string `"62"`, 554 for
      any other string (there is no table of paper sizes). */
  function TargetWidth(paperWidth: string): (w: nat)
    ensures w == WideRaster || w == NarrowRaster
    ensures w == WideRaster <==> paperWidth == "62"
  {
    if paperWidth == "62" then WideRaster else NarrowRaster
  }

  /** `target_h`: the proportional height `h * target_w / w`, truncated
      toward zero. The source requires nothing of the decoded width
      beyond what a decoded image has, a positive width. */
  function TargetHeight(original: Size, targetWidth: nat): (h: nat)
    requires original.width > 0
    ensures h * original.width <= original.height * targetWidth
    ensures original.height * targetWidth < (h + 1) * original.width
  {
    original.height * targetWidth / original.width
  }

  /** The size `_get_image` resizes the decoded image to. */
  function PreparedSize(paperWidth: string, original: Size): (s: Size)
    requires original.width > 0
    ensures s.width == TargetWidth(paperWidth)
    ensures s.height * original.width <= original.height * s.width < (s.height + 1) * original.width
  {
    var w := TargetWidth(paperWidth);
    Size(w, TargetHeight(original, w))
  }

  /** An image already as wide as the raster keeps its height. */
  lemma HeightKeptAtTargetWidth(original: Size, targetWidth: nat)
    requires original.width > 0 && original.width == targetWidth
    ensures TargetHeight(original, targetWidth) == original.height
  {
  }

  /** A taller original never gives a shorter prepared image. */
  lemma HeightMonotone(a: Size, b: Size, targetWidth: nat)
    requires a.width > 0 && a.width == b.width && a.height <= b.height
    ensures TargetHeight(a, targetWidth) <= TargetHeight(b, targetWidth)
  {
    var ha, hb, w := TargetHeight(a, targetWidth), TargetHeight(b, targetWidth), a.width;
    MulMonotone(a.height, b.height, targetWidth);
    MulStrict(ha, hb + 1, w);
  }

  /** Nothing keeps the height positive: it is 0 exactly when
      `h * target_w < w`. */
  lemma HeightZeroIff(original: Size, targetWidth: nat)
    requires original.width > 0
    ensures TargetHeight(original, targetWidth) == 0 <==> original.height * targetWidth < original.width
  {
  }

  /** An image 2000 pixels wide and 1 pixel high prepares to height 0. */
  lemma ZeroHeightExample()
    ensures PreparedSize("62", Size(2000, 1)) == Size(696, 0)
  {
  }

  /** A 600x400 image on 62 mm paper prepares to 696x464 in exact
      arithmetic. */
  lemma PreparedExample()
    ensures PreparedSize("62", Size(600, 400)) == Size(696, 464)
    ensures PreparedSize("29", Size(600, 400)) == Size(554, 369)
  {
  }

  lemma MulStrict(a: nat, b: nat, c: nat)
    requires c > 0
    ensures a < b <==> a * c < b * c
  {
  }

  lemma MulMonotone(a: nat, b: nat, c: nat)
    requires a <= b
    ensures a * c <= b * c
  {
  }
}
