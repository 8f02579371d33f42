/** The per-pixel rule of the normaliser: `gray.point(lambda x: 0 if x > 128 else 255, '1')`.

    Grey-scale conversion and resizing to the 600-pixel reference width are not part of
    this model; it starts from the luminance raster of the resized image. */
module Binarize {
  import opened Raster

  /** Luminance threshold of the binarisation rule. */
  const Cutoff: int := 128

  /** A luminance value strictly above the cutoff: the cells the detector ends up counting. */
  predicate IsBright(lum: int) { lum > Cutoff }

  /** Binarised value of one pixel: bright pixels become 0, all others 255. */
  function Threshold(lum: int): (v: int)
    ensures v == 0 || v == 255
    ensures IsInk(v) <==> IsBright(lum)
  {
    if lum > Cutoff then 0 else 255
  }

  /** The rule applied to every pixel; the shape of the raster is kept. */
  function BinarizeGrid(lum: Grid): (g: Grid)
    ensures |g| == |lum|
    ensures forall j :: 0 <= j < |g| ==> |g[j]| == |lum[j]|
    ensures forall j, i :: 0 <= j < |g| && 0 <= i < |g[j]| ==> g[j][i] == Threshold(lum[j][i])
  {
    seq(|lum|, j requires 0 <= j < |lum| => seq(|lum[j]|, i requires 0 <= i < |lum[j]| => Threshold(lum[j][i])))
  }

  /** The fill count of a rectangle of the binarised raster is the number of pixels in that
      rectangle whose luminance was above 128: the detector counts bright paper, not dark ink. */
  lemma FillCountCountsBright(lum: Grid, r: Rect)
    ensures FillCount(BinarizeGrid(lum), r) == RegionCount(lum, r, IsBright)
  {
    RegionCountPointwise(BinarizeGrid(lum), IsInk, lum, IsBright, r);
  }
}
