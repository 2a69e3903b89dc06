/** Fitting an image into the terminal before it is drawn as Sixel graphics
    (`scaleImage` and the pixel budget of `renderSixelImage` in cmd/browse_tui.go).
    Only the dimensions are modelled; pixels and the bilinear filter are not. */
module ImageScale {
  import opened Results
  import opened Bytes

  /** A decoded image, or one resampled from another to new dimensions. */
  datatype Picture =
    | Decoded(handle: nat, width: int, height: int)
    | Resampled(source: Picture, width: int, height: int)

  function Max(a: int, b: int): int {
    if a < b then b else a
  }

  /** Terminal cells are taken to be 8 pixels wide and 16 high. */
  const CellWidth: int := 8
  const CellHeight: int := 16

  /** The smallest box an image is fitted into, whatever the terminal size. */
  const MinWidthPx: int := 80
  const MinHeightPx: int := 100

  /** The box the image is fitted into: the terminal less two rows, with a floor. */
  function PixelBudget(width: int, height: int): (box: (int, int))
    ensures box.0 >= MinWidthPx && box.1 >= MinHeightPx
    ensures box.0 >= CellWidth * width && box.1 >= CellHeight * (height - 2)
    ensures box.0 == MinWidthPx || box.0 == CellWidth * width
    ensures box.1 == MinHeightPx || box.1 == CellHeight * (height - 2)
  {
    var w := width * CellWidth;
    var h := (height - 2) * CellHeight;
    (if w < MinWidthPx then MinWidthPx else w, if h < MinHeightPx then MinHeightPx else h)
  }

  /** `a / c <= b` when `a <= b * c`: floor division is monotone. */
  lemma DivAtMost(a: int, b: int, c: int)
    requires c > 0 && a <= c * b
    ensures a / c <= b
  {
    var q, r := a / c, a % c;
    assert a == c * q + r && 0 <= r;
  }

  /** The side scaled by the other side's ratio stays within its own bound. */
  lemma ScaledSideFits(a: int, bound: int, c: int)
    requires c > 0
    ensures a <= c * bound ==> a / c <= bound
  {
    if a <= bound * c {
      DivAtMost(a, bound, c);
    }
  }

  /** Scales `img` to fit `maxWidth` x `maxHeight`, keeping its aspect ratio. An image
      with an empty side, or that already fits, is returned as it is. Otherwise the
      scale factor is the smaller of the two ratios (the width ratio on a tie) and each
      side is rounded down, but never below one pixel. The arithmetic is exact. */
  function ScaleImage(img: Picture, maxWidth: int, maxHeight: int): (r: Picture)
    ensures r == img <==> img.width <= 0 || img.height <= 0
                          || (img.width <= maxWidth && img.height <= maxHeight)
    ensures r != img ==> r.Resampled? && r.source == img && r.width >= 1 && r.height >= 1
    ensures r != img && maxWidth >= 1 && maxHeight >= 1 ==>
      r.width <= maxWidth && r.height <= maxHeight && (r.width == maxWidth || r.height == maxHeight)
    // The height ratio is the smaller: the height is fitted and the width is
    // floor(width * maxHeight / height), but at least one pixel.
    ensures r != img && maxWidth >= 1 && maxHeight >= 1 && img.width * maxHeight < img.height * maxWidth ==>
      r.height == maxHeight && RoundsDown(r.width, img.width * maxHeight, img.height)
    // Otherwise the width is fitted and the height is rounded down in the same way.
    ensures r != img && maxWidth >= 1 && maxHeight >= 1 && img.width * maxHeight >= img.height * maxWidth ==>
      r.width == maxWidth && RoundsDown(r.height, img.height * maxWidth, img.width)
  {
    var ow, oh := img.width, img.height;
    if ow <= 0 || oh <= 0 then img
    else if ow <= maxWidth && oh <= maxHeight then img
    else if ow * maxHeight < oh * maxWidth then
      var w := (ow * maxHeight) / oh;
      ScaledSideFits(ow * maxHeight, maxWidth, oh);
      RoundedDown(ow, maxHeight, oh);
      var r := Resampled(img, Max(1, w), Max(1, maxHeight));
      assert img < r;
      r
    else
      var h := (oh * maxWidth) / ow;
      ScaledSideFits(oh * maxWidth, maxHeight, ow);
      RoundedDown(oh, maxWidth, ow);
      var r := Resampled(img, Max(1, maxWidth), Max(1, h));
      assert img < r;
      r
  }

  /** The scaled image keeps the original proportions to within one pixel: the
      cross products of the two aspect ratios differ by less than the side that was
      fitted, so the rounded side is less than one pixel away from the exact
      proportional length. */
  lemma ScalePreservesAspect(img: Picture, maxWidth: int, maxHeight: int)
    requires img.width > 0 && img.height > 0 && maxWidth >= 1 && maxHeight >= 1
    ensures var r := ScaleImage(img, maxWidth, maxHeight);
      var diff := r.width * img.height - r.height * img.width;
      && (r == img ==> diff == 0)
      && (img.width * maxHeight < img.height * maxWidth ==> -img.height < diff < img.height)
      && (img.width * maxHeight >= img.height * maxWidth ==> -img.width < diff < img.width)
  {
    var ow, oh := img.width, img.height;
    var r := ScaleImage(img, maxWidth, maxHeight);
    if ow <= maxWidth && oh <= maxHeight {
      assert r == img;
      assert r.width * oh - r.height * ow == 0;
    } else if ow * maxHeight < oh * maxWidth {
      var s := Max(1, (ow * maxHeight) / oh);
      assert r.width == s && r.height == maxHeight;
      FittedSide(ow, oh, maxHeight);
      assert -oh < s * oh - maxHeight * ow < oh;
    } else {
      var s := Max(1, (oh * maxWidth) / ow);
      assert r.width == maxWidth && r.height == s;
      FittedSide(oh, ow, maxWidth);
      assert -ow < s * ow - maxWidth * oh < ow;
    }
  }

  /** When the side of length `other` is scaled to `bound`, the side of length `side`
      becomes `max(1, floor(side * bound / other))`, and the cross products differ by
      less than `other`. */
  lemma FittedSide(side: int, other: int, bound: int)
    requires side > 0 && other > 0 && bound >= 1
    ensures var s := Max(1, (side * bound) / other);
      -other < s * other - bound * side < other
  {
    var p := side * bound;
    var q := p / other;
    FloorBracket(p, other);
    assert bound * side == p;
    assert p > 0;
    if q < 1 {
      assert q * other <= p < q * other + other;
      assert q == 0;
    }
  }

  /** `s` is `a / c` rounded down, or one when that is zero. */
  predicate RoundsDown(s: int, a: int, c: int) {
    a < (s + 1) * c && (s == 1 || s * c <= a)
  }

  /** `max(1, floor(x * y / c))` rounds `x * y / c` down, for non-negative `x` and
      `y`. */
  lemma RoundedDown(x: int, y: int, c: int)
    requires c > 0
    ensures x >= 0 && y >= 0 ==> RoundsDown(Max(1, (x * y) / c), x * y, c)
  {
    if x >= 0 && y >= 0 {
      var a := x * y;
      assert a >= 0;
      var q := a / c;
      FloorBracket(a, c);
      if q < 1 {
        assert q == 0;
        assert a < c;
      }
    }
  }

  /** `q = a / c` brackets `a`: `q * c <= a < q * c + c`. */
  lemma FloorBracket(a: int, c: int)
    requires c > 0
    ensures (a / c) * c <= a < (a / c) * c + c
  {
  }

  /** The image is decoded, fitted into the pixel budget of a `width` x `height`
      terminal and encoded as Sixel; a failure at either end gives the empty string.
      The decoder and the encoder are parameters. */
  function RenderSixelImage(decode: seq<byte> -> Option<Picture>, encode: Picture -> Option<string>,
                            width: int, height: int, data: seq<byte>): (r: string)
    ensures decode(data).None? ==> r == ""
    ensures r != "" ==>
      && decode(data).Some?
      && var box := PixelBudget(width, height);
         encode(ScaleImage(decode(data).value, box.0, box.1)) == Some(r)
    ensures decode(data).Some? ==>
      var box := PixelBudget(width, height);
      var out := encode(ScaleImage(decode(data).value, box.0, box.1));
      && (out.None? ==> r == "")
      && (out.Some? ==> r == out.value)
  {
    match decode(data)
    case None => ""
    case Some(img) =>
      var box := PixelBudget(width, height);
      match encode(ScaleImage(img, box.0, box.1))
      case None => ""
      case Some(out) => out
  }

  /** On a terminal of at least 10 columns and 9 rows the drawn image fits the
      window less two rows, at 8 x 16 pixels per cell. */
  lemma SixelFitsTerminal(img: Picture, width: int, height: int)
    requires width >= 10 && height >= 9
    ensures var box := PixelBudget(width, height);
      var r := ScaleImage(img, box.0, box.1);
      r != img ==> r.width <= CellWidth * width && r.height <= CellHeight * (height - 2)
  {
  }

  /** The cases pinned down by the tool's own tests. */
  lemma ScaleExamples()
    ensures ScaleImage(Decoded(0, 100, 80), 200, 200) == Decoded(0, 100, 80)
    ensures ScaleImage(Decoded(0, 400, 200), 200, 200) == Resampled(Decoded(0, 400, 200), 200, 100)
    ensures ScaleImage(Decoded(0, 200, 400), 200, 200) == Resampled(Decoded(0, 200, 400), 100, 200)
    ensures ScaleImage(Decoded(0, 0, 0), 200, 200) == Decoded(0, 0, 0)
    ensures ScaleImage(Decoded(0, 10000, 5000), 100, 100) == Resampled(Decoded(0, 10000, 5000), 100, 50)
  {
  }
}
