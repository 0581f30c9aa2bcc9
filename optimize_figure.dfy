/**
 * `optimize_figure.py`: crop a figure's whitespace, choose a publication size, and save it with
 * format-specific options. PIL is a parameter: opening yields the image size (or nothing), the
 * difference bounding box is given, and saving either succeeds or fails. Quotients are exact.
 */
module OptimizeFigure {
  import opened Wrappers
  import opened Strings
  import opened Paths
  import opened Numeric

  /** A PIL image size `(width, height)`. */
  datatype Size = Size(width: int, height: int)

  /** Python's `(n // 2) * 2`: the even number at or just below `n`. */
  function EvenFloor(n: int): (e: int)
    ensures e % 2 == 0 && e <= n < e + 2
  {
    (n / 2) * 2
  }

  /** The image exceeds the maxima in some direction. */
  predicate TooLarge(width: int, height: int, maxWidth: int, maxHeight: int)
  {
    width > maxWidth || height > maxHeight
  }

  /** The width is the limiting side: `width / max_width > height / max_height`. */
  predicate WidthLimits(width: int, height: int, maxWidth: int, maxHeight: int)
    requires maxWidth != 0 && maxHeight != 0
  {
    Ratio(width, maxWidth) > Ratio(height, maxHeight)
  }

  /** The image is narrower than 80% of an 8-inch page at the target DPI. */
  predicate BelowPublicationWidth(width: int, dpi: int)
  {
    (width as real) < (8 * dpi) as real * 0.8
  }

  /** The size before even rounding, or `None` for a ZeroDivisionError. */
  function RawOptimalSize(width: int, height: int, maxWidth: int, maxHeight: int, dpi: int): Option<Size>
  {
    if height == 0 then None
    else
      var aspect := Ratio(width, height);
      if TooLarge(width, height, maxWidth, maxHeight) then
        if maxWidth == 0 || maxHeight == 0 then None
        else if WidthLimits(width, height, maxWidth, maxHeight) then
          if width == 0 then None
          else Some(Size(maxWidth, Trunc(maxWidth as real / aspect)))
        else Some(Size(Trunc(maxHeight as real * aspect), maxHeight))
      else if BelowPublicationWidth(width, dpi) then
        if width == 0 then None
        else
          var scale := MinReal(Ratio(8 * dpi, width), 2.0);
          Some(Size(ScaledLength(width, scale), ScaledLength(height, scale)))
      else Some(Size(width, height))
  }

  /**
   * `compute_optimal_size`: shrink an over-large image to fit, enlarge a narrow one by at most a
   * factor of two, and round both dimensions down to even numbers. `None` is the ZeroDivisionError
   * a zero height (or a zero width or maximum, where divided by) raises.
   */
  function ComputeOptimalSize(width: int, height: int, maxWidth: int, maxHeight: int, dpi: int): (r: Option<Size>)
    ensures r.Some? ==> r.value.width % 2 == 0 && r.value.height % 2 == 0
    ensures height == 0 ==> r.None?
  {
    match RawOptimalSize(width, height, maxWidth, maxHeight, dpi)
    case None => None
    case Some(s) => Some(Size(EvenFloor(s.width), EvenFloor(s.height)))
  }

  /** With positive sizes and maxima nothing divides by zero. */
  lemma OptimalSizeDefined(width: int, height: int, maxWidth: int, maxHeight: int, dpi: int)
    requires width > 0 && height > 0 && maxWidth > 0 && maxHeight > 0
    ensures ComputeOptimalSize(width, height, maxWidth, maxHeight, dpi).Some?
  {
  }

  /**
   * An over-large image is shrunk: the limiting side becomes its maximum (rounded to even), the
   * other follows the aspect ratio, and the result fits the maxima without growing either side.
   */
  lemma OptimalSizeFits(width: int, height: int, maxWidth: int, maxHeight: int, dpi: int)
    requires width > 0 && height > 0 && maxWidth > 0 && maxHeight > 0
    requires TooLarge(width, height, maxWidth, maxHeight)
    ensures var r := ComputeOptimalSize(width, height, maxWidth, maxHeight, dpi);
      && r.Some?
      && 0 <= r.value.width <= maxWidth && 0 <= r.value.height <= maxHeight
      && r.value.width <= width && r.value.height <= height
      && (if WidthLimits(width, height, maxWidth, maxHeight)
          then r.value.width == EvenFloor(maxWidth) && r.value.height == EvenFloor(Trunc(Ratio(maxWidth * height, width)))
          else r.value.height == EvenFloor(maxHeight) && r.value.width == EvenFloor(Trunc(Ratio(maxHeight * width, height))))
  {
    CrossRatio(width, maxWidth, height, maxHeight);
    if WidthLimits(width, height, maxWidth, maxHeight) {
      DivRatio(maxWidth, width, height);
      WidthLimitedSide(width, height, maxWidth, maxHeight);
    } else {
      MulRatio(maxHeight, width, height);
      HeightLimitedSide(width, height, maxWidth, maxHeight);
    }
  }

  /** When the width limits, the height `max_width * height / width` is below both `max_height` and `height`. */
  lemma WidthLimitedSide(width: int, height: int, maxWidth: int, maxHeight: int)
    requires width > 0 && height > 0 && maxWidth > 0 && maxHeight > 0
    requires width * maxHeight > height * maxWidth
    requires TooLarge(width, height, maxWidth, maxHeight)
    ensures maxWidth < width
    ensures 0 <= Trunc(Ratio(maxWidth * height, width)) <= maxHeight
    ensures Trunc(Ratio(maxWidth * height, width)) <= height
  {
    LimitingSide(width, height, maxWidth, maxHeight);
    ProductRatioBounds(maxWidth * height, width, maxHeight, height);
  }

  /** When the height limits, the width `max_height * width / height` is below both `max_width` and `width`. */
  lemma HeightLimitedSide(width: int, height: int, maxWidth: int, maxHeight: int)
    requires width > 0 && height > 0 && maxWidth > 0 && maxHeight > 0
    requires width * maxHeight <= height * maxWidth
    requires TooLarge(width, height, maxWidth, maxHeight)
    ensures maxHeight < height
    ensures 0 <= Trunc(Ratio(maxHeight * width, height)) <= maxWidth
    ensures Trunc(Ratio(maxHeight * width, height)) <= width
  {
    LimitingSide(height, width, maxHeight, maxWidth);
    ProductRatioBounds(maxHeight * width, height, maxWidth, width);
  }

  /**
   * The side with the larger overshoot ratio (`a / maxA >= b / maxB`, cross-multiplied) exceeds its
   * maximum, and scaling the other side onto it keeps it within both its maximum and its length.
   */
  lemma LimitingSide(a: int, b: int, maxA: int, maxB: int)
    requires a > 0 && b > 0 && maxA > 0 && maxB > 0
    requires a * maxB >= b * maxA
    requires a > maxA || b > maxB
    ensures maxA < a
    ensures maxA * b <= maxB * a
    ensures maxA * b <= b * a
  {
    if maxA >= a {
      MulLeftMonotone(maxB, a, maxA);
      MulLeftMonotone(maxA, maxB + 1, b);
      assert false;
    }
    MulLeftMonotone(b, maxA, a);
  }

  /** A non-negative ratio `p / q` bounded by `m` and by `n` truncates within both bounds. */
  lemma ProductRatioBounds(p: int, q: int, m: int, n: int)
    requires p >= 0 && q > 0 && m >= 0 && n >= 0
    requires p <= m * q && p <= n * q
    ensures 0 <= Trunc(Ratio(p, q)) <= m && Trunc(Ratio(p, q)) <= n
  {
    RatioAtMost(p, q, m);
    RatioAtMost(p, q, n);
    RatioFacts(q, p);
    TruncAtMost(Ratio(p, q), m);
    TruncAtMost(Ratio(p, q), n);
  }

  /** `a * c <= b * c` for `a <= b` and a positive `c`. */
  lemma MulLeftMonotone(c: int, a: int, b: int)
    requires c > 0 && a <= b
    ensures a * c <= b * c
  {
  }

  /**
   * A narrow image within the maxima is enlarged by `min(8 * dpi / width, 2)`, both sides then
   * rounded down to even: each side at least keeps its length (up to even rounding) and at most doubles.
   */
  lemma UpscaleAtMostDoubles(width: int, height: int, maxWidth: int, maxHeight: int, dpi: int)
    requires width > 0 && height > 0
    requires !TooLarge(width, height, maxWidth, maxHeight) && BelowPublicationWidth(width, dpi)
    ensures var r := ComputeOptimalSize(width, height, maxWidth, maxHeight, dpi);
      var scale := MinReal(Ratio(8 * dpi, width), 2.0);
      && r.Some?
      && r.value == Size(EvenFloor(ScaledLength(width, scale)), EvenFloor(ScaledLength(height, scale)))
      && width - 1 <= r.value.width <= 2 * width
      && height - 1 <= r.value.height <= 2 * height
  {
    var scale := MinReal(Ratio(8 * dpi, width), 2.0);
    assert 1.0 <= scale <= 2.0 by {
      RatioAbove(8 * dpi, width);
    }
    assert RawOptimalSize(width, height, maxWidth, maxHeight, dpi)
      == Some(Size(ScaledLength(width, scale), ScaledLength(height, scale)));
    DoubledAtMost(width, scale);
    DoubledAtMost(height, scale);
  }

  /** `8 * dpi / width` exceeds one for a width below 80% of `8 * dpi`. */
  lemma RatioAbove(pub: int, width: int)
    requires width > 0 && (width as real) < pub as real * 0.8
    ensures Ratio(pub, width) >= 1.0
  {
    assert width < pub;
    CrossRatio(width, 1, pub, width);
    CrossRatio(pub, width, 1, 1);
  }

  /** A length scaled by a factor in `[1, 2]` keeps at least its length and at most doubles. */
  lemma DoubledAtMost(len: int, scale: real)
    requires len >= 0 && 1.0 <= scale <= 2.0
    ensures len <= ScaledLength(len, scale) <= 2 * len
  {
    ScaledLengthAtLeast(len, scale);
    ScaledLengthAtMostDouble(len, scale);
  }

  /** A wide enough image within the maxima keeps its size apart from even rounding. */
  lemma OptimalSizeKept(width: int, height: int, maxWidth: int, maxHeight: int, dpi: int)
    requires height != 0
    requires !TooLarge(width, height, maxWidth, maxHeight) && !BelowPublicationWidth(width, dpi)
    ensures ComputeOptimalSize(width, height, maxWidth, maxHeight, dpi)
      == Some(Size(width - width % 2, height - height % 2))
  {
  }

  /**
   * The enlargement ignores the maxima: a 1500 x 1000 image with 2000-pixel maxima at 300 DPI is
   * enlarged by 1.6 to 2400 x 1600, wider than `max_width`.
   */
  lemma UpscaleIgnoresMaxima()
    ensures ComputeOptimalSize(1500, 1000, 2000, 2000, 300) == Some(Size(2400, 1600))
  {
    assert Ratio(2400, 1500) == 1.6;
    assert ScaledLength(1500, 1.6) == 2400 by {
      TruncWhole(2400);
    }
    assert ScaledLength(1000, 1.6) == 1600 by {
      TruncWhole(1600);
    }
  }

  // ---------------------------------------------------------------- crop_whitespace

  /** A PIL box `(left, upper, right, lower)`. */
  datatype Bounds = Bounds(left: int, upper: int, right: int, lower: int)

  /** The padding `crop_whitespace` keeps around the content. */
  const WhitespacePadding: int := 10

  /** The bounding box grown by `padding` and clamped to the image. */
  function PadBounds(b: Bounds, padding: int, size: Size): Bounds
  {
    Bounds(Max(0, b.left - padding), Max(0, b.upper - padding),
           Min(size.width, b.right + padding), Min(size.height, b.lower + padding))
  }

  /** `crop_whitespace`: the size of the cropped image, or the image unchanged when nothing differs from the background. */
  function CropWhitespace(size: Size, bbox: Option<Bounds>, padding: int): (r: Size)
    ensures bbox.None? ==> r == size
  {
    match bbox
    case None => size
    case Some(b) =>
      var c := PadBounds(b, padding, size);
      Size(c.right - c.left, c.lower - c.upper)
  }

  /** A box of content inside the image. */
  predicate BoundsInside(b: Bounds, size: Size)
  {
    0 <= b.left <= b.right <= size.width && 0 <= b.upper <= b.lower <= size.height
  }

  /** The padded box stays inside the image and keeps the content, so the crop is between the two in size. */
  lemma CropWhitespaceBounds(size: Size, b: Bounds, padding: int)
    requires padding >= 0 && BoundsInside(b, size)
    ensures var c := PadBounds(b, padding, size);
      && BoundsInside(c, size)
      && c.left <= b.left && b.right <= c.right && c.upper <= b.upper && b.lower <= c.lower
    ensures var r := CropWhitespace(size, Some(b), padding);
      && b.right - b.left <= r.width <= size.width
      && b.lower - b.upper <= r.height <= size.height
  {
  }

  // ---------------------------------------------------------------- output and save options

  /** The default output: the input's root, `_optimized`, then its extension. */
  function DefaultOutputPath(input: string): string
  {
    SplitExt(input).0 + "_optimized" + SplitExt(input).1
  }

  /** A falsy `output_path` (missing or empty) selects the default output. */
  function OutputPathFor(input: string, output: Option<string>): string
  {
    if output.None? || output.value == "" then DefaultOutputPath(input) else output.value
  }

  /** The keyword arguments of `img.save`. */
  datatype SaveOptions =
    | JpegSave(quality: int, optimize: bool, progressive: bool)
    | PngSave(optimize: bool)
    | TiffSave(compression: string)
    | PlainSave

  /** The save options chosen by the output's lowercased extension. */
  function SaveOptionsFor(output: string, quality: int): SaveOptions
  {
    var ext := Lower(SplitExt(output).1);
    if ext == ".jpg" || ext == ".jpeg" then JpegSave(quality, true, true)
    else if ext == ".png" then PngSave(true)
    else if ext == ".tif" || ext == ".tiff" then TiffSave("tiff_lzw")
    else PlainSave
  }

  /**
   * The default output keeps the input's extension, so it gets the save options of the input's
   * own format, and it never overwrites the input.
   */
  lemma DefaultOutputKeepsFormat(input: string, quality: int)
    ensures SplitExt(DefaultOutputPath(input)) == (SplitExt(input).0 + "_optimized", SplitExt(input).1)
    ensures SaveOptionsFor(DefaultOutputPath(input), quality) == SaveOptionsFor(input, quality)
    ensures DefaultOutputPath(input) != input
  {
    SplitExtInsert(input, "_optimized");
    SameExtensionSameOptions(DefaultOutputPath(input), input, quality);
    assert |DefaultOutputPath(input)| == |input| + 10 by {
      SplitExtRoundTrip(input);
    }
  }

  /** Save options depend on the extension alone. */
  lemma SameExtensionSameOptions(a: string, b: string, quality: int)
    requires SplitExt(a).1 == SplitExt(b).1
    ensures SaveOptionsFor(a, quality) == SaveOptionsFor(b, quality)
  {
  }

  /** The extension test ignores case: an upper-case `.JPG` is saved as a JPEG. */
  lemma SaveOptionsUpperCase()
    ensures SaveOptionsFor("fig.JPG", 90) == JpegSave(90, true, true)
  {
    RFindAt("fig.JPG", '.', 3);
    RFindAbsent("fig.JPG", '/');
    assert "fig.JPG"[0] != '.';
    assert SplitExt("fig.JPG").1 == ".JPG";
    assert Lower(".JPG") == ".jpg";
  }

  /** `.png` is saved with optimize only. */
  lemma SaveOptionsPng()
    ensures SaveOptionsFor("fig.png", 90) == PngSave(true)
  {
    RFindAt("fig.png", '.', 3);
    RFindAbsent("fig.png", '/');
    assert "fig.png"[0] != '.';
    assert SplitExt("fig.png").1 == ".png";
    assert Lower(".png") == ".png";
  }

  /** `.jpeg` is saved like `.jpg`. */
  lemma SaveOptionsJpeg()
    ensures SaveOptionsFor("fig.jpeg", 75) == JpegSave(75, true, true)
  {
    RFindAt("fig.jpeg", '.', 3);
    RFindAbsent("fig.jpeg", '/');
    assert "fig.jpeg"[0] != '.';
    assert SplitExt("fig.jpeg").1 == ".jpeg";
    assert Lower(".jpeg") == ".jpeg";
  }

  /** An extension outside the table is saved with no options. */
  lemma SaveOptionsOther()
    ensures SaveOptionsFor("fig.svg", 90) == PlainSave
  {
    RFindAt("fig.svg", '.', 3);
    RFindAbsent("fig.svg", '/');
    assert "fig.svg"[0] != '.';
    assert SplitExt("fig.svg").1 == ".svg";
    assert Lower(".svg") == ".svg";
  }

  /** The extension of the last path component decides: `plots.v2/fig.Tiff` is saved with LZW compression. */
  lemma SaveOptionsLastComponent()
    ensures SaveOptionsFor("plots.v2/fig.Tiff", 90) == TiffSave("tiff_lzw")
  {
    RFindAt("plots.v2/fig.Tiff", '.', 12);
    RFindAt("plots.v2/fig.Tiff", '/', 8);
    assert "plots.v2/fig.Tiff"[9] != '.';
    assert SplitExt("plots.v2/fig.Tiff").1 == ".Tiff";
    assert Lower(".Tiff") == ".tiff";
  }

  // ---------------------------------------------------------------- optimize_figure

  /** What one `optimize_figure` call does: its output, the final size, whether it resized, and how it saves. */
  datatype FigureRun = FigureRun(output: string, size: Size, resized: bool, options: SaveOptions)

  /** The image size after the optional whitespace crop. */
  function CurrentSize(loaded: Size, noCrop: bool, bbox: Option<Bounds>): Size
  {
    if noCrop then loaded else CropWhitespace(loaded, bbox, WhitespacePadding)
  }

  /** Both sides hold at least one pixel, as `Image.resize` demands of its target size. */
  predicate NonEmpty(s: Size)
  {
    s.width > 0 && s.height > 0
  }

  /**
   * `optimize_figure`: `None` when opening, the size computation, the resize (to a size with an
   * empty side), the save or the file-size ratio (the input's byte count divides) fails; every
   * exception is caught and turned into `None`.
   */
  function OptimizeFigureRun(input: string, output: Option<string>, dpi: int, quality: int,
                             maxWidth: int, maxHeight: int, noCrop: bool,
                             loaded: Option<Size>, bbox: Option<Bounds>, saved: bool, inputBytes: int): Option<FigureRun>
  {
    var out := OutputPathFor(input, output);
    match loaded
    case None => None
    case Some(s) =>
      var current := CurrentSize(s, noCrop, bbox);
      match ComputeOptimalSize(current.width, current.height, maxWidth, maxHeight, dpi)
      case None => None
      case Some(n) =>
        if n != current && !NonEmpty(n) then None
        else if !saved || inputBytes == 0 then None
        else Some(FigureRun(out, n, n != current, SaveOptionsFor(out, quality)))
  }

  /**
   * A successful run writes to the chosen output with the options of its extension, at the
   * computed (even) size, and resizes exactly when that size differs from the current one.
   */
  lemma OptimizeFigureOutcome(input: string, output: Option<string>, dpi: int, quality: int,
                              maxWidth: int, maxHeight: int, noCrop: bool,
                              loaded: Option<Size>, bbox: Option<Bounds>, saved: bool, inputBytes: int)
    ensures var r := OptimizeFigureRun(input, output, dpi, quality, maxWidth, maxHeight, noCrop, loaded, bbox, saved, inputBytes);
      r.Some? ==>
        && loaded.Some? && saved
        && r.value.output == OutputPathFor(input, output)
        && r.value.options == SaveOptionsFor(r.value.output, quality)
        && r.value.size.width % 2 == 0 && r.value.size.height % 2 == 0
        && var current := CurrentSize(loaded.value, noCrop, bbox);
           Some(r.value.size) == ComputeOptimalSize(current.width, current.height, maxWidth, maxHeight, dpi)
           && (r.value.resized <==> r.value.size != current)
    ensures var r := OptimizeFigureRun(input, output, dpi, quality, maxWidth, maxHeight, noCrop, loaded, bbox, saved, inputBytes);
      r.Some? && (output.None? || output.value == "") ==> r.value.options == SaveOptionsFor(input, quality)
  {
    if output.None? || output.value == "" {
      DefaultOutputKeepsFormat(input, quality);
    }
  }

  /**
   * A loaded image with positive size and maxima that saves is reported as optimised exactly when
   * the computed size keeps at least one pixel on each side; otherwise the resize raises.
   */
  lemma OptimizeFigureSucceeds(input: string, output: Option<string>, dpi: int, quality: int,
                               maxWidth: int, maxHeight: int, noCrop: bool,
                               loaded: Option<Size>, bbox: Option<Bounds>, inputBytes: int)
    requires loaded.Some? && loaded.value.width > 0 && loaded.value.height > 0
    requires bbox.Some? ==> BoundsInside(bbox.value, loaded.value)
    requires bbox.Some? ==> bbox.value.left < bbox.value.right && bbox.value.upper < bbox.value.lower
    requires maxWidth > 0 && maxHeight > 0 && inputBytes != 0
    ensures var current := CurrentSize(loaded.value, noCrop, bbox);
      var n := ComputeOptimalSize(current.width, current.height, maxWidth, maxHeight, dpi);
      && n.Some?
      && (OptimizeFigureRun(input, output, dpi, quality, maxWidth, maxHeight, noCrop, loaded, bbox, true, inputBytes).Some?
          <==> NonEmpty(n.value))
  {
    var s := loaded.value;
    if !noCrop && bbox.Some? {
      CropWhitespaceBounds(s, bbox.value, WhitespacePadding);
    }
    var current := CurrentSize(s, noCrop, bbox);
    assert NonEmpty(current);
    OptimalSizeDefined(current.width, current.height, maxWidth, maxHeight, dpi);
  }

  /** A 4000 x 1 strip scaled to 2000 wide keeps no pixel row, so the resize raises and the run fails. */
  lemma OptimizeThinStripFails(input: string, output: Option<string>, dpi: int, quality: int)
    ensures OptimizeFigureRun(input, output, dpi, quality, 2000, 2000, true, Some(Size(4000, 1)), None, true, 1).None?
  {
    CrossRatio(4000, 2000, 1, 2000);
    DivRatio(2000, 4000, 1);
    assert Ratio(2000 * 1, 4000) == 0.5;
  }
}
