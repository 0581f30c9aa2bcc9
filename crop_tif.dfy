/**
 * `crop_tif.py`: crop a TIF figure to its content area plus a margin, optionally shrink it to fit
 * maximum dimensions, and do so for every TIF file of a directory.
 *
 * OpenCV is a parameter: an image read yields its dimensions (or nothing, when unreadable) and
 * the bounding rectangle of its non-white pixels (or nothing, when there are none). The pixels
 * themselves are not modelled, only the geometry the script computes from them.
 */
module CropTif {
  import opened Wrappers
  import opened Strings
  import opened Paths
  import opened Numeric

  /** An image shape, `img.shape[1]` by `img.shape[0]`. */
  datatype Dims = Dims(width: int, height: int)

  /** A rectangle `(x, y, w, h)` as `cv2.boundingRect` returns it. */
  datatype Box = Box(x: int, y: int, w: int, h: int)

  /** The half-open crop window `[xStart, xEnd) x [yStart, yEnd)`. */
  datatype Window = Window(xStart: int, yStart: int, xEnd: int, yEnd: int)

  /**
   * The exceptions the script raises: ValueError, FileNotFoundError, ZeroDivisionError, and the
   * `cv2.error` OpenCV raises when asked to resize to a size with an empty side or to write an
   * empty image.
   */
  datatype CropError = OutputPathRequired | UnreadableImage | ZeroDivision | OpenCvError | NotADirectory

  /** What OpenCV reports about one file: its dimensions and the box around its content. */
  datatype ImageRead = ImageRead(dims: Option<Dims>, content: Option<Box>)

  predicate ValidDims(d: Dims)
  {
    d.width >= 0 && d.height >= 0
  }

  /** The box lies inside a `width` x `height` image. */
  predicate BoxInside(b: Box, d: Dims)
  {
    0 <= b.x && 0 <= b.y && 0 <= b.w && 0 <= b.h && b.x + b.w <= d.width && b.y + b.h <= d.height
  }

  // ---------------------------------------------------------------- find_content_area

  /** `find_content_area`: the content's bounding box, or the whole image when nothing is drawn. */
  function FindContentArea(read: ImageRead): (r: Result<Box, CropError>)
    ensures r.Err? <==> read.dims.None?
    ensures r.Err? ==> r.error == UnreadableImage
    ensures read.dims.Some? && read.content.Some? ==> r == Ok(read.content.value)
    ensures read.dims.Some? && read.content.None? ==>
      r == Ok(Box(0, 0, read.dims.value.width, read.dims.value.height))
  {
    match read.dims
    case None => Err(UnreadableImage)
    case Some(d) =>
      match read.content
      case Some(b) => Ok(b)
      case None => Ok(Box(0, 0, d.width, d.height))
  }

  /** The fallback box covers exactly the image, so it lies inside it. */
  lemma FallbackInside(d: Dims)
    requires ValidDims(d)
    ensures FindContentArea(ImageRead(Some(d), None)) == Ok(Box(0, 0, d.width, d.height))
    ensures BoxInside(FindContentArea(ImageRead(Some(d), None)).value, d)
  {
  }

  // ---------------------------------------------------------------- the crop window

  /** The content box widened by `margin` on every side and clamped to the image. */
  function CropWindow(b: Box, margin: int, d: Dims): Window
  {
    Window(Max(b.x - margin, 0), Max(b.y - margin, 0),
           Min(b.x + b.w + margin, d.width), Min(b.y + b.h + margin, d.height))
  }

  /** With a non-negative margin the window lies inside the image and contains the content box. */
  lemma CropWindowBounds(b: Box, margin: int, d: Dims)
    requires margin >= 0 && BoxInside(b, d)
    ensures var win := CropWindow(b, margin, d);
      && 0 <= win.xStart <= b.x && b.x + b.w <= win.xEnd <= d.width
      && 0 <= win.yStart <= b.y && b.y + b.h <= win.yEnd <= d.height
    ensures var win := CropWindow(b, margin, d);
      && (win.xStart == 0 || win.xStart == b.x - margin)
      && (win.xEnd == d.width || win.xEnd == b.x + b.w + margin)
      && (win.yStart == 0 || win.yStart == b.y - margin)
      && (win.yEnd == d.height || win.yEnd == b.y + b.h + margin)
  {
  }

  /** A slice bound as Python normalises it: negative bounds count from the end, then clamp to `[0, n]`. */
  function SliceBound(n: int, i: int): int
  {
    if i < 0 then Max(i + n, 0) else Min(i, n)
  }

  /** `len(range(n)[start:end])`: the length of a Python slice of a length-`n` axis. */
  function SliceLength(n: int, start: int, end: int): (len: int)
    ensures 0 <= len && (n >= 0 ==> len <= n)
  {
    var s := SliceBound(n, start);
    var e := SliceBound(n, end);
    if e > s then e - s else 0
  }

  /** The shape of `img[yStart:yEnd, xStart:xEnd]`. */
  function CroppedDims(d: Dims, win: Window): Dims
  {
    Dims(SliceLength(d.width, win.xStart, win.xEnd), SliceLength(d.height, win.yStart, win.yEnd))
  }

  /** The cropped image is exactly `(xEnd - xStart) x (yEnd - yStart)` pixels. */
  lemma CroppedDimsExact(b: Box, margin: int, d: Dims)
    requires margin >= 0 && BoxInside(b, d)
    ensures var win := CropWindow(b, margin, d);
      CroppedDims(d, win) == Dims(win.xEnd - win.xStart, win.yEnd - win.yStart)
  {
    CropWindowBounds(b, margin, d);
  }

  // ---------------------------------------------------------------- resize_image

  /** The image is larger than the limits in some direction. */
  predicate Exceeds(d: Dims, maxWidth: int, maxHeight: int)
  {
    d.width > maxWidth || d.height > maxHeight
  }

  /** Both sides hold at least one pixel. */
  predicate Positive(d: Dims)
  {
    d.width > 0 && d.height > 0
  }

  /** The size `resize_image` computes for an over-large image: both sides scaled by the smaller ratio. */
  function ScaledDims(d: Dims, maxWidth: int, maxHeight: int): Dims
    requires Positive(d)
  {
    var scale := MinReal(Ratio(maxWidth, d.width), Ratio(maxHeight, d.height));
    Dims(ScaledLength(d.width, scale), ScaledLength(d.height, scale))
  }

  /**
   * `resize_image`: the size `cv2.resize` produces, or the input size when it already fits.
   * A zero dimension of an over-large image makes `min(max_width / width, ...)` divide by zero;
   * a scaled size with an empty side makes `cv2.resize` raise.
   */
  function ResizeImage(d: Dims, maxWidth: int, maxHeight: int): (r: Result<Dims, CropError>)
    ensures !Exceeds(d, maxWidth, maxHeight) ==> r == Ok(d)
    ensures r == Err(ZeroDivision) <==> Exceeds(d, maxWidth, maxHeight) && (d.width == 0 || d.height == 0)
    ensures r == Err(OpenCvError) <==>
      Exceeds(d, maxWidth, maxHeight) && d.width != 0 && d.height != 0
      && (Positive(d) ==> !Positive(ScaledDims(d, maxWidth, maxHeight)))
    ensures r.Err? ==> r.error == ZeroDivision || r.error == OpenCvError
    ensures Exceeds(d, maxWidth, maxHeight) && r.Ok? ==> Positive(r.value)
  {
    if Exceeds(d, maxWidth, maxHeight) then
      if d.width == 0 || d.height == 0 then Err(ZeroDivision)
      else if d.width < 0 || d.height < 0 then Err(OpenCvError)
      else
        var n := ScaledDims(d, maxWidth, maxHeight);
        if Positive(n) then Ok(n) else Err(OpenCvError)
    else Ok(d)
  }

  /**
   * An over-large image is scaled by the smaller of the two ratios: both new dimensions fit the
   * limits, neither grows, and the binding dimension lands exactly on its limit.
   */
  lemma ResizeFits(d: Dims, maxWidth: int, maxHeight: int)
    requires Positive(d) && maxWidth >= 0 && maxHeight >= 0
    requires Exceeds(d, maxWidth, maxHeight)
    ensures var n := ScaledDims(d, maxWidth, maxHeight);
      && 0 <= n.width <= maxWidth && 0 <= n.height <= maxHeight
      && n.width <= d.width && n.height <= d.height
      && (n.width == maxWidth || n.height == maxHeight)
  {
    var sw := Ratio(maxWidth, d.width);
    var sh := Ratio(maxHeight, d.height);
    var scale := MinReal(sw, sh);
    RatioFacts(d.width, maxWidth);
    RatioFacts(d.height, maxHeight);
    assert scale <= 1.0;
    ScaledSide(d.width, maxWidth, scale);
    ScaledSide(d.height, maxHeight, scale);
  }

  /**
   * With positive limits, resizing an over-large image succeeds exactly when neither side shrinks
   * below one pixel: each side scaled onto the other side's limit keeps at least a pixel
   * (`height * max_width >= width` and `width * max_height >= height`).
   */
  lemma ResizeNonEmptyIff(d: Dims, maxWidth: int, maxHeight: int)
    requires Positive(d) && maxWidth > 0 && maxHeight > 0
    requires Exceeds(d, maxWidth, maxHeight)
    ensures ResizeImage(d, maxWidth, maxHeight).Ok? <==>
      d.height * maxWidth >= d.width && d.width * maxHeight >= d.height
  {
    if d.height * maxWidth <= d.width * maxHeight {
      ScaledByWidth(d, maxWidth, maxHeight);
      TruncRatioPositive(d.height * maxWidth, d.width);
      MulAtLeastOne(d.height, maxWidth);
    } else {
      ScaledByHeight(d, maxWidth, maxHeight);
      TruncRatioPositive(d.width * maxHeight, d.height);
      MulAtLeastOne(d.width, maxHeight);
    }
  }

  /** When the width ratio is the smaller, the width lands on its limit and the height follows it. */
  lemma ScaledByWidth(d: Dims, maxWidth: int, maxHeight: int)
    requires Positive(d) && d.height * maxWidth <= d.width * maxHeight
    ensures ScaledDims(d, maxWidth, maxHeight) == Dims(maxWidth, Trunc(Ratio(d.height * maxWidth, d.width)))
  {
    CrossRatio(maxWidth, d.width, maxHeight, d.height);
    ScaledLengthExact(d.width, maxWidth);
    MulRatio(d.height, maxWidth, d.width);
  }

  /** When the height ratio is the smaller, the height lands on its limit and the width follows it. */
  lemma ScaledByHeight(d: Dims, maxWidth: int, maxHeight: int)
    requires Positive(d) && d.width * maxHeight <= d.height * maxWidth
    ensures ScaledDims(d, maxWidth, maxHeight) == Dims(Trunc(Ratio(d.width * maxHeight, d.height)), maxHeight)
  {
    CrossRatio(maxHeight, d.height, maxWidth, d.width);
    ScaledLengthExact(d.height, maxHeight);
    MulRatio(d.width, maxHeight, d.height);
  }

  /** A 10000 x 1 strip has no pixel row left at 2000 wide, so `cv2.resize` raises; 4000 x 1000 halves. */
  lemma ResizeExamples()
    ensures ResizeImage(Dims(10000, 1), 2000, 2000) == Err(OpenCvError)
    ensures ResizeImage(Dims(4000, 1000), 2000, 2000) == Ok(Dims(2000, 500))
  {
    ResizeNonEmptyIff(Dims(10000, 1), 2000, 2000);
    ScaledByWidth(Dims(4000, 1000), 2000, 2000);
    assert Ratio(1000 * 2000, 4000) == 500 as real;
    TruncWhole(500);
  }

  /** `int(a / b)` is at least one exactly when `a >= b`. */
  lemma TruncRatioPositive(a: int, b: int)
    requires a >= 0 && b > 0
    ensures Trunc(Ratio(a, b)) >= 1 <==> a >= b
  {
    RatioFacts(b, a);
    if a >= b {
      CrossRatio(1, 1, a, b);
      TruncAtLeast(Ratio(a, b), 1);
    } else {
      RatioBelow(a, b, 1);
    }
  }

  /** A side scaled by at most `limit / len` and at most 1 fits both `limit` and `len`; at exactly `limit / len` it is `limit`. */
  lemma ScaledSide(len: int, limit: int, scale: real)
    requires len > 0 && limit >= 0 && 0.0 <= scale <= 1.0 && scale <= Ratio(limit, len)
    ensures 0 <= ScaledLength(len, scale) <= limit && ScaledLength(len, scale) <= len
    ensures scale == Ratio(limit, len) ==> ScaledLength(len, scale) == limit
  {
    RatioFacts(len, limit);
    MulMonotone(len as real, scale, Ratio(limit, len));
    MulMonotone(len as real, scale, 1.0);
    MulMonotone(len as real, 0.0, scale);
    ScaledLengthWithin(len, scale, limit);
    ScaledLengthWithin(len, scale, len);
    if scale == Ratio(limit, len) {
      ScaledLengthExact(len, limit);
    }
  }

  /** `resize_image` hands back the input size exactly when it is within the limits. */
  lemma ResizeUnchangedIff(d: Dims, maxWidth: int, maxHeight: int)
    requires ValidDims(d)
    ensures ResizeImage(d, maxWidth, maxHeight) == Ok(d) <==> !Exceeds(d, maxWidth, maxHeight)
  {
    if Exceeds(d, maxWidth, maxHeight) && d.width > 0 && d.height > 0 {
      var scale := MinReal(Ratio(maxWidth, d.width), Ratio(maxHeight, d.height));
      if d.width > maxWidth {
        ScaledBelow(d.width, maxWidth, scale);
      } else {
        ScaledBelow(d.height, maxHeight, scale);
      }
    }
  }

  /** Scaling by at most `limit / len`, for a limit below `len`, gives less than `len`. */
  lemma ScaledBelow(len: int, limit: int, scale: real)
    requires len > 0 && limit < len && scale <= Ratio(limit, len)
    ensures ScaledLength(len, scale) < len
  {
    var x := len as real * scale;
    var y := len as real * Ratio(limit, len);
    MulMonotone(len as real, scale, Ratio(limit, len));
    assert x <= y;
    assert y == limit as real;
    assert limit as real <= (len - 1) as real;
    ShrinksBelow(x, len);
  }

  /** A value below a positive whole number truncates below it. */
  lemma ShrinksBelow(x: real, n: int)
    requires n > 0 && x <= (n - 1) as real
    ensures Trunc(x) < n
  {
  }

  // ---------------------------------------------------------------- crop_tif

  /** The output path: the given one, or the input when overwriting; otherwise a ValueError. */
  function ResolveOutput(input: string, output: Option<string>, overwrite: bool): (r: Result<string, CropError>)
    ensures r.Err? <==> output.None? && !overwrite
    ensures r.Err? ==> r.error == OutputPathRequired
    ensures output.Some? ==> r == Ok(output.value)
    ensures output.None? && overwrite ==> r == Ok(input)
  {
    match output
    case Some(p) => Ok(p)
    case None => if overwrite then Ok(input) else Err(OutputPathRequired)
  }

  /** One `crop_tif` call: what it writes (path and final size) and the exception it raises. */
  datatype CropRun = CropRun(written: Option<(string, Dims)>, raised: Option<CropError>)

  /**
   * `crop_tif`: the output path is settled before the image is read; the crop window comes from the
   * content box; the resize (when asked for) follows; the file is written, which `cv2.imwrite`
   * refuses for an empty image; and the final area-reduction ratio divides by the original area.
   */
  function CropTifRun(input: string, output: Option<string>, margin: int, resize: bool,
                      maxWidth: int, maxHeight: int, overwrite: bool, read: ImageRead): CropRun
  {
    match ResolveOutput(input, output, overwrite)
    case Err(e) => CropRun(None, Some(e))
    case Ok(path) =>
      match read.dims
      case None => CropRun(None, Some(UnreadableImage))
      case Some(d) =>
        var cropped := CroppedDims(d, CropWindow(FindContentArea(read).value, margin, d));
        var final := if resize then ResizeImage(cropped, maxWidth, maxHeight) else Ok(cropped);
        match final
        case Err(e) => CropRun(None, Some(e))
        case Ok(f) =>
          if !Positive(f) then CropRun(None, Some(OpenCvError))
          else CropRun(Some((path, f)), if d.width * d.height == 0 then Some(ZeroDivision) else None)
  }

  /** A missing output path without overwrite fails before anything is read or written. */
  lemma CropTifNeedsOutput(input: string, output: Option<string>, margin: int, resize: bool,
                           maxWidth: int, maxHeight: int, overwrite: bool, read: ImageRead)
    ensures var run := CropTifRun(input, output, margin, resize, maxWidth, maxHeight, overwrite, read);
      (run.raised == Some(OutputPathRequired) <==> output.None? && !overwrite)
      && (run.written.Some? ==> run.written.value.0 == (if output.Some? then output.value else input))
      && (read.dims.None? ==> run.written.None?)
  {
  }

  /**
   * A readable, non-empty image whose content box lies inside it is written to the resolved path
   * unless the resize fails, and then `cv2.resize` raised. Without resizing the written size is the
   * clamped window; with resizing it also fits the limits; either way it is not empty.
   */
  lemma CropTifWrites(input: string, output: Option<string>, margin: int, resize: bool,
                      maxWidth: int, maxHeight: int, overwrite: bool, read: ImageRead)
    requires output.Some? || overwrite
    requires read.dims.Some? && read.dims.value.width > 0 && read.dims.value.height > 0
    requires read.content.Some? ==> BoxInside(read.content.value, read.dims.value)
    requires read.content.Some? ==> read.content.value.w > 0 && read.content.value.h > 0
    requires margin >= 0 && maxWidth >= 0 && maxHeight >= 0
    ensures var run := CropTifRun(input, output, margin, resize, maxWidth, maxHeight, overwrite, read);
      var win := CropWindow(FindContentArea(read).value, margin, read.dims.value);
      var cropped := Dims(win.xEnd - win.xStart, win.yEnd - win.yStart);
      && (run.raised.None? <==> run.written.Some?)
      && (run.raised.None? <==> !resize || ResizeImage(cropped, maxWidth, maxHeight).Ok?)
      && (run.raised.Some? ==> run.raised == Some(OpenCvError))
      && (run.written.Some? ==>
            && run.written.value.0 == ResolveOutput(input, output, overwrite).value
            && Positive(run.written.value.1)
            && (!resize ==> run.written.value.1 == cropped)
            && (resize ==> run.written.value.1.width <= maxWidth && run.written.value.1.height <= maxHeight))
  {
    var d := read.dims.value;
    var path := ResolveOutput(input, output, overwrite).value;
    var cropped := CroppedDims(d, CropWindow(FindContentArea(read).value, margin, d));
    CroppedNonEmpty(read, margin);
    var final := if resize then ResizeImage(cropped, maxWidth, maxHeight) else Ok(cropped);
    var run := CropTifRun(input, output, margin, resize, maxWidth, maxHeight, overwrite, read);
    if final.Ok? {
      assert Positive(final.value);
      assert run == CropRun(Some((path, final.value)), None);
      if resize && Exceeds(cropped, maxWidth, maxHeight) {
        ResizeFits(cropped, maxWidth, maxHeight);
      }
    } else {
      assert run == CropRun(None, Some(final.error));
    }
  }

  /** The crop of a readable image around a content box inside it is the whole window and not empty. */
  lemma CroppedNonEmpty(read: ImageRead, margin: int)
    requires read.dims.Some? && read.dims.value.width > 0 && read.dims.value.height > 0
    requires read.content.Some? ==> BoxInside(read.content.value, read.dims.value)
    requires read.content.Some? ==> read.content.value.w > 0 && read.content.value.h > 0
    requires margin >= 0
    ensures var d := read.dims.value;
      var win := CropWindow(FindContentArea(read).value, margin, d);
      && CroppedDims(d, win) == Dims(win.xEnd - win.xStart, win.yEnd - win.yStart)
      && win.xEnd - win.xStart > 0 && win.yEnd - win.yStart > 0
  {
    var d := read.dims.value;
    var b := FindContentArea(read).value;
    if read.content.None? {
      FallbackInside(d);
    }
    CroppedDimsExact(b, margin, d);
    CropWindowBounds(b, margin, d);
  }

  // ---------------------------------------------------------------- batch_crop_tifs

  /** `filename.lower().endswith(('.tif', '.tiff'))`. */
  predicate IsTifName(name: string)
  {
    EndsWith(Lower(name), ".tif") || EndsWith(Lower(name), ".tiff")
  }

  /** The suffix test ignores case. */
  lemma TifNameExamples()
    ensures IsTifName("scan.TIF") && IsTifName("Fig_01.Tiff") && !IsTifName("scan.png") && !IsTifName("tif")
  {
    assert Lower("scan.TIF")[4..] == ".tif";
    assert Lower("Fig_01.Tiff")[6..] == ".tiff";
    assert Lower("scan.png")[5] == 'p' && Lower("scan.png")[3] == 'n';
  }

  /** A truthy `output_directory`: given and non-empty. */
  predicate HasOutputDirectory(outputDirectory: Option<string>)
  {
    outputDirectory.Some? && outputDirectory.value != ""
  }

  /** The output path of one file of the batch; `relpath` is `os.path.relpath`. */
  function BatchOutput(file: string, directory: string, outputDirectory: Option<string>,
                       relpath: (string, string) -> string): string
  {
    if HasOutputDirectory(outputDirectory) then JoinPath(outputDirectory.value, relpath(file, directory))
    else file
  }

  /** One processed file of a batch and the outcome of its `crop_tif` call. */
  datatype BatchItem = BatchItem(file: string, output: string, run: CropRun)

  /** The limits and switches a batch passes to every `crop_tif` call. */
  datatype CropSettings = CropSettings(margin: int, resize: bool, maxWidth: int, maxHeight: int)

  /** The call the batch makes for one file: the output is always given, overwrite iff it is the input. */
  function BatchItemFor(file: string, directory: string, outputDirectory: Option<string>, cfg: CropSettings,
                        relpath: (string, string) -> string, load: string -> ImageRead): BatchItem
  {
    var output := BatchOutput(file, directory, outputDirectory, relpath);
    BatchItem(file, output,
              CropTifRun(file, Some(output), cfg.margin, cfg.resize, cfg.maxWidth, cfg.maxHeight, output == file, load(file)))
  }

  /** A batch never raises the missing-output ValueError, and writes every file to its batch output. */
  lemma BatchItemOutput(file: string, directory: string, outputDirectory: Option<string>, cfg: CropSettings,
                        relpath: (string, string) -> string, load: string -> ImageRead)
    ensures var item := BatchItemFor(file, directory, outputDirectory, cfg, relpath, load);
      && item.run.raised != Some(OutputPathRequired)
      && (item.run.written.Some? ==> item.run.written.value.0 == item.output)
      && (!HasOutputDirectory(outputDirectory) ==> item.output == file)
  {
    var output := BatchOutput(file, directory, outputDirectory, relpath);
    CropTifNeedsOutput(file, Some(output), cfg.margin, cfg.resize, cfg.maxWidth, cfg.maxHeight, output == file, load(file));
  }

  /**
   * `batch_crop_tifs`: a ValueError unless the directory exists; otherwise the TIF files of the
   * directory (or of its whole tree, when recursive), each cropped in turn. A failing file is
   * reported and the run continues.
   */
  method BatchCropTifs(isDirectory: bool, directory: string, outputDirectory: Option<string>, cfg: CropSettings,
                       recursive: bool, walk: seq<(string, seq<string>)>, listing: seq<string>,
                       relpath: (string, string) -> string, load: string -> ImageRead)
    returns (r: Result<seq<BatchItem>, CropError>)
    ensures !isDirectory <==> r.Err?
    ensures r.Err? ==> r.error == NotADirectory
    ensures r.Ok? ==>
      var files := FilesMatching(directory, recursive, walk, listing, IsTifName);
      && |r.value| == |files|
      && forall i :: 0 <= i < |files| ==>
           r.value[i] == BatchItemFor(files[i], directory, outputDirectory, cfg, relpath, load)
  {
    if !isDirectory {
      return Err(NotADirectory);
    }
    var files := CollectMatching(directory, recursive, walk, listing, IsTifName);
    var items: seq<BatchItem> := [];
    var index := 0;
    while index < |files|
      invariant 0 <= index <= |files|
      invariant |items| == index
      invariant forall i :: 0 <= i < index ==>
        items[i] == BatchItemFor(files[i], directory, outputDirectory, cfg, relpath, load)
    {
      var file := files[index];
      var output := if HasOutputDirectory(outputDirectory) then JoinPath(outputDirectory.value, relpath(file, directory)) else file;
      var run := CropTifRun(file, Some(output), cfg.margin, cfg.resize, cfg.maxWidth, cfg.maxHeight, output == file, load(file));
      items := items + [BatchItem(file, output, run)];
      index := index + 1;
    }
    return Ok(items);
  }

  /** The batch processes exactly the TIF names of the listing, joined to the directory. */
  lemma BatchSelectsTifs(directory: string, listing: seq<string>, f: string)
    ensures f in FilesMatching(directory, false, [], listing, IsTifName) <==>
      exists k :: SelectedAt(directory, listing, IsTifName, f, k)
    ensures f in FilesMatching(directory, false, [], listing, IsTifName) && (forall k :: 0 <= k < |listing| ==> '/' !in listing[k]) ==>
      IsTifName(Basename(f))
  {
    SelectNamesMembers(directory, listing, IsTifName, f);
    if f in FilesMatching(directory, false, [], listing, IsTifName) && (forall k :: 0 <= k < |listing| ==> '/' !in listing[k]) {
      var k :| SelectedAt(directory, listing, IsTifName, f, k);
      BasenameJoin(directory, listing[k]);
    }
  }
}
