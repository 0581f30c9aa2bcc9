/**
 * `pptx2tif.py`: convert a PowerPoint presentation to one TIF file per slide, with LibreOffice or
 * with python-pptx, optionally crop every result, and do so for every presentation of a directory.
 *
 * The environment is a parameter: which tools are installed, what each presentation file is (its
 * existence, its slide count, and what a LibreOffice run leaves in the temporary directory), the
 * image reads of the cropping step, and the `os.path.abspath` / `os.path.relpath` functions.
 */
module Pptx2Tif {
  import opened Wrappers
  import opened Strings
  import opened Paths
  import opened CropTif

  /** The two converters. */
  datatype Method = LibreOffice | PythonPptx

  /**
   * The exceptions of a conversion: FileNotFoundError for a missing presentation, ImportError for a
   * missing package, RuntimeError for a failed LibreOffice run or when no converter is available,
   * and ValueError for an unknown method name or a missing batch directory.
   */
  datatype ConvertError =
    | PresentationNotFound
    | PackageMissing
    | LibreOfficeFailed
    | NoConversionMethod
    | UnknownMethod
    | DirectoryNotFound

  /** What is installed: LibreOffice, python-pptx, Pillow, and the `crop_tif` module. */
  datatype Tools = Tools(libreOffice: bool, pythonPptx: bool, pillow: bool, cropModule: bool)

  /**
   * One presentation file: whether it exists, its number of slides as python-pptx counts them, and
   * the exit status of LibreOffice and the names it leaves in the temporary directory.
   */
  datatype Presentation = Presentation(present: bool, slides: nat, exitCode: int, generated: seq<string>)

  /** Everything outside the script that a conversion consults. */
  datatype Environment = Environment(
    tools: Tools,
    tempDir: string,
    presentation: string -> Presentation,
    load: string -> ImageRead,
    abspath: string -> string,
    relpath: (string, string) -> string)

  /** The arguments of `convert_pptx_to_tif` that every file of a batch shares. */
  datatype Options = Options(methodName: string, crop: bool, margin: int)

  // ---------------------------------------------------------------- output naming

  /** Slide `i` (counting from 0) of `count` images: `<base>.tif` alone, else `<base>_slide_<i+1>.tif`. */
  function SlideOutputName(base: string, count: nat, i: nat): string
  {
    if count == 1 then base + ".tif" else base + "_slide_" + ShowNat(i + 1) + ".tif"
  }

  /** `os.path.join(output_dir, output_name)` for slide `i`. */
  function SlidePath(dir: string, base: string, count: nat, i: nat): string
  {
    JoinPath(dir, SlideOutputName(base, count, i))
  }

  /** The output list of a conversion: one path per image, in order. */
  function SlidePaths(dir: string, base: string, count: nat): seq<string>
  {
    seq(count, i requires 0 <= i < count => SlidePath(dir, base, count, i))
  }

  /** The naming loop of both converters, appending one output path per image. */
  method SlideOutputs(dir: string, base: string, count: nat) returns (files: seq<string>)
    ensures files == SlidePaths(dir, base, count)
  {
    files := [];
    var i := 0;
    while i < count
      invariant 0 <= i <= count
      invariant |files| == i
      invariant forall k :: 0 <= k < i ==> files[k] == SlidePath(dir, base, count, k)
    {
      files := files + [SlidePath(dir, base, count, i)];
      i := i + 1;
    }
  }

  /** A single image is named after the presentation alone. */
  lemma SingleSlideName(dir: string, base: string)
    ensures SlidePaths(dir, base, 1) == [JoinPath(dir, base + ".tif")]
  {
  }

  /** The middle part of a three-part concatenation. */
  lemma MiddlePart(prefix: string, middle: string, suffix: string)
    ensures var s := prefix + middle + suffix;
      StartsWith(s, prefix) && EndsWith(s, suffix) && s[|prefix|..|s| - |suffix|] == middle
  {
    var s := prefix + middle + suffix;
    assert s[..|prefix|] == prefix;
    assert s[|s| - |suffix|..] == suffix;
    assert s[|prefix|..|s| - |suffix|] == middle;
  }

  /**
   * With several images, each name is `<base>_slide_` and `.tif` around a number that reads back
   * as the slide's position counted from 1.
   */
  lemma SlideNumber(base: string, count: nat, i: nat)
    requires count != 1
    ensures var name := SlideOutputName(base, count, i);
      && StartsWith(name, base + "_slide_") && EndsWith(name, ".tif")
      && |name| > |base| + 11
      && ParseInt(name[|base| + 7..|name| - 4]) == Some(i + 1)
  {
    var digits := ShowNat(i + 1);
    MiddlePart(base + "_slide_", digits, ".tif");
    assert ParseInt(digits) == Some(i + 1) by {
      ParseShowInt(i + 1);
    }
  }

  /** No two images of one conversion get the same name. */
  lemma SlideNamesDistinct(base: string, count: nat, i: nat, j: nat)
    requires i < count && j < count && i != j
    ensures SlideOutputName(base, count, i) != SlideOutputName(base, count, j)
  {
    var a := SlideOutputName(base, count, i);
    var b := SlideOutputName(base, count, j);
    SlideNumber(base, count, i);
    SlideNumber(base, count, j);
    assert ParseInt(a[|base| + 7..|a| - 4]) != ParseInt(b[|base| + 7..|b| - 4]);
  }

  /** `base` plus the slide suffix holds no `/` when `base` holds none. */
  lemma SlideNameHasNoSlash(base: string, count: nat, i: nat)
    requires '/' !in base
    ensures '/' !in SlideOutputName(base, count, i)
  {
    var name := SlideOutputName(base, count, i);
    if count != 1 {
      var digits := ShowNat(i + 1);
      assert name == base + "_slide_" + digits + ".tif";
      forall k | 0 <= k < |name| ensures name[k] != '/' {
        if |base| + 7 <= k < |base| + 7 + |digits| {
          assert name[k] == digits[k - |base| - 7];
        }
      }
    }
  }

  /** The output paths of one conversion are pairwise distinct, one per image. */
  lemma SlidePathsDistinct(dir: string, base: string, count: nat, i: nat, j: nat)
    requires '/' !in base
    requires i < count && j < count && i != j
    ensures SlidePaths(dir, base, count)[i] != SlidePaths(dir, base, count)[j]
  {
    SlideNamesDistinct(base, count, i, j);
    SlideNameHasNoSlash(base, count, i);
    SlideNameHasNoSlash(base, count, j);
    if SlidePath(dir, base, count, i) == SlidePath(dir, base, count, j) {
      JoinPathInjective(dir, SlideOutputName(base, count, i), SlideOutputName(base, count, j));
    }
  }

  /** The base name of a presentation holds no `/`, so the distinctness above applies to it. */
  lemma BaseNameHasNoSlash(path: string)
    ensures '/' !in SplitExt(Basename(path)).0
  {
    BasenameHasNoSlash(path);
    SplitExtRootHasNoSlash(Basename(path));
  }

  // ---------------------------------------------------------------- the two converters

  /** The directory LibreOffice's images go to: the absolute output directory, or the input's. */
  function LibreOfficeDir(input: string, outputDir: Option<string>, abspath: string -> string): string
  {
    abspath(if outputDir.None? then Dirname(abspath(input)) else outputDir.value)
  }

  /** The TIF files LibreOffice left in the temporary directory. */
  function GeneratedTifs(tempDir: string, p: Presentation): seq<string>
  {
    SelectNames(tempDir, p.generated, IsTifName)
  }

  /**
   * `convert_pptx_to_tif_libreoffice`: a missing file fails first; a failed run or a run that
   * leaves no TIF file is re-raised as a RuntimeError; otherwise one output per generated TIF.
   */
  function LibreOfficeConversion(input: string, outputDir: Option<string>, tempDir: string,
                                 p: Presentation, abspath: string -> string): (r: Result<seq<string>, ConvertError>)
    ensures r.Err? <==> !p.present || p.exitCode != 0 || GeneratedTifs(tempDir, p) == []
    ensures r.Err? ==> r.error == (if p.present then LibreOfficeFailed else PresentationNotFound)
    ensures r.Ok? ==> |r.value| == |GeneratedTifs(tempDir, p)|
  {
    if !p.present then Err(PresentationNotFound)
    else if p.exitCode != 0 then Err(LibreOfficeFailed)
    else
      var tifs := GeneratedTifs(tempDir, p);
      if tifs == [] then Err(LibreOfficeFailed)
      else Ok(SlidePaths(LibreOfficeDir(input, outputDir, abspath), SplitExt(Basename(abspath(input))).0, |tifs|))
  }

  /** The LibreOffice converter as the script runs it: collect the TIF files, then name them in turn. */
  method ConvertLibreOffice(input: string, outputDir: Option<string>, tempDir: string,
                            p: Presentation, abspath: string -> string) returns (r: Result<seq<string>, ConvertError>)
    ensures r == LibreOfficeConversion(input, outputDir, tempDir, p, abspath)
  {
    if !p.present {
      return Err(PresentationNotFound);
    }
    var dir := LibreOfficeDir(input, outputDir, abspath);
    var base := SplitExt(Basename(abspath(input))).0;
    if p.exitCode != 0 {
      return Err(LibreOfficeFailed);
    }
    var tifs := CollectMatching(tempDir, false, [], p.generated, IsTifName);
    if tifs == [] {
      return Err(LibreOfficeFailed);
    }
    var files := SlideOutputs(dir, base, |tifs|);
    return Ok(files);
  }

  /** The directory python-pptx's outputs are named in: the output directory as given, or the input's. */
  function PythonDir(input: string, outputDir: Option<string>, abspath: string -> string): string
  {
    if outputDir.None? then Dirname(abspath(input)) else outputDir.value
  }

  /**
   * `convert_pptx_to_tif_python`: both packages must be importable and the file must exist; then
   * one output path per slide.
   */
  function PythonConversion(input: string, outputDir: Option<string>, tools: Tools, p: Presentation,
                            abspath: string -> string): (r: Result<seq<string>, ConvertError>)
    ensures r.Err? <==> !tools.pythonPptx || !tools.pillow || !p.present
    ensures r.Err? ==> r.error == (if tools.pythonPptx && tools.pillow then PresentationNotFound else PackageMissing)
    ensures r.Ok? ==> |r.value| == p.slides
  {
    if !tools.pythonPptx || !tools.pillow then Err(PackageMissing)
    else if !p.present then Err(PresentationNotFound)
    else Ok(SlidePaths(PythonDir(input, outputDir, abspath), SplitExt(Basename(input)).0, p.slides))
  }

  /** The python-pptx converter as the script runs it, naming the slides in turn. */
  method ConvertPython(input: string, outputDir: Option<string>, tools: Tools, p: Presentation,
                       abspath: string -> string) returns (r: Result<seq<string>, ConvertError>)
    ensures r == PythonConversion(input, outputDir, tools, p, abspath)
  {
    if !tools.pythonPptx || !tools.pillow {
      return Err(PackageMissing);
    }
    if !p.present {
      return Err(PresentationNotFound);
    }
    var dir := PythonDir(input, outputDir, abspath);
    var base := SplitExt(Basename(input)).0;
    var files := SlideOutputs(dir, base, p.slides);
    return Ok(files);
  }

  /** The python-pptx path reports exactly one distinct path per slide, in slide order. */
  lemma PythonOnePathPerSlide(input: string, outputDir: Option<string>, tools: Tools, p: Presentation,
                              abspath: string -> string, i: nat, j: nat)
    requires PythonConversion(input, outputDir, tools, p, abspath).Ok?
    ensures var files := PythonConversion(input, outputDir, tools, p, abspath).value;
      && |files| == p.slides
      && (i < p.slides ==> files[i] == JoinPath(PythonDir(input, outputDir, abspath),
                                                SlideOutputName(SplitExt(Basename(input)).0, p.slides, i)))
      && (i < p.slides && j < p.slides && i != j ==> files[i] != files[j])
  {
    if i < p.slides && j < p.slides && i != j {
      BaseNameHasNoSlash(input);
      SlidePathsDistinct(PythonDir(input, outputDir, abspath), SplitExt(Basename(input)).0, p.slides, i, j);
    }
  }

  /** The LibreOffice path names its outputs after the absolute input path, pairwise distinct. */
  lemma LibreOfficeOutputsDistinct(input: string, outputDir: Option<string>, tempDir: string,
                                   p: Presentation, abspath: string -> string, i: nat, j: nat)
    requires LibreOfficeConversion(input, outputDir, tempDir, p, abspath).Ok?
    ensures var files := LibreOfficeConversion(input, outputDir, tempDir, p, abspath).value;
      i < |files| && j < |files| && i != j ==> files[i] != files[j]
  {
    var files := LibreOfficeConversion(input, outputDir, tempDir, p, abspath).value;
    if i < |files| && j < |files| && i != j {
      BaseNameHasNoSlash(abspath(input));
      SlidePathsDistinct(LibreOfficeDir(input, outputDir, abspath), SplitExt(Basename(abspath(input))).0,
                         |GeneratedTifs(tempDir, p)|, i, j);
    }
  }

  // ---------------------------------------------------------------- convert_pptx_to_tif

  /** The converter a method name selects; `auto` prefers LibreOffice, then python-pptx with Pillow. */
  function ChooseMethod(methodName: string, tools: Tools): (r: Result<Method, ConvertError>)
    ensures methodName == "libreoffice" ==> r == Ok(LibreOffice)
    ensures methodName == "python" ==> r == Ok(PythonPptx)
    ensures methodName == "auto" ==>
      r == (if tools.libreOffice then Ok(LibreOffice)
            else if tools.pythonPptx && tools.pillow then Ok(PythonPptx)
            else Err(NoConversionMethod))
    ensures methodName != "auto" && methodName != "libreoffice" && methodName != "python" ==> r == Err(UnknownMethod)
  {
    var resolved :=
      if methodName != "auto" then Ok(methodName)
      else if tools.libreOffice then Ok("libreoffice")
      else if tools.pythonPptx && tools.pillow then Ok("python")
      else Err(NoConversionMethod);
    match resolved
    case Err(e) => Err(e)
    case Ok(m) =>
      if m == "libreoffice" then Ok(LibreOffice)
      else if m == "python" then Ok(PythonPptx)
      else Err(UnknownMethod)
  }

  /** Cropping runs only when asked for and when there is something to crop. */
  predicate ShouldCrop(crop: bool, outputs: seq<string>)
  {
    crop && |outputs| > 0
  }

  /** The `crop_tif` call made on one output: in place (output = input), with the default limits. */
  function InPlaceCrop(tif: string, margin: int, load: string -> ImageRead): CropRun
  {
    CropTifRun(tif, Some(tif), margin, true, DefaultMaxWidth, DefaultMaxHeight, false, load(tif))
  }

  /** `crop_tif`'s default `max_width` and `max_height`, which the in-place crop keeps. */
  const DefaultMaxWidth: int := 2000
  const DefaultMaxHeight: int := 2000

  /** The crops the cropping loop performs, one per output in order; a failure is only reported. */
  function CropRuns(outputs: seq<string>, margin: int, load: string -> ImageRead): seq<CropRun>
  {
    seq(|outputs|, k requires 0 <= k < |outputs| => InPlaceCrop(outputs[k], margin, load))
  }

  /** An in-place crop never lacks an output path and, when it writes, writes back to its own file. */
  lemma InPlaceCropWritesBack(tif: string, margin: int, load: string -> ImageRead)
    ensures var run := InPlaceCrop(tif, margin, load);
      run.raised != Some(OutputPathRequired) && (run.written.Some? ==> run.written.value.0 == tif)
  {
    CropTifNeedsOutput(tif, Some(tif), margin, true, DefaultMaxWidth, DefaultMaxHeight, false, load(tif));
  }

  /** What a conversion produced: the output paths and the crops made on them. */
  datatype Conversion = Conversion(outputs: seq<string>, crops: seq<CropRun>)

  /** `convert_pptx_to_tif`: choose the converter, run it, then crop its outputs when asked to. */
  function ConversionFor(input: string, outputDir: Option<string>, options: Options, env: Environment): Result<Conversion, ConvertError>
  {
    match ConvertedOutputs(input, outputDir, options, env)
    case Err(e) => Err(e)
    case Ok(files) =>
      Ok(Conversion(files, if ShouldCrop(options.crop, files) && env.tools.cropModule
                           then CropRuns(files, options.margin, env.load) else []))
  }

  /** The output list of `convert_pptx_to_tif`, from the converter the method name selects. */
  function ConvertedOutputs(input: string, outputDir: Option<string>, options: Options, env: Environment): Result<seq<string>, ConvertError>
  {
    match ChooseMethod(options.methodName, env.tools)
    case Err(e) => Err(e)
    case Ok(m) =>
      var p := env.presentation(input);
      if m == LibreOffice then LibreOfficeConversion(input, outputDir, env.tempDir, p, env.abspath)
      else PythonConversion(input, outputDir, env.tools, p, env.abspath)
  }

  /** `convert_pptx_to_tif` as the script runs it, with the cropping loop over the outputs. */
  method Convert(input: string, outputDir: Option<string>, options: Options, env: Environment)
    returns (r: Result<Conversion, ConvertError>)
    ensures r == ConversionFor(input, outputDir, options, env)
  {
    var chosen := ChooseMethod(options.methodName, env.tools);
    if chosen.Err? {
      return Err(chosen.error);
    }
    var p := env.presentation(input);
    var converted;
    if chosen.value == LibreOffice {
      converted := ConvertLibreOffice(input, outputDir, env.tempDir, p, env.abspath);
    } else {
      converted := ConvertPython(input, outputDir, env.tools, p, env.abspath);
    }
    if converted.Err? {
      return Err(converted.error);
    }
    var files := converted.value;
    var crops: seq<CropRun> := [];
    if ShouldCrop(options.crop, files) && env.tools.cropModule {
      crops := CropOutputs(files, options.margin, env.load);
    }
    return Ok(Conversion(files, crops));
  }

  /** The cropping loop: each output in turn is cropped in place. */
  method CropOutputs(files: seq<string>, margin: int, load: string -> ImageRead) returns (crops: seq<CropRun>)
    ensures crops == CropRuns(files, margin, load)
  {
    crops := [];
    var i := 0;
    while i < |files|
      invariant 0 <= i <= |files|
      invariant |crops| == i
      invariant forall k :: 0 <= k < i ==> crops[k] == InPlaceCrop(files[k], margin, load)
    {
      crops := crops + [InPlaceCrop(files[i], margin, load)];
      i := i + 1;
    }
  }

  /**
   * The method name decides the converter before anything else is looked at: an unknown name is a
   * ValueError, `auto` with nothing installed a RuntimeError, and otherwise the chosen converter's
   * outcome is the conversion's.
   */
  lemma ConversionDispatch(input: string, outputDir: Option<string>, options: Options, env: Environment)
    ensures var r := ConversionFor(input, outputDir, options, env);
      var p := env.presentation(input);
      var viaLibreOffice := LibreOfficeConversion(input, outputDir, env.tempDir, p, env.abspath);
      var viaPython := PythonConversion(input, outputDir, env.tools, p, env.abspath);
      && (options.methodName !in {"auto", "libreoffice", "python"} ==> r == Err(UnknownMethod))
      && ((options.methodName == "auto" && !env.tools.libreOffice && !(env.tools.pythonPptx && env.tools.pillow))
            ==> r == Err(NoConversionMethod))
      && ((options.methodName == "libreoffice" || (options.methodName == "auto" && env.tools.libreOffice)) ==>
            (r.Ok? <==> viaLibreOffice.Ok?) && (r.Ok? ==> r.value.outputs == viaLibreOffice.value)
            && (r.Err? ==> r.error == viaLibreOffice.error))
      && ((options.methodName == "python"
           || (options.methodName == "auto" && !env.tools.libreOffice && env.tools.pythonPptx && env.tools.pillow)) ==>
            (r.Ok? <==> viaPython.Ok?) && (r.Ok? ==> r.value.outputs == viaPython.value)
            && (r.Err? ==> r.error == viaPython.error))
  {
  }

  /**
   * Cropping happens exactly when it is asked for, there are outputs and `crop_tif` can be
   * imported; then every output is cropped in place, once, in order.
   */
  lemma CropPolicy(input: string, outputDir: Option<string>, options: Options, env: Environment, k: int)
    requires ConversionFor(input, outputDir, options, env).Ok?
    ensures var c := ConversionFor(input, outputDir, options, env).value;
      && (c.crops != [] <==> options.crop && c.outputs != [] && env.tools.cropModule)
      && (c.crops != [] ==> |c.crops| == |c.outputs|)
      && (c.crops != [] && 0 <= k < |c.crops| ==>
            c.crops[k].raised != Some(OutputPathRequired)
            && (c.crops[k].written.Some? ==> c.crops[k].written.value.0 == c.outputs[k]))
  {
    var c := ConversionFor(input, outputDir, options, env).value;
    if c.crops != [] && 0 <= k < |c.crops| {
      assert c.crops[k] == InPlaceCrop(c.outputs[k], options.margin, env.load);
      InPlaceCropWritesBack(c.outputs[k], options.margin, env.load);
    }
  }

  // ---------------------------------------------------------------- batch_convert_pptx_to_tif

  /** `filename.lower().endswith(('.ppt', '.pptx'))`. */
  predicate IsPowerPointName(name: string)
  {
    EndsWith(Lower(name), ".ppt") || EndsWith(Lower(name), ".pptx")
  }

  /** The suffix test ignores case and does not accept other Office formats. */
  lemma PowerPointNameExamples()
    ensures IsPowerPointName("Talk.PPTX") && IsPowerPointName("old.ppt")
    ensures !IsPowerPointName("talk.pptm") && !IsPowerPointName("notes.pdf")
  {
    assert Lower("Talk.PPTX")[4..] == ".pptx";
    assert Lower("old.ppt")[3..] == ".ppt";
    assert Lower("talk.pptm")[8] == 'm';
    assert Lower("notes.pdf")[8] == 'f' && Lower("notes.pdf")[7] == 'd';
  }

  /** The output directory of one presentation: its own directory, or its place under `output_dir`. */
  function FileOutputDir(file: string, directory: string, outputDir: Option<string>,
                         relpath: (string, string) -> string): string
  {
    if outputDir.None? then Dirname(file) else JoinPath(outputDir.value, relpath(Dirname(file), directory))
  }

  /** The paths one file adds to the batch: its outputs, or none when its conversion raised. */
  function FileOutputs(file: string, directory: string, outputDir: Option<string>, options: Options,
                       env: Environment): seq<string>
  {
    match ConvertedOutputs(file, Some(FileOutputDir(file, directory, outputDir, env.relpath)), options, env)
    case Ok(files) => files
    case Err(_) => []
  }

  /** The outputs each file of a batch adds, in file order. */
  function PerFileOutputs(files: seq<string>, directory: string, outputDir: Option<string>, options: Options,
                          env: Environment): seq<seq<string>>
  {
    seq(|files|, k requires 0 <= k < |files| => FileOutputs(files[k], directory, outputDir, options, env))
  }

  /** `all_output_files.extend(...)` over a list of lists. */
  function Flatten(parts: seq<seq<string>>): seq<string>
  {
    if parts == [] then [] else Flatten(parts[..|parts| - 1]) + parts[|parts| - 1]
  }

  /** The paths a batch over `files` reports, file after file. */
  function BatchOutputs(files: seq<string>, directory: string, outputDir: Option<string>, options: Options,
                        env: Environment): seq<string>
  {
    Flatten(PerFileOutputs(files, directory, outputDir, options, env))
  }

  /** Flattening commutes with concatenation. */
  lemma {:induction false} FlattenAppend(xs: seq<seq<string>>, ys: seq<seq<string>>)
    ensures Flatten(xs + ys) == Flatten(xs) + Flatten(ys)
    decreases |ys|
  {
    if ys == [] {
      assert xs + ys == xs;
    } else {
      var init := ys[..|ys| - 1];
      assert (xs + ys)[..|xs + ys| - 1] == xs + init;
      assert (xs + ys)[|xs + ys| - 1] == ys[|ys| - 1];
      FlattenAppend(xs, init);
    }
  }

  /** The per-file outputs of two runs of files are those of the first, then those of the second. */
  lemma PerFileAppend(a: seq<string>, b: seq<string>, directory: string, outputDir: Option<string>,
                      options: Options, env: Environment)
    ensures PerFileOutputs(a + b, directory, outputDir, options, env)
         == PerFileOutputs(a, directory, outputDir, options, env) + PerFileOutputs(b, directory, outputDir, options, env)
  {
    var whole := PerFileOutputs(a + b, directory, outputDir, options, env);
    var left := PerFileOutputs(a, directory, outputDir, options, env);
    var right := PerFileOutputs(b, directory, outputDir, options, env);
    forall k | 0 <= k < |a + b| ensures whole[k] == (left + right)[k] {
      if k < |a| {
        assert (a + b)[k] == a[k];
      } else {
        assert (a + b)[k] == b[k - |a|];
      }
    }
  }

  /** The batch outputs of two runs of files are those of the first followed by those of the second. */
  lemma BatchOutputsAppend(a: seq<string>, b: seq<string>, directory: string,
                           outputDir: Option<string>, options: Options, env: Environment)
    ensures BatchOutputs(a + b, directory, outputDir, options, env)
         == BatchOutputs(a, directory, outputDir, options, env) + BatchOutputs(b, directory, outputDir, options, env)
  {
    PerFileAppend(a, b, directory, outputDir, options, env);
    FlattenAppend(PerFileOutputs(a, directory, outputDir, options, env),
                  PerFileOutputs(b, directory, outputDir, options, env));
  }

  /** One more file adds its own outputs at the end. */
  lemma BatchOutputsSnoc(files: seq<string>, f: string, directory: string, outputDir: Option<string>,
                         options: Options, env: Environment)
    ensures BatchOutputs(files + [f], directory, outputDir, options, env)
         == BatchOutputs(files, directory, outputDir, options, env) + FileOutputs(f, directory, outputDir, options, env)
  {
    var before := PerFileOutputs(files, directory, outputDir, options, env);
    var last := FileOutputs(f, directory, outputDir, options, env);
    PerFileAppend(files, [f], directory, outputDir, options, env);
    assert PerFileOutputs([f], directory, outputDir, options, env) == [last];
    assert (before + [last])[..|before|] == before;
  }

  /** A file whose conversion raises adds nothing; the others add their outputs. */
  lemma BatchSkipsFailures(files: seq<string>, f: string, directory: string, outputDir: Option<string>,
                           options: Options, env: Environment)
    ensures var r := ConversionFor(f, Some(FileOutputDir(f, directory, outputDir, env.relpath)), options, env);
      BatchOutputs(files + [f], directory, outputDir, options, env)
        == BatchOutputs(files, directory, outputDir, options, env) + (if r.Ok? then r.value.outputs else [])
  {
    BatchOutputsSnoc(files, f, directory, outputDir, options, env);
  }

  /** One iteration of the batch loop: convert a file and keep its outputs, or nothing if it raised. */
  method ConvertForBatch(file: string, directory: string, outputDir: Option<string>, options: Options,
                         env: Environment) returns (added: seq<string>)
    ensures added == FileOutputs(file, directory, outputDir, options, env)
  {
    var fileOutputDir := FileOutputDir(file, directory, outputDir, env.relpath);
    var converted := Convert(file, Some(fileOutputDir), options, env);
    added := if converted.Ok? then converted.value.outputs else [];
  }

  /**
   * `batch_convert_pptx_to_tif`: a ValueError unless the directory exists; otherwise the outputs of
   * every PowerPoint file of the directory (or of its whole tree), in turn, skipping the files
   * whose conversion raises.
   */
  method BatchConvert(isDirectory: bool, directory: string, outputDir: Option<string>, options: Options,
                      recursive: bool, walk: seq<(string, seq<string>)>, listing: seq<string>, env: Environment)
    returns (r: Result<seq<string>, ConvertError>)
    ensures !isDirectory ==> r == Err(DirectoryNotFound)
    ensures isDirectory ==>
      r == Ok(BatchOutputs(FilesMatching(directory, recursive, walk, listing, IsPowerPointName),
                           directory, outputDir, options, env))
  {
    if !isDirectory {
      return Err(DirectoryNotFound);
    }
    var files := CollectMatching(directory, recursive, walk, listing, IsPowerPointName);
    if files == [] {
      return Ok([]);
    }
    var all := ConvertAll(files, directory, outputDir, options, env);
    r := Ok(all);
  }

  /** The batch loop: every file in turn, extending the list with the outputs it adds. */
  method ConvertAll(files: seq<string>, directory: string, outputDir: Option<string>, options: Options,
                    env: Environment) returns (all: seq<string>)
    ensures all == BatchOutputs(files, directory, outputDir, options, env)
  {
    all := [];
    var i := 0;
    while i < |files|
      invariant 0 <= i <= |files|
      invariant all == BatchOutputs(files[..i], directory, outputDir, options, env)
    {
      var file := files[i];
      var added := ConvertForBatch(file, directory, outputDir, options, env);
      all := all + added;
      BatchOutputsSnoc(files[..i], file, directory, outputDir, options, env);
      assert files[..i + 1] == files[..i] + [file];
      i := i + 1;
    }
    assert files[..i] == files;
  }

  /** The batch looks only at PowerPoint names of the listing, joined to the directory. */
  lemma BatchSelectsPowerPoint(directory: string, listing: seq<string>, f: string)
    ensures f in FilesMatching(directory, false, [], listing, IsPowerPointName) <==>
      exists k :: SelectedAt(directory, listing, IsPowerPointName, f, k)
  {
    SelectNamesMembers(directory, listing, IsPowerPointName, f);
  }
}
