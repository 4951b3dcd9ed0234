/**
 * The two stages and the driver. Everything the converter learns from or does to the
 * outside world is a field of `World`: the relative form of a path, whether an output
 * directory exists or can be created, the size probe of an earlier text file, the outcome
 * of launching an external program and the listings a directory walk yields. A run is
 * then the list of per-file steps it takes, each with the external call it makes (if any)
 * and the pair of outputs it reports.
 */
module Pipeline {
  import opened Maybe
  import opened PosixPath
  import opened Decimal
  import opened PathMapper
  import opened Commands

  /** The run configuration: `-d/--dpi`, `-j/--jpgdir`, `-t/--textdir` and `-r/--resume`. */
  datatype Options = Options(dpi: int, jpgdir: string, txtdir: string, resume: bool)

  const DEFAULT_OPTIONS := Options(400, "jpg", "text", false)

  /** What probing the size of a file gives: its size, or an exception. */
  datatype SizeProbe = Size(bytes: nat) | ProbeFailed

  /** The size of a file, with a failed probe read as 0. */
  function GetSize(probe: SizeProbe): nat {
    match probe
    case Size(n) => n
    case ProbeFailed => 0
  }

  /** The resume test: OCR runs unless resuming and the earlier text file is non-empty. */
  predicate RunsOcr(resume: bool, probe: SizeProbe) {
    GetSize(probe) == 0 || !resume
  }

  /**
   * OCR is skipped exactly when resume is on and the earlier text file was measured
   * non-empty; an empty file, a failed probe or resume off all lead to OCR.
   */
  lemma ResumeDecision(resume: bool, probe: SizeProbe)
    ensures !RunsOcr(resume, probe) <==> resume && probe.Size? && probe.bytes > 0
  {
  }

  const SKIP_MESSAGE := "Resume, file exists, skipped"
  const ERROR_TAG := "ERROR"

  /** Launching an external program: it ran and produced these outputs, or it raised. */
  datatype Launch = Exited(out: string, err: string) | Raised

  /** What a stage reports for a file: a pair of outputs, or `(None, None)`. */
  datatype Reply = Reply(out: string, err: string) | NoReply

  /** One file handled by a stage: the external call made, if any, and the reply. */
  datatype FileStep = FileStep(source: string, call: Option<seq<string>>, reply: Reply)

  /** One directory of a walk: its path and the names of the files in it. */
  datatype Listing = Listing(root: string, filenames: seq<string>)

  datatype World = World(
    relpath: string -> string,          // the path relative to the current directory
    dirReady: string -> bool,           // the directory exists or creating it succeeds
    size: string -> SizeProbe,          // probing the size of a file
    run: seq<string> -> Launch,         // launching a program and collecting its outputs
    pdfTree: string -> seq<Listing>,    // the walk of a tree when rasterising starts
    jpgTree: string -> seq<Listing>)    // the walk of a tree when OCR starts

  /**
   * The OCR stage for one image: mirror its path into `rootdir`, make the directory, then
   * either run Tesseract on it or, when resuming over a non-empty text file, skip it. A
   * failure to make the directory or to launch Tesseract is reported as `("", "ERROR")`.
   */
  function JpgToText(opts: Options, filename: string, rootdir: string, w: World): (r: FileStep)
    ensures r.source == filename && r.reply.Reply?
    ensures var rel := w.relpath(filename);
      r.call.Some? <==> w.dirReady(TextDir(rel, opts.jpgdir, rootdir))
                        && RunsOcr(opts.resume, w.size(TextBase(rel, opts.jpgdir, rootdir) + ".txt"))
    ensures r.call.Some? ==> r.call.value == TesseractArgv(filename, TextBase(w.relpath(filename), opts.jpgdir, rootdir))
    ensures r.call.None? ==>
      r.reply == if w.dirReady(TextDir(w.relpath(filename), opts.jpgdir, rootdir)) then Reply(SKIP_MESSAGE, "") else Reply("", ERROR_TAG)
    ensures r.call.Some? && w.run(r.call.value).Raised? ==> r.reply == Reply("", ERROR_TAG)
    ensures r.call.Some? && w.run(r.call.value).Exited? ==> r.reply == Reply(w.run(r.call.value).out, w.run(r.call.value).err)
  {
    var rel := w.relpath(filename);
    var extdir := TextDir(rel, opts.jpgdir, rootdir);
    var fname := TextBase(rel, opts.jpgdir, rootdir);
    if !w.dirReady(extdir) then
      FileStep(filename, None, Reply("", ERROR_TAG))
    else if RunsOcr(opts.resume, w.size(fname + ".txt")) then
      var argv := TesseractArgv(filename, fname);
      var reply := match w.run(argv)
        case Exited(out, err) => Reply(out, err)
        case Raised => Reply("", ERROR_TAG);
      FileStep(filename, Some(argv), reply)
    else
      FileStep(filename, None, Reply(SKIP_MESSAGE, ""))
  }

  /**
   * Tesseract is always given the image itself and a base name inside the mirrored
   * directory of the text tree, with no slash after that directory.
   */
  lemma OcrOutputUnderTextDir(opts: Options, filename: string, rootdir: string, w: World)
    ensures var r := JpgToText(opts, filename, rootdir, w);
      var prefix := rootdir + "/" + Dirname(TextRel(w.relpath(filename), opts.jpgdir)) + "/";
      r.call.Some? ==>
        |r.call.value| == 3 && r.call.value[0] == TESSERACT_PROG && r.call.value[1] == filename
        && StartsWith(r.call.value[2], prefix) && '/' !in r.call.value[2][|prefix|..]
  {
    TextBaseUnderTextDir(w.relpath(filename), opts.jpgdir, rootdir);
  }

  /**
   * An image Ghostscript wrote for page `page` of a PDF, when `os.path.relpath` hands its
   * path back unchanged, is read by Tesseract into the mirrored text path
   * `<txtdir>/<mirrored dir>/<pdf name without extension>-<page>`.
   */
  lemma PageImageReadIntoText(opts: Options, relpath: string, page: nat, w: World)
    requires w.relpath(PageFile(RasterPattern(relpath, opts.jpgdir), page)) == PageFile(RasterPattern(relpath, opts.jpgdir), page)
    ensures var f, rel := PageFile(RasterPattern(relpath, opts.jpgdir), page), RasterRel(relpath);
      var r := JpgToText(opts, f, opts.txtdir, w);
      r.call.Some? ==>
        r.call.value == TesseractArgv(f, opts.txtdir + "/" + Dirname(rel) + "/" + Splitext(Basename(rel)).0 + "-" + NatToDecimal(page))
  {
    PageFileMapsToText(relpath, opts.jpgdir, opts.txtdir, page);
  }

  /**
   * The rasterise stage for one PDF: mirror its path into `rootdir`, make the directory
   * and run Ghostscript with the page pattern. A failure to make the directory or to
   * launch Ghostscript is reported as `(None, None)`.
   */
  function PdfToJpg(filename: string, rootdir: string, dpi: int, w: World): (r: FileStep)
    ensures r.source == filename
    ensures r.call.Some? <==> w.dirReady(RasterDir(w.relpath(filename), rootdir))
    ensures r.call.Some? ==> r.call.value == GhostscriptArgv(dpi, RasterPattern(w.relpath(filename), rootdir), filename)
    ensures r.call.None? || w.run(r.call.value).Raised? ==> r.reply == NoReply
    ensures r.call.Some? && w.run(r.call.value).Exited? ==> r.reply == Reply(w.run(r.call.value).out, w.run(r.call.value).err)
  {
    var rel := w.relpath(filename);
    if !w.dirReady(RasterDir(rel, rootdir)) then
      FileStep(filename, None, NoReply)
    else
      var argv := GhostscriptArgv(dpi, RasterPattern(rel, rootdir), filename);
      var reply := match w.run(argv)
        case Exited(out, err) => Reply(out, err)
        case Raised => NoReply;
      FileStep(filename, Some(argv), reply)
  }

  /**
   * Ghostscript is asked for exactly the configured resolution, writes to the page
   * pattern of the mirrored path, and reads the PDF itself.
   */
  lemma RasterCallCarriesRequest(filename: string, rootdir: string, dpi: int, w: World)
    ensures var r := PdfToJpg(filename, rootdir, dpi, w);
      r.call.Some? ==>
        ParseGhostscriptArgv(r.call.value) == Some(RasterRequest(dpi, RasterPattern(w.relpath(filename), rootdir), filename))
  {
    GhostscriptArgvRoundTrip(dpi, RasterPattern(w.relpath(filename), rootdir), filename);
  }

  /** The names that match `*<suffix>`, in their order (POSIX `fnmatch.filter`, case-sensitive). */
  function FilterSuffix(names: seq<string>, suffix: string): (r: seq<string>)
    ensures forall x :: x in r <==> x in names && EndsWith(x, suffix)
  {
    if names == [] then []
    else (if EndsWith(names[0], suffix) then [names[0]] else []) + FilterSuffix(names[1..], suffix)
  }

  /** A suffix of a suffix is a suffix. */
  lemma EndsWithTransitive(s: string, t: string, u: string)
    requires EndsWith(s, t) && EndsWith(t, u)
    ensures EndsWith(s, u)
  {
    assert s[|s| - |u|..] == s[|s| - |t|..][|t| - |u|..];
  }

  /** Joins each name to its directory. */
  function JoinAll(root: string, names: seq<string>): (r: seq<string>)
    ensures |r| == |names|
    ensures forall i :: 0 <= i < |names| ==> r[i] == Join(root, names[i])
  {
    if names == [] then [] else [Join(root, names[0])] + JoinAll(root, names[1..])
  }

  /** Joining names that end with a suffix to a directory keeps the suffix. */
  lemma JoinAllKeepsSuffix(root: string, names: seq<string>, suffix: string)
    requires forall x :: x in names ==> EndsWith(x, suffix)
    ensures forall f :: f in JoinAll(root, names) ==> EndsWith(f, suffix)
  {
    var joined := JoinAll(root, names);
    forall f | f in joined ensures EndsWith(f, suffix) {
      var i :| 0 <= i < |joined| && joined[i] == f;
      assert names[i] in names;
      EndsWithTransitive(f, names[i], suffix);
    }
  }

  /** The two nested loops over a walk: the joined paths of the files matching `*<suffix>`. */
  function WalkFiles(walk: seq<Listing>, suffix: string): (files: seq<string>)
    ensures forall f :: f in files ==> EndsWith(f, suffix)
  {
    if walk == [] then []
    else
      var here := JoinAll(walk[0].root, FilterSuffix(walk[0].filenames, suffix));
      JoinAllKeepsSuffix(walk[0].root, FilterSuffix(walk[0].filenames, suffix), suffix);
      here + WalkFiles(walk[1..], suffix)
  }

  /** Every selected file is a matching name listed by the walk, joined to its directory. */
  lemma {:induction false} WalkFilesSound(walk: seq<Listing>, suffix: string, f: string)
    requires f in WalkFiles(walk, suffix)
    ensures exists k, j ::
              0 <= k < |walk| && 0 <= j < |walk[k].filenames|
              && EndsWith(walk[k].filenames[j], suffix) && f == Join(walk[k].root, walk[k].filenames[j])
  {
    var names := FilterSuffix(walk[0].filenames, suffix);
    var here := JoinAll(walk[0].root, names);
    assert WalkFiles(walk, suffix) == here + WalkFiles(walk[1..], suffix);
    if f in here {
      var i :| 0 <= i < |here| && here[i] == f;
      assert names[i] in names;
      var j :| 0 <= j < |walk[0].filenames| && walk[0].filenames[j] == names[i];
      assert EndsWith(walk[0].filenames[j], suffix) && f == Join(walk[0].root, walk[0].filenames[j]);
    } else {
      WalkFilesSound(walk[1..], suffix, f);
      var k, j :| 0 <= k < |walk[1..]| && 0 <= j < |walk[1..][k].filenames|
        && EndsWith(walk[1..][k].filenames[j], suffix) && f == Join(walk[1..][k].root, walk[1..][k].filenames[j]);
      assert walk[1..][k] == walk[k + 1];
    }
  }

  /** The membership form of WalkFiles' contract, by position. */
  lemma WalkFilesSuffix(walk: seq<Listing>, suffix: string)
    ensures forall i :: 0 <= i < |WalkFiles(walk, suffix)| ==> EndsWith(WalkFiles(walk, suffix)[i], suffix)
  {
    var files := WalkFiles(walk, suffix);
    forall i | 0 <= i < |files| ensures EndsWith(files[i], suffix) {
      assert files[i] in files;
    }
  }

  /** Every matching file a walk lists is selected. */
  lemma {:induction false} WalkFilesComplete(walk: seq<Listing>, suffix: string, k: int, j: int)
    requires 0 <= k < |walk| && 0 <= j < |walk[k].filenames|
    requires EndsWith(walk[k].filenames[j], suffix)
    ensures Join(walk[k].root, walk[k].filenames[j]) in WalkFiles(walk, suffix)
  {
    if k == 0 {
      var names := FilterSuffix(walk[0].filenames, suffix);
      assert walk[0].filenames[j] in names;
      var i :| 0 <= i < |names| && names[i] == walk[0].filenames[j];
      assert JoinAll(walk[0].root, names)[i] == Join(walk[0].root, walk[0].filenames[j]);
    } else {
      WalkFilesComplete(walk[1..], suffix, k - 1, j);
    }
  }

  /** When the step launches a program, that program is `prog`. */
  predicate Launches(step: FileStep, prog: string) {
    step.call.Some? ==> |step.call.value| > 0 && step.call.value[0] == prog
  }

  /** A stage's loop: one step per file, in order, each depending only on its own file. */
  function ForEachFile(files: seq<string>, step: string -> FileStep): (steps: seq<FileStep>)
    ensures |steps| == |files|
    ensures forall i :: 0 <= i < |files| ==> steps[i] == step(files[i])
  {
    if files == [] then [] else ForEachFile(files[..|files| - 1], step) + [step(files[|files| - 1])]
  }

  /** The rasterise loop over the PDFs, into the image directory. */
  function RasterStage(pdfs: seq<string>, opts: Options, w: World): seq<FileStep> {
    ForEachFile(pdfs, pdf => PdfToJpg(pdf, opts.jpgdir, opts.dpi, w))
  }

  /** The OCR loop over the images, into the text directory. */
  function OcrStage(jpgs: seq<string>, opts: Options, w: World): seq<FileStep> {
    ForEachFile(jpgs, jpg => JpgToText(opts, jpg, opts.txtdir, w))
  }

  const USAGE_EXIT := -1
  const PDF_SUFFIX := ".pdf"
  const JPG_SUFFIX := ".jpg"

  /** How a run ends: a usage error with its exit code, or the steps taken. */
  datatype RunResult = UsageError(code: int) | Finished(steps: seq<FileStep>)

  /** The PDFs found under the input directory `args[1]`. */
  function PdfInputs(args: seq<string>, w: World): seq<string>
    requires |args| >= 2
  {
    WalkFiles(w.pdfTree(args[1]), PDF_SUFFIX)
  }

  /** The page images found under the image directory. */
  function JpgInputs(opts: Options, w: World): seq<string> {
    WalkFiles(w.jpgTree(opts.jpgdir), JPG_SUFFIX)
  }

  /**
   * The driver: without an input directory argument, a usage error with exit code -1;
   * otherwise, unless resuming, rasterise every PDF under it, then OCR every image under
   * the image directory.
   */
  function Main(opts: Options, args: seq<string>, w: World): (r: RunResult)
    ensures r.UsageError? <==> |args| < 2
    ensures r.UsageError? ==> r.code == -1
  {
    if |args| < 2 then UsageError(USAGE_EXIT)
    else
      var raster := if opts.resume then [] else RasterStage(PdfInputs(args, w), opts, w);
      Finished(raster + OcrStage(JpgInputs(opts, w), opts, w))
  }

  /** When resuming, no step runs Ghostscript: each image gets one OCR step and that is all. */
  lemma ResumeNeverRasterises(opts: Options, args: seq<string>, w: World)
    requires |args| >= 2 && opts.resume
    ensures var steps := Main(opts, args, w).steps;
      |steps| == |JpgInputs(opts, w)|
      && forall i :: 0 <= i < |steps| ==>
           EndsWith(steps[i].source, JPG_SUFFIX) && Launches(steps[i], TESSERACT_PROG)
  {
    var jpgs := JpgInputs(opts, w);
    var steps := Main(opts, args, w).steps;
    MainSteps(opts, args, w);
    assert steps == [] + OcrStage(jpgs, opts, w);
    forall i | 0 <= i < |steps|
      ensures EndsWith(steps[i].source, JPG_SUFFIX) && Launches(steps[i], TESSERACT_PROG)
    {
      OcrStageAt(jpgs, opts, w, i);
      IndexAfter([], OcrStage(jpgs, opts, w), i);
      assert jpgs[i] in jpgs;
    }
  }

  /**
   * `steps` is one Ghostscript step per PDF, in order, followed by one Tesseract step per
   * image, in order; the PDFs are `.pdf` files and the images `.jpg` files.
   */
  predicate RasteriseThenRead(steps: seq<FileStep>, pdfs: seq<string>, jpgs: seq<string>) {
    |steps| == |pdfs| + |jpgs|
    && (forall i :: 0 <= i < |pdfs| ==>
          steps[i].source == pdfs[i] && EndsWith(pdfs[i], PDF_SUFFIX) && Launches(steps[i], GS_PROG))
    && (forall i :: 0 <= i < |jpgs| ==>
          steps[|pdfs| + i].source == jpgs[i] && EndsWith(jpgs[i], JPG_SUFFIX)
          && Launches(steps[|pdfs| + i], TESSERACT_PROG))
  }

  /**
   * Without resume, every PDF is rasterised first, in walk order, and then every image is
   * read, in walk order.
   */
  lemma RasteriseThenOcr(opts: Options, args: seq<string>, w: World)
    requires |args| >= 2 && !opts.resume
    ensures RasteriseThenRead(Main(opts, args, w).steps, PdfInputs(args, w), JpgInputs(opts, w))
  {
    var pdfs, jpgs := PdfInputs(args, w), JpgInputs(opts, w);
    var raster, ocr := RasterStage(pdfs, opts, w), OcrStage(jpgs, opts, w);
    MainSteps(opts, args, w);
    RasterStepsRunGhostscript(pdfs, opts, w);
    OcrStepsRunTesseract(jpgs, opts, w);
    WalkFilesSuffix(w.pdfTree(args[1]), PDF_SUFFIX);
    WalkFilesSuffix(w.jpgTree(opts.jpgdir), JPG_SUFFIX);
    StagesInOrder(raster, ocr, pdfs, jpgs);
  }

  /** Putting the two stages one after the other keeps each step at its file's position. */
  lemma StagesInOrder(raster: seq<FileStep>, ocr: seq<FileStep>, pdfs: seq<string>, jpgs: seq<string>)
    requires |raster| == |pdfs| && |ocr| == |jpgs|
    requires forall i :: 0 <= i < |pdfs| ==>
      raster[i].source == pdfs[i] && EndsWith(pdfs[i], PDF_SUFFIX) && Launches(raster[i], GS_PROG)
    requires forall i :: 0 <= i < |jpgs| ==>
      ocr[i].source == jpgs[i] && EndsWith(jpgs[i], JPG_SUFFIX) && Launches(ocr[i], TESSERACT_PROG)
    ensures RasteriseThenRead(raster + ocr, pdfs, jpgs)
  {
    forall i | 0 <= i < |jpgs| ensures (raster + ocr)[|pdfs| + i] == ocr[i] {
      IndexAfter(raster, ocr, i);
    }
  }

  /** Each rasterise step reads its own PDF and, when it calls anything, calls Ghostscript. */
  lemma RasterStepsRunGhostscript(pdfs: seq<string>, opts: Options, w: World)
    ensures var raster := RasterStage(pdfs, opts, w);
      |raster| == |pdfs|
      && forall i :: 0 <= i < |pdfs| ==>
           raster[i].source == pdfs[i] && Launches(raster[i], GS_PROG)
  {
    forall i | 0 <= i < |pdfs|
      ensures RasterStage(pdfs, opts, w)[i].source == pdfs[i]
              && Launches(RasterStage(pdfs, opts, w)[i], GS_PROG)
    {
      RasterStageAt(pdfs, opts, w, i);
    }
  }

  /** Each OCR step reads its own image and, when it calls anything, calls Tesseract. */
  lemma OcrStepsRunTesseract(jpgs: seq<string>, opts: Options, w: World)
    ensures var ocr := OcrStage(jpgs, opts, w);
      |ocr| == |jpgs|
      && forall i :: 0 <= i < |jpgs| ==>
           ocr[i].source == jpgs[i] && Launches(ocr[i], TESSERACT_PROG)
  {
    forall i | 0 <= i < |jpgs|
      ensures OcrStage(jpgs, opts, w)[i].source == jpgs[i]
              && Launches(OcrStage(jpgs, opts, w)[i], TESSERACT_PROG)
    {
      OcrStageAt(jpgs, opts, w, i);
    }
  }

  /** Every `.jpg` file listed under the image directory gets an OCR step, resume or not. */
  lemma EveryImageIsRead(opts: Options, args: seq<string>, w: World, k: int, j: int)
    requires |args| >= 2
    requires var walk := w.jpgTree(opts.jpgdir);
      0 <= k < |walk| && 0 <= j < |walk[k].filenames| && EndsWith(walk[k].filenames[j], JPG_SUFFIX)
    ensures var walk, steps := w.jpgTree(opts.jpgdir), Main(opts, args, w).steps;
      exists i :: 0 <= i < |steps| && steps[i] == JpgToText(opts, Join(walk[k].root, walk[k].filenames[j]), opts.txtdir, w)
  {
    var walk := w.jpgTree(opts.jpgdir);
    var file := Join(walk[k].root, walk[k].filenames[j]);
    WalkFilesComplete(walk, JPG_SUFFIX, k, j);
    var jpgs := JpgInputs(opts, w);
    var n :| 0 <= n < |jpgs| && jpgs[n] == file;
    var raster := if opts.resume then [] else RasterStage(PdfInputs(args, w), opts, w);
    var ocr := OcrStage(jpgs, opts, w);
    MainSteps(opts, args, w);
    OcrStageAt(jpgs, opts, w, n);
    IndexAfter(raster, ocr, n);
  }

  /** A run that gets past the argument check is the rasterise steps, if any, then the OCR steps. */
  lemma MainSteps(opts: Options, args: seq<string>, w: World)
    requires |args| >= 2
    ensures Main(opts, args, w).steps
      == (if opts.resume then [] else RasterStage(PdfInputs(args, w), opts, w)) + OcrStage(JpgInputs(opts, w), opts, w)
  {
  }

  lemma OcrStageAt(jpgs: seq<string>, opts: Options, w: World, n: int)
    requires 0 <= n < |jpgs|
    ensures |OcrStage(jpgs, opts, w)| == |jpgs| && OcrStage(jpgs, opts, w)[n] == JpgToText(opts, jpgs[n], opts.txtdir, w)
  {
  }

  lemma RasterStageAt(pdfs: seq<string>, opts: Options, w: World, n: int)
    requires 0 <= n < |pdfs|
    ensures |RasterStage(pdfs, opts, w)| == |pdfs| && RasterStage(pdfs, opts, w)[n] == PdfToJpg(pdfs[n], opts.jpgdir, opts.dpi, w)
  {
  }

  lemma IndexAfter(xs: seq<FileStep>, ys: seq<FileStep>, n: int)
    requires 0 <= n < |ys|
    ensures 0 <= |xs| + n < |xs + ys| && (xs + ys)[|xs| + n] == ys[n]
  {
  }

  /** Without resume, every `.pdf` file listed under the input directory gets a rasterise step. */
  lemma EveryPdfIsRasterised(opts: Options, args: seq<string>, w: World, k: int, j: int)
    requires |args| >= 2 && !opts.resume
    requires var walk := w.pdfTree(args[1]);
      0 <= k < |walk| && 0 <= j < |walk[k].filenames| && EndsWith(walk[k].filenames[j], PDF_SUFFIX)
    ensures var walk, steps := w.pdfTree(args[1]), Main(opts, args, w).steps;
      exists i :: 0 <= i < |steps| && steps[i] == PdfToJpg(Join(walk[k].root, walk[k].filenames[j]), opts.jpgdir, opts.dpi, w)
  {
    var walk := w.pdfTree(args[1]);
    var file := Join(walk[k].root, walk[k].filenames[j]);
    WalkFilesComplete(walk, PDF_SUFFIX, k, j);
    var pdfs := PdfInputs(args, w);
    var n :| 0 <= n < |pdfs| && pdfs[n] == file;
    MainSteps(opts, args, w);
    RasterStageAt(pdfs, opts, w, n);
    var steps := Main(opts, args, w).steps;
    assert steps == RasterStage(pdfs, opts, w) + OcrStage(JpgInputs(opts, w), opts, w);
    assert steps[n] == RasterStage(pdfs, opts, w)[n];
  }

}

