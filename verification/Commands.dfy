/**
 * The argument vectors handed to the two external programs: Ghostscript, which renders
 * every page of a PDF to a JPEG file, and Tesseract, which writes the text it reads
 * from an image to `<base>.txt`. The executable paths are those of a POSIX system.
 */
module Commands {
  import opened Maybe
  import opened Decimal

  const GS_PROG := "/usr/bin/gs"
  const TESSERACT_PROG := "/usr/bin/tesseract"

  const NO_PAUSE := "-dNOPAUSE"
  const RESOLUTION_FLAG := "-r"
  const JPEG_DEVICE := "-sDEVICE=jpeg"
  const BATCH := "-dBATCH"
  const OUTPUT_FLAG := "-sOutputFile="

  /** `s` starts with `prefix`. */
  predicate StartsWith(s: string, prefix: string) {
    prefix <= s
  }

  /**
   * Ghostscript without pauses, at `dpi` dots per inch, on the JPEG device, in batch
   * mode, writing the pages of `source` to `pattern`.
   */
  function GhostscriptArgv(dpi: int, pattern: string, source: string): (argv: seq<string>)
    ensures |argv| == 7 && argv[0] == GS_PROG && argv[6] == source
  {
    [GS_PROG, NO_PAUSE, RESOLUTION_FLAG + IntToDecimal(dpi), JPEG_DEVICE, BATCH, OUTPUT_FLAG + pattern, source]
  }

  /** What a Ghostscript vector asks for. */
  datatype RasterRequest = RasterRequest(dpi: int, pattern: string, source: string)

  /** Reads a Ghostscript vector of the shape GhostscriptArgv builds, flag by flag. */
  function ParseGhostscriptArgv(argv: seq<string>): Option<RasterRequest> {
    if |argv| != 7 || argv[0] != GS_PROG || argv[1] != NO_PAUSE || argv[3] != JPEG_DEVICE
       || argv[4] != BATCH || !StartsWith(argv[2], RESOLUTION_FLAG) || !StartsWith(argv[5], OUTPUT_FLAG)
    then None
    else
      match ParseInt(argv[2][|RESOLUTION_FLAG|..])
      case None => None
      case Some(dpi) => Some(RasterRequest(dpi, argv[5][|OUTPUT_FLAG|..], argv[6]))
  }

  /**
   * The vector carries the resolution, the output pattern and the source unambiguously,
   * in their fixed positions: reading it back gives exactly what it was built from.
   */
  lemma GhostscriptArgvRoundTrip(dpi: int, pattern: string, source: string)
    ensures ParseGhostscriptArgv(GhostscriptArgv(dpi, pattern, source)) == Some(RasterRequest(dpi, pattern, source))
  {
    var argv := GhostscriptArgv(dpi, pattern, source);
    assert argv[2][|RESOLUTION_FLAG|..] == IntToDecimal(dpi);
    assert argv[5][|OUTPUT_FLAG|..] == pattern;
    IntToDecimalRoundTrip(dpi);
  }

  /** Tesseract reading the image `source` and writing `<base>.txt`. */
  function TesseractArgv(source: string, base: string): seq<string> {
    [TESSERACT_PROG, source, base]
  }

}
