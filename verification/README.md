# pdf2txt, modelled in Dafny

`pdf2txt.py` turns a tree of PDF files into a tree of text files in two stages. First it
rasterises every PDF under an input directory with Ghostscript, which writes one JPEG per
page into an image tree. Then it runs Tesseract on every JPEG in the image tree, which
writes one text file per page into a text tree. Both output trees mirror the relative
directory structure of their input. In resume mode the first stage is skipped, and so is
every page whose text file already exists and is non-empty.

The model covers the core of that script:

- **PosixPath**: the path helpers the script relies on, with `/` as the only separator:
  `rfind`, `basename`, `dirname`, `splitext` and `join`.
- **Decimal**: the decimal rendering of integers, used for the `-r<dpi>` flag and the
  page numbers, together with a parser that reads it back.
- **PathMapper**: where each file goes.
  - The OCR stage removes the image-directory prefix without regard to case, then the
    leading run of `.`, `|`, `\` and `/`, and mirrors what is left under the text
    directory without its extension.
  - The rasterise stage removes only the leading run, mirrors the path under the image
    directory without its extension, and appends `-%d.jpg`.
- **Commands**: the argument vectors given to Ghostscript and Tesseract. The Ghostscript
  vector comes with a parser that proves it unambiguous.
- **Pipeline**: the resume test, the two per-file stages, file selection from a
  directory walk, and the driver `main`.
  - Everything the script learns from the operating system comes from a `World` value of
    oracle functions: relative paths, directory creation, file sizes, process launches
    and directory walks.
  - A run is the list of per-file steps it takes. Each step records the external call
    made, if any, and what was reported for the file.
- **Scenarios**: worked cases on concrete paths.

Points where the code does something a reader might not expect:

- The image directory is removed as a bare prefix of characters, not as a path component.
  `jpgfoo/x.jpg` with image directory `jpg` is read into `text/foo/x`.
- The prefix is compared with the path after `os.path.relpath`, which normalises it, but
  the image directory is used as typed. With `-j ./jpg` nothing is removed, and the page
  `jpg/in/a/b-1.jpg` is read into `text/jpg/in/a/b-1`. With an absolute image directory
  nothing is removed either, since the relative path does not start with `/`. Any
  leading `../` is then stripped by line 66 of `pdf2txt.py`, and the directories of the absolute path
  appear under the text directory.
- The prefix is removed only on the OCR side. The rasterise side mirrors the input path
  as it is.
- The two external programs report their standard output and standard error separately,
  not as one combined output.
- The resolution is any integer the option parser accepts, not only a positive one.

## Model

| member | source | states |
|---|---|---|
| PosixPath.Basename | pdf2txt.py:68 | the result is the longest suffix of the path without `/`: it has no `/`, ends the path, and is preceded by `/` when shorter than the path |
| PosixPath.Dirname | pdf2txt.py:67 | the result is a prefix of the path, empty exactly when the path has no `/`, either all slashes or not ending in `/`, and only slashes separate it from the basename; a head of slashes only is kept whole |
| PosixPath.Splitext | pdf2txt.py:69 | root and extension concatenate back to the path; a non-empty extension starts with its only dot and holds no `/` |
| PosixPath.SplitextCutsIffExtension | pdf2txt.py:69 | an extension is cut off exactly when the final component has a dot preceded somewhere by a non-dot character |
| PosixPath.SplitextUnderDir | pdf2txt.py:67-69 | splitting `<dir>/<name>` touches only the name, so the mirrored directory survives intact |
| PosixPath.Join | pdf2txt.py:120 | an absolute name is the result; otherwise the result is the directory, a `/` only when the directory is non-empty and does not end in one, and the name; a slash-free name is the basename of the result |
| Decimal.NatToDecimal | pdf2txt.py:94 | the numeral is non-empty, all digits and has no leading zero |
| Decimal.NatToDecimalRoundTrip | pdf2txt.py:94 | reading a page numeral back gives the page number |
| Decimal.IntToDecimal | pdf2txt.py:99 | the rendering is non-empty, signed exactly for negative numbers, otherwise digits, and has no leading zero for either sign |
| Decimal.IntToDecimalRoundTrip | pdf2txt.py:99 | parsing the rendered resolution recovers it |
| Commands.GhostscriptArgv | pdf2txt.py:99 | seven arguments, starting with the Ghostscript executable and ending with the source PDF |
| Commands.GhostscriptArgvRoundTrip | pdf2txt.py:99 | the vector carries resolution, output pattern and source unambiguously: parsing it back returns exactly those |
| PathMapper.MatchLiteralAtStart | pdf2txt.py:65 | the anchored literal match succeeds exactly when the path starts with the image directory up to case |
| PathMapper.StripImageDir | pdf2txt.py:65 | removes exactly the matched prefix when the path starts with the image directory up to case, and otherwise leaves the path unchanged |
| PathMapper.StripLeading | pdf2txt.py:66 | the result ends the input, does not begin with `.`, `\|`, `\` or `/`, and only such characters were removed |
| PathMapper.StripLeadingIdempotent | pdf2txt.py:66 | stripping twice equals stripping once |
| PathMapper.StripLeadingSeparators | pdf2txt.py:66 | a path without a leading stripped character is unchanged, and so it is with one or two slashes in front |
| PathMapper.DirnameOfChild | pdf2txt.py:67-68 | `<d>/<x>` splits back into directory `d` and name `x` |
| PathMapper.TextBase | pdf2txt.py:65-69 | the text base is the mirrored text directory, `/`, and the file name without its final extension |
| PathMapper.TextBaseUnderTextDir | pdf2txt.py:67-69 | every text base lies in `<textdir>/<mirrored dir>/`, with no further `/` after it |
| PathMapper.RasterPattern | pdf2txt.py:91-94 | the pattern is the mirrored image directory, `/`, and the PDF name without extension, followed by `-%d.jpg` |
| PathMapper.RasterPatternOfChild | pdf2txt.py:91-94 | a PDF at `<d>/<x>` gets the pattern `<jpgdir>/<d>/<x without extension>-%d.jpg` |
| PathMapper.PageFile | pdf2txt.py:94 | the page file keeps the pattern's stem, then `-`, a numeral that reads back as the page number, and `.jpg` |
| PathMapper.PageFileLayout | pdf2txt.py:91-94 | page `n` of a PDF at relative path `<d>/<x>` is written to `<jpgdir>/<d>/<x without extension>-<n>.jpg` |
| PathMapper.SplitextJpg | pdf2txt.py:69 | a page image name loses exactly `.jpg` |
| PathMapper.TextBaseOfMirroredImage | pdf2txt.py:65-69 | an image at `<jpgdir>/<d>/<x>` is read into `<textdir>/<d>/<x without extension>` |
| PathMapper.ImageDirIsBarePrefix | pdf2txt.py:65 | an image under a sibling directory `<jpgdir><d>` also loses the image-directory characters and lands in `<textdir>/<d>/` |
| PathMapper.ImageDirMatchedIgnoringCase | pdf2txt.py:65-68 | a directory equal to the image directory up to case is removed, and a file directly under it gets `<textdir>//<stem>` |
| PathMapper.PageName | pdf2txt.py:69 | `<b>-<n>.jpg` has no slash and splits to the stem `<b>-<n>` |
| PathMapper.PageImageMapsToText | pdf2txt.py:65-69 | the page image `<jpgdir>/<d>/<b>-<n>.jpg` is read into `<textdir>/<d>/<b>-<n>` |
| PathMapper.MirroredStem | pdf2txt.py:68-69 | the stem of the final component has no `/`, and starts the path when the path has no directory part |
| PathMapper.MirroredShape | pdf2txt.py:66-69 | after the strip, the mirrored directory neither begins with a stripped character nor ends with `/`, and the stem has no `/` |
| PathMapper.PageFileMapsToText | pdf2txt.py:65-94 | when the page image's path reaches line 65 as written, the two stages agree: page `n` of a PDF at relative path `<d>/<x>` is read into `<textdir>/<d>/<x without extension>-<n>` |
| PathMapper.UnmatchedImageDirKeepsPath | pdf2txt.py:65-69 | a path that does not start with the image directory up to case keeps all its directories: `<d>/<x>` is read into `<textdir>/<d>/<stem of x>` |
| Pipeline.ResumeDecision | pdf2txt.py:74 | OCR is skipped exactly when resuming over a text file that was measured non-empty; an empty file, a failed size probe or resume off all lead to OCR |
| Pipeline.JpgToText | pdf2txt.py:58-82 | Tesseract is called exactly when the text directory is ready and the resume test allows it, with the image and the text base; a normal exit reports Tesseract's `(out, err)`; with no call the reply is the skip message or `("", "ERROR")`; a failed launch gives `("", "ERROR")` |
| Pipeline.OcrOutputUnderTextDir | pdf2txt.py:67-75 | every Tesseract call is on the image itself, and its output base name lies in the mirrored text directory |
| Pipeline.PageImageReadIntoText | pdf2txt.py:62-75 | when `os.path.relpath` returns a page image's path unchanged, Tesseract is called on it with the base `<txtdir>/<d>/<x without extension>-<n>` |
| Pipeline.PdfToJpg | pdf2txt.py:84-105 | Ghostscript is called exactly when the image directory is ready, with the resolution, the page pattern and the PDF; a normal exit reports Ghostscript's `(out, err)`; no call or a failed launch gives `(None, None)` |
| Pipeline.RasterCallCarriesRequest | pdf2txt.py:99 | every Ghostscript call parses back to the configured resolution, the mirrored page pattern and the PDF |
| Pipeline.FilterSuffix | pdf2txt.py:119 | a name is kept exactly when it is listed and ends with the suffix |
| Pipeline.JoinAll | pdf2txt.py:120 | each name is joined to its directory, position by position |
| Pipeline.WalkFiles | pdf2txt.py:118-120 | every selected file ends with the suffix |
| Pipeline.WalkFilesSound | pdf2txt.py:118-120 | every selected file is a matching name listed by the walk, joined to its directory |
| Pipeline.WalkFilesComplete | pdf2txt.py:118-120 | every matching file listed anywhere in the walk is selected |
| Pipeline.ForEachFile | pdf2txt.py:118-122 | one step per file, in order, each a function of its own file and the world's answers, so a failure on one file does not stop the others |
| Pipeline.Main | pdf2txt.py:110-112 | a run is a usage error exactly when the input directory argument is missing, and then its exit code is -1 |
| Pipeline.ResumeNeverRasterises | pdf2txt.py:116-129 | when resuming, there is one step per listed image, each on a `.jpg` file, and no step launches anything but Tesseract |
| Pipeline.RasteriseThenOcr | pdf2txt.py:116-129 | without resume, every PDF is rasterised with Ghostscript in walk order, then every image is read with Tesseract in walk order |
| Pipeline.RasterStepsRunGhostscript | pdf2txt.py:118-121 | each rasterise step is on its own PDF and launches nothing but Ghostscript |
| Pipeline.OcrStepsRunTesseract | pdf2txt.py:125-128 | each OCR step is on its own image and launches nothing but Tesseract |
| Pipeline.EveryPdfIsRasterised | pdf2txt.py:116-121 | without resume, every `.pdf` file listed under the input directory gets its rasterise step |
| Pipeline.EveryImageIsRead | pdf2txt.py:125-128 | resuming or not, every `.jpg` file listed under the image directory gets its OCR step |
| Scenarios.RasterPatternExample | pdf2txt.py:91-94 | `in/a/b.pdf` gets the pattern `jpg/in/a/b-%d.jpg` |
| Scenarios.PageFileExample | pdf2txt.py:94 | page 12 of that pattern is `jpg/in/a/b-12.jpg` |
| Scenarios.PageImageExample | pdf2txt.py:65-69 | `jpg/in/a/b-1.jpg` is read into `text/in/a/b-1` |
| Scenarios.UnalignedImageDir | pdf2txt.py:65 | `jpgfoo/x.jpg` is read into `text/foo/x` |
| Scenarios.CaseFoldedImageDir | pdf2txt.py:65-68 | `JPG/a.jpg` is read into `text//a` |
| Scenarios.DotSlashImageDir | pdf2txt.py:65-69 | with image directory `./jpg`, the normalised page path `jpg/in/a/b-1.jpg` is read into `text/jpg/in/a/b-1` |
| Scenarios.SplitextExamples | pdf2txt.py:69 | `a.b.jpg` splits at its last dot; `.bashrc` and `d.x/readme` have no extension |
| Scenarios.DirnameExamples | pdf2txt.py:67 | the directories of `a//b`, `/b`, `//b` and `b` are `a`, `/`, `//` and the empty string |
| Scenarios.JoinExamples | pdf2txt.py:120 | a separator is inserted only where one is missing |
| Scenarios.JoinEdgeExamples | pdf2txt.py:120 | an empty directory adds nothing, and an absolute name replaces the directory |
| Scenarios.GhostscriptExample | pdf2txt.py:99 | the full Ghostscript vector for 300 dpi over `in/b.pdf` |

## Left out

- `os.path.relpath` and its `splitdrive` fallback (lines 62-64 and 88-90) are the `relpath` oracle of `World`. The model takes whatever relative path it yields.
- `os.path.exists` and `os.makedirs` together are the `dirReady` oracle. The model does not tell an existing directory from a newly created one.
- `os.path.getsize` is the `size` oracle. A failed probe reads as size 0, as `getSize` does.
- `subprocess.Popen` and `communicate` are the `run` oracle.
  - The outputs are strings here, where the source returns bytes.
  - The external programs themselves are not modelled. Tesseract adding `.txt` to its base name is not modelled either.
- `os.walk` is the `pdfTree` and `jpgTree` oracles, each giving the listing as it stands when its stage starts.
  - The order of the walk, its laziness, and which images the rasterise stage added to the image tree are all the oracle's to decide.
- `World` answers every question from one snapshot taken before the run. A size probe therefore never sees a text file written earlier in the same run. Two images can share a text base: `jpg/a.jpg` and `jpg/.a.jpg` both map to `text//a`. Under `--resume` the script runs Tesseract on the first and then skips the second, because line 74 now measures the new text file. The model runs Tesseract on both.
- The Windows branch is not modelled: its executable paths (lines 22-24) and `\` as a separator. The path helpers follow POSIX `posixpath`.
- The case-insensitive match of line 65 folds ASCII letters only. Unicode case folding in regular expressions is not modelled. `re.escape` is modelled by comparing the directory name literally.
- Command-line parsing (lines 33-47) is not modelled. `Options` holds the parsed values, and `DEFAULT_OPTIONS` holds the defaults.
- The following are left out: the `print` and logging output, the banner, the Ctrl+C handler (lines 131-133) and `sys.exit`. The usage error appears as `UsageError(-1)`.
- Commands.TesseractArgv carries no contract of its own. What it builds is stated by Pipeline.JpgToText and Pipeline.OcrOutputUnderTextDir.
- PathMapper.PageFile models how Ghostscript fills the page placeholder. It substitutes only the final `%d`. Other `%` characters in a path, which Ghostscript would also interpret, are not modelled.
