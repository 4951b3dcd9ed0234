/**
 * Where each converted file goes. A source path, already made relative to the current
 * directory, is mirrored under an output root: the rasterise stage maps `x/y/doc.pdf`
 * to the page pattern `<jpgdir>/x/y/doc-%d.jpg`, and the OCR stage maps a page image
 * `<jpgdir>/x/y/doc-1.jpg` back out of the image tree to the text base name
 * `<textdir>/x/y/doc-1` (the OCR engine adds `.txt` itself).
 */
module PathMapper {
  import opened PosixPath
  import opened Decimal

  /** ASCII-only case folding: `A`..`Z` become `a`..`z`, everything else is unchanged. */
  function FoldCase(c: char): char {
    if 'A' <= c <= 'Z' then (c as int - 'A' as int + 'a' as int) as char else c
  }

  /** `s` begins with `prefix` when letters are compared without regard to case. */
  predicate StartsWithIgnoringCase(s: string, prefix: string) {
    |prefix| <= |s| && forall i :: 0 <= i < |prefix| ==> FoldCase(s[i]) == FoldCase(prefix[i])
  }

  /**
   * Matches the anchored, escaped literal `^<lit>` against the start of `s` character
   * by character, as the case-insensitive regular expression does.
   */
  function MatchLiteralAtStart(s: string, lit: string): (m: bool)
    ensures m <==> StartsWithIgnoringCase(s, lit)
  {
    if lit == [] then true
    else if s == [] then false
    else if FoldCase(s[0]) != FoldCase(lit[0]) then false
    else
      var m := MatchLiteralAtStart(s[1..], lit[1..]);
      assert StartsWithIgnoringCase(s, lit) <==> StartsWithIgnoringCase(s[1..], lit[1..]) by {
        if StartsWithIgnoringCase(s[1..], lit[1..]) {
          forall i | 0 <= i < |lit| ensures FoldCase(s[i]) == FoldCase(lit[i]) {
            if i > 0 { assert s[i] == s[1..][i - 1] && lit[i] == lit[1..][i - 1]; }
          }
        }
      }
      m
  }

  /**
   * Removes one leading occurrence of the image directory name, compared without
   * regard to case and not aligned to path components.
   */
  function StripImageDir(relpath: string, jpgdir: string): (r: string)
    ensures StartsWithIgnoringCase(relpath, jpgdir) ==> r == relpath[|jpgdir|..]
    ensures !StartsWithIgnoringCase(relpath, jpgdir) ==> r == relpath
  {
    if MatchLiteralAtStart(relpath, jpgdir) then relpath[|jpgdir|..] else relpath
  }

  /** The characters of the class `[\.|\\|\/]`: dot, bar, backslash and slash. */
  predicate IsLeadChar(c: char) {
    c == '.' || c == '|' || c == '\\' || c == '/'
  }

  /** Removes the leading run of dots, bars, backslashes and slashes. */
  function StripLeading(s: string): (r: string)
    ensures EndsWith(s, r)
    ensures r == [] || !IsLeadChar(r[0])
    ensures forall i :: 0 <= i < |s| - |r| ==> IsLeadChar(s[i])
  {
    if s != [] && IsLeadChar(s[0]) then StripLeading(s[1..]) else s
  }

  /** Stripping the leading run twice is the same as stripping it once. */
  lemma StripLeadingIdempotent(s: string)
    ensures StripLeading(StripLeading(s)) == StripLeading(s)
  {
  }

  /** The directory under `root` that mirrors the directory of `rel`. */
  function MirrorDir(rel: string, root: string): string {
    root + "/" + Dirname(rel)
  }

  /** The path under `root` that mirrors `rel`. */
  function MirrorFile(rel: string, root: string): string {
    MirrorDir(rel, root) + "/" + Basename(rel)
  }

  /** The relative path the OCR stage mirrors: image directory and leading run removed. */
  function TextRel(relpath: string, jpgdir: string): string {
    StripLeading(StripImageDir(relpath, jpgdir))
  }

  /** The directory the OCR stage creates for the text output of `relpath`. */
  function TextDir(relpath: string, jpgdir: string, textdir: string): string {
    MirrorDir(TextRel(relpath, jpgdir), textdir)
  }

  /**
   * The extension-less base name handed to the OCR engine: the mirrored path inside
   * the text directory, with only the final extension of the file name dropped.
   */
  function TextBase(relpath: string, jpgdir: string, textdir: string): (r: string)
    ensures r == TextDir(relpath, jpgdir, textdir) + "/" + Splitext(Basename(TextRel(relpath, jpgdir))).0
  {
    var rel := TextRel(relpath, jpgdir);
    SplitextUnderDir(MirrorDir(rel, textdir), Basename(rel));
    Splitext(MirrorFile(rel, textdir)).0
  }

  /** Every text output lies under the text directory, in the mirrored directory. */
  lemma TextBaseUnderTextDir(relpath: string, jpgdir: string, textdir: string)
    ensures var prefix := textdir + "/" + Dirname(TextRel(relpath, jpgdir)) + "/";
      |prefix| <= |TextBase(relpath, jpgdir, textdir)| && TextBase(relpath, jpgdir, textdir)[..|prefix|] == prefix
    ensures '/' !in TextBase(relpath, jpgdir, textdir)[|textdir + "/" + Dirname(TextRel(relpath, jpgdir)) + "/"|..]
  {
    var rel := TextRel(relpath, jpgdir);
    var prefix := textdir + "/" + Dirname(rel) + "/";
    var name := Splitext(Basename(rel)).0;
    assert TextBase(relpath, jpgdir, textdir) == prefix + name;
    assert name <= Basename(rel);
  }

  /** The page-number placeholder and image extension appended to the raster pattern. */
  const PAGE_SUFFIX := "-%d.jpg"

  /** The relative path the rasterise stage mirrors: only the leading run is removed. */
  function RasterRel(relpath: string): string {
    StripLeading(relpath)
  }

  /** The directory the rasterise stage creates for the pages of `relpath`. */
  function RasterDir(relpath: string, jpgdir: string): string {
    MirrorDir(RasterRel(relpath), jpgdir)
  }

  /**
   * The Ghostscript output pattern: the mirrored path inside the image directory with
   * the final extension dropped, followed by the page placeholder.
   */
  function RasterPattern(relpath: string, jpgdir: string): (r: string)
    ensures r == RasterDir(relpath, jpgdir) + "/" + Splitext(Basename(RasterRel(relpath))).0 + PAGE_SUFFIX
    ensures EndsWith(r, PAGE_SUFFIX)
  {
    var rel := RasterRel(relpath);
    SplitextUnderDir(MirrorDir(rel, jpgdir), Basename(rel));
    Splitext(MirrorFile(rel, jpgdir)).0 + PAGE_SUFFIX
  }

  /** A PDF at `<d>/<x>`, with `d` a plain relative directory, gets the pattern `<jpgdir>/<d>/<stem of x>-%d.jpg`. */
  lemma RasterPatternOfChild(jpgdir: string, d: string, x: string)
    requires d != [] && !IsLeadChar(d[0]) && d[|d| - 1] != '/' && '/' !in x
    ensures RasterPattern(d + "/" + x, jpgdir) == jpgdir + "/" + d + "/" + Splitext(x).0 + PAGE_SUFFIX
  {
    assert (d + "/" + x)[0] == d[0];
    StripLeadingSeparators(d + "/" + x);
    DirnameOfChild(d, x);
  }

  /** The file Ghostscript writes for page `page` of a pattern: `%d` becomes its numeral. */
  function PageFile(pattern: string, page: nat): (r: string)
    requires EndsWith(pattern, PAGE_SUFFIX)
    ensures EndsWith(r, ".jpg")
    ensures var k := |pattern| - |PAGE_SUFFIX|;
      k + 5 < |r| && r[..k] == pattern[..k] && r[k] == '-'
      && AllDigits(r[k + 1..|r| - 4]) && DecimalValue(r[k + 1..|r| - 4]) == page
  {
    NatToDecimalRoundTrip(page);
    var k := |pattern| - |PAGE_SUFFIX|;
    var r := pattern[..k] + "-" + NatToDecimal(page) + ".jpg";
    assert r[k + 1..|r| - 4] == NatToDecimal(page);
    r
  }

  /** A path with no leading dot, bar, backslash or slash keeps its shape through the strip. */
  lemma StripLeadingSeparators(s: string)
    requires s == [] || !IsLeadChar(s[0])
    ensures StripLeading(s) == s
    ensures StripLeading("/" + s) == s
    ensures StripLeading("//" + s) == s
  {
    assert ("/" + s)[1..] == s;
    assert ("//" + s)[1..] == "/" + s;
  }

  /** The directory of `d/x` is `d` when `d` is a non-empty directory name without a trailing slash. */
  lemma DirnameOfChild(d: string, x: string)
    requires d != [] && d[0] != '/' && d[|d| - 1] != '/' && '/' !in x
    ensures Dirname(d + "/" + x) == d
    ensures Basename(d + "/" + x) == x
  {
    var p := d + "/" + x;
    RFindAppend(d + "/", x, '/');
    assert RFind(d + "/", '/') == |d|;
    assert p[..|d| + 1] == d + "/";
    assert (d + "/")[0] == d[0];
    assert !AllSlashes(d + "/");
    assert (d + "/")[..|d|] == d;
    assert p[|d| + 1..] == x;
  }

  /** A name without a slash ending in `.jpg`, whose stem holds a non-dot, loses exactly `.jpg`. */
  lemma SplitextJpg(stem: string, k: nat)
    requires '/' !in stem && k < |stem| && stem[k] != '.'
    ensures Splitext(stem + ".jpg") == (stem, ".jpg")
  {
    var p := stem + ".jpg";
    RFindAppend(stem, ".jpg", '.');
    RFindAppend(stem, ".jpg", '/');
    RFindUnique(".jpg", '.', 0);
    RFindUnique(".jpg", '/', -1);
    RFindUnique(stem, '/', -1);
    assert p[k] == stem[k];
    assert HasNonDot(p, 0, |stem|);
    assert p[..|stem|] == stem;
    assert p[|stem|..] == ".jpg";
  }

  /**
   * The OCR stage's view of an image stored at `<jpgdir>/<d>/<x>` where `d` is a mirrored
   * directory (empty, or a name that does not begin with a stripped character and does not
   * end with a slash): its text base is `<textdir>/<d>/` followed by `x` without extension.
   */
  lemma TextBaseOfMirroredImage(jpgdir: string, textdir: string, d: string, x: string)
    requires d == [] || (!IsLeadChar(d[0]) && d[|d| - 1] != '/')
    requires '/' !in x && (d == [] && x != [] ==> !IsLeadChar(x[0]))
    ensures TextBase(jpgdir + "/" + d + "/" + x, jpgdir, textdir) == textdir + "/" + d + "/" + Splitext(x).0
  {
    var file := jpgdir + "/" + d + "/" + x;
    assert file == jpgdir + ("/" + d + "/" + x);
    assert StartsWithIgnoringCase(file, jpgdir);
    assert StripImageDir(file, jpgdir) == "/" + d + "/" + x;
    if d != [] {
      StripLeadingSeparators(d + "/" + x);
      assert "/" + d + "/" + x == "/" + (d + "/" + x);
      assert TextRel(file, jpgdir) == d + "/" + x;
      DirnameOfChild(d, x);
    } else {
      StripLeadingSeparators(x);
      assert "/" + d + "/" + x == "//" + x;
      assert TextRel(file, jpgdir) == x;
      RFindUnique(x, '/', -1);
      assert Dirname(x) == [];
      assert Basename(x) == x;
    }
  }

  /**
   * The image directory is removed as a bare prefix of characters, not as a whole path
   * component: an image under a sibling directory `<jpgdir><d>` whose name merely starts
   * with the image directory's is mirrored to `<textdir>/<d>/`.
   */
  lemma ImageDirIsBarePrefix(jpgdir: string, textdir: string, d: string, x: string)
    requires d != [] && !IsLeadChar(d[0]) && d[|d| - 1] != '/' && '/' !in x
    ensures TextBase(jpgdir + d + "/" + x, jpgdir, textdir) == textdir + "/" + d + "/" + Splitext(x).0
  {
    var file := jpgdir + d + "/" + x;
    assert file == jpgdir + (d + "/" + x);
    assert StartsWithIgnoringCase(file, jpgdir);
    assert StripImageDir(file, jpgdir) == d + "/" + x;
    assert (d + "/" + x)[0] == d[0];
    StripLeadingSeparators(d + "/" + x);
    DirnameOfChild(d, x);
  }

  /**
   * The image directory is matched without regard to case; an image directly inside it
   * has an empty mirrored directory, so its text base name holds a doubled slash.
   */
  lemma ImageDirMatchedIgnoringCase(u: string, jpgdir: string, textdir: string, x: string)
    requires |u| == |jpgdir| && forall i :: 0 <= i < |u| ==> FoldCase(u[i]) == FoldCase(jpgdir[i])
    requires x != [] && !IsLeadChar(x[0]) && '/' !in x
    ensures TextBase(u + "/" + x, jpgdir, textdir) == textdir + "//" + Splitext(x).0
  {
    var file := u + "/" + x;
    assert forall i :: 0 <= i < |u| ==> file[i] == u[i];
    assert StartsWithIgnoringCase(file, jpgdir);
    assert StripImageDir(file, jpgdir) == "/" + x;
    StripLeadingSeparators(x);
    RFindUnique(x, '/', -1);
    assert Dirname(x) == [] && Basename(x) == x;
    assert textdir + "/" + [] + "/" == textdir + "//";
  }

  /** A page name `<b>-<n>.jpg` holds no slash and keeps its stem `<b>-<n>` through splitext. */
  lemma PageName(b: string, n: string)
    requires '/' !in b && AllDigits(n)
    ensures '/' !in b + "-" + n + ".jpg"
    ensures Splitext(b + "-" + n + ".jpg").0 == b + "-" + n
  {
    var stem := b + "-" + n;
    assert '/' !in stem by {
      forall i | 0 <= i < |stem| ensures stem[i] != '/' {
        if i < |b| { assert stem[i] == b[i]; }
        else if i > |b| { assert stem[i] == n[i - |b| - 1] && IsDigit(n[i - |b| - 1]); }
      }
    }
    assert stem[|b|] == '-';
    SplitextJpg(stem, |b|);
    var x := stem + ".jpg";
    assert '/' !in x by {
      forall i | 0 <= i < |x| ensures x[i] != '/' {
        if i < |stem| { assert x[i] == stem[i]; }
      }
    }
  }

  /** The OCR stage maps the page image `<jpgdir>/<d>/<b>-<n>.jpg` to `<textdir>/<d>/<b>-<n>`. */
  lemma PageImageMapsToText(jpgdir: string, textdir: string, d: string, b: string, n: string)
    requires d == [] || (!IsLeadChar(d[0]) && d[|d| - 1] != '/')
    requires '/' !in b && (d == [] && b != [] ==> !IsLeadChar(b[0]))
    requires AllDigits(n)
    ensures TextBase(jpgdir + "/" + d + "/" + b + "-" + n + ".jpg", jpgdir, textdir) == textdir + "/" + d + "/" + b + "-" + n
  {
    var x := b + "-" + n + ".jpg";
    PageName(b, n);
    assert x[0] == if b == [] then '-' else b[0];
    Regroup(jpgdir + "/" + d + "/", b, n, textdir + "/" + d + "/");
    TextBaseOfMirroredImage(jpgdir, textdir, d, x);
  }

  /** Regrouping a page name after a directory prefix. */
  lemma Regroup(p: string, b: string, n: string, q: string)
    ensures p + b + "-" + n + ".jpg" == p + (b + "-" + n + ".jpg")
    ensures q + b + "-" + n == q + (b + "-" + n)
  {
  }

  /**
   * The mirrored directory and stem of a stripped path: the directory is empty or neither
   * begins with a stripped character nor ends with a slash, and the stem has no slash and,
   * when the directory is empty, starts like the path.
   */
  lemma MirroredShape(rel: string)
    requires rel == [] || !IsLeadChar(rel[0])
    ensures var d := Dirname(rel);
      d == [] || (!IsLeadChar(d[0]) && d[|d| - 1] != '/')
    ensures var d, b := Dirname(rel), Splitext(Basename(rel)).0;
      '/' !in b && (d == [] && b != [] ==> !IsLeadChar(b[0]))
  {
    var d := Dirname(rel);
    if d != [] {
      assert d[0] == rel[0];
      assert !AllSlashes(d);
    }
    MirroredStem(rel);
  }

  /** The stem of the final component has no slash, and starts the path when there is no directory. */
  lemma MirroredStem(rel: string)
    ensures var b := Splitext(Basename(rel)).0;
      '/' !in b && (Dirname(rel) == [] && b != [] ==> |b| <= |rel| && b[0] == rel[0])
  {
    var base := Basename(rel);
    var b := Splitext(base).0;
    assert b <= base by {
      assert b + Splitext(base).1 == base;
    }
    assert '/' !in b by {
      forall i | 0 <= i < |b| ensures b[i] != '/' {
        assert b[i] == base[i];
      }
    }
    if Dirname(rel) == [] && b != [] {
      assert '/' !in rel;
      RFindUnique(rel, '/', -1);
      assert base == rel;
    }
  }

  /**
   * The image tree's layout: page `page` of a PDF at relative path `rel` is written to
   * `<jpgdir>/<mirrored dir>/<pdf name without extension>-<page>.jpg`.
   */
  lemma PageFileLayout(relpath: string, jpgdir: string, page: nat)
    ensures var rel := RasterRel(relpath);
      PageFile(RasterPattern(relpath, jpgdir), page)
        == jpgdir + "/" + Dirname(rel) + "/" + Splitext(Basename(rel)).0 + "-" + NatToDecimal(page) + ".jpg"
  {
    var rel := RasterRel(relpath);
    var pattern := RasterPattern(relpath, jpgdir);
    var stem := jpgdir + "/" + Dirname(rel) + "/" + Splitext(Basename(rel)).0;
    assert pattern == stem + PAGE_SUFFIX;
    assert pattern[..|pattern| - |PAGE_SUFFIX|] == stem;
  }

  /**
   * The two stages agree on the layout, provided the OCR stage sees the page image's path
   * as Ghostscript wrote it (its first argument is the path after `os.path.relpath`, which
   * leaves it unchanged when the image directory is a normalised relative path such as
   * `jpg`): the page image for page `page` of a PDF gets the text base name
   * `<textdir>/<mirrored directory>/<pdf name without extension>-<page>`.
   */
  lemma PageFileMapsToText(relpath: string, jpgdir: string, textdir: string, page: nat)
    ensures var rel := RasterRel(relpath);
      TextBase(PageFile(RasterPattern(relpath, jpgdir), page), jpgdir, textdir)
        == textdir + "/" + Dirname(rel) + "/" + Splitext(Basename(rel)).0 + "-" + NatToDecimal(page)
  {
    var rel := RasterRel(relpath);
    var d := Dirname(rel);
    var b := Splitext(Basename(rel)).0;
    PageFileLayout(relpath, jpgdir, page);
    MirroredShape(rel);
    PageImageMapsToText(jpgdir, textdir, d, b, NatToDecimal(page));
  }

  /**
   * A path that does not start with the image directory, compared without regard to case,
   * keeps all of its directories: `<d>/<x>` is read into `<textdir>/<d>/<stem of x>`. This
   * is what happens to every image when the image directory is given as `./jpg` or as an
   * absolute path, since the path reaching the match has been made relative and normalised.
   */
  lemma UnmatchedImageDirKeepsPath(jpgdir: string, textdir: string, d: string, x: string)
    requires d != [] && !IsLeadChar(d[0]) && d[|d| - 1] != '/' && '/' !in x
    requires !StartsWithIgnoringCase(d + "/" + x, jpgdir)
    ensures TextBase(d + "/" + x, jpgdir, textdir) == textdir + "/" + d + "/" + Splitext(x).0
  {
    assert StripImageDir(d + "/" + x, jpgdir) == d + "/" + x;
    assert (d + "/" + x)[0] == d[0];
    StripLeadingSeparators(d + "/" + x);
    DirnameOfChild(d, x);
  }

}
