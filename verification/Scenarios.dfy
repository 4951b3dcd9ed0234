/**
 * Worked cases of the path rules, one lemma per situation, each stated on concrete
 * values: the happy path from a PDF to its page images and text files, and the corner
 * cases where the rules do something a reader might not expect.
 */
module Scenarios {
  import opened PosixPath
  import opened Decimal
  import opened PathMapper
  import opened Commands

  /** `in/a/b.pdf` is rasterised to the pattern `jpg/in/a/b-%d.jpg`. */
  lemma RasterPatternExample()
    ensures RasterPattern("in/a/b.pdf", "jpg") == "jpg/in/a/b-%d.jpg"
  {
    assert "in/a" + "/" + "b.pdf" == "in/a/b.pdf";
    assert "jpg" + "/" + "in/a" + "/" + "b" + PAGE_SUFFIX == "jpg/in/a/b-%d.jpg";
    assert Splitext("b.pdf").0 == "b" by {
      RFindUnique("b.pdf", '/', -1);
      RFindUnique("b.pdf", '.', 1);
      assert "b.pdf"[0] != '.' && "b.pdf"[..1] == "b";
    }
    RasterPatternOfChild("jpg", "in/a", "b.pdf");
  }

  /** Ghostscript writes page 12 of that pattern to `jpg/in/a/b-12.jpg`. */
  lemma PageFileExample()
    ensures PageFile("jpg/in/a/b-%d.jpg", 12) == "jpg/in/a/b-12.jpg"
  {
    assert NatToDecimal(1) == "1";
    assert NatToDecimal(12) == "12";
    assert "jpg/in/a/b-%d.jpg"[..10] == "jpg/in/a/b";
  }

  /** A page image under the image directory is read into the mirrored text path. */
  lemma PageImageExample()
    ensures TextBase("jpg/in/a/b-1.jpg", "jpg", "text") == "text/in/a/b-1"
  {
    assert "jpg" + "/" + "in/a" + "/" + "b" + "-" + "1" + ".jpg" == "jpg/in/a/b-1.jpg";
    assert "text" + "/" + "in/a" + "/" + "b" + "-" + "1" == "text/in/a/b-1";
    assert AllDigits("1");
    PageImageMapsToText("jpg", "text", "in/a", "b", "1");
  }

  /** `jpgfoo/x.jpg` lies outside the image directory `jpg`, yet it loses the prefix `jpg`. */
  lemma UnalignedImageDir()
    ensures TextBase("jpgfoo/x.jpg", "jpg", "text") == "text/foo/x"
  {
    assert "jpg" + "foo" == "jpgfoo";
    assert "jpgfoo" + "/" == "jpgfoo/";
    assert "jpgfoo/" + "x.jpg" == "jpgfoo/x.jpg";
    assert "text" + "/" + "foo" + "/" + "x" == "text/foo/x";
    assert Splitext("x.jpg").0 == "x" by {
      SplitextJpg("x", 0);
      assert "x" + ".jpg" == "x.jpg";
    }
    ImageDirIsBarePrefix("jpg", "text", "foo", "x.jpg");
  }

  /** `JPG/a.jpg` matches the image directory `jpg` and is read into `text//a`. */
  lemma CaseFoldedImageDir()
    ensures TextBase("JPG/a.jpg", "jpg", "text") == "text//a"
  {
    assert "JPG" + "/" + "a.jpg" == "JPG/a.jpg";
    assert "text" + "//" + "a" == "text//a";
    assert Splitext("a.jpg").0 == "a" by {
      SplitextJpg("a", 0);
      assert "a" + ".jpg" == "a.jpg";
    }
    assert FoldCase('J') == 'j' && FoldCase('P') == 'p' && FoldCase('G') == 'g';
    ImageDirMatchedIgnoringCase("JPG", "jpg", "text", "a.jpg");
  }

  /**
   * With the image directory given as `./jpg`, the path that reaches the match has been
   * normalised to `jpg/...`, which does not start with `./jpg`: the image directory's
   * own name stays in the text path.
   */
  lemma DotSlashImageDir()
    ensures TextBase("jpg/in/a/b-1.jpg", "./jpg", "text") == "text/jpg/in/a/b-1"
  {
    assert "jpg/in/a" + "/" + "b-1.jpg" == "jpg/in/a/b-1.jpg";
    assert "text" + "/" + "jpg/in/a" + "/" + "b-1" == "text/jpg/in/a/b-1";
    assert Splitext("b-1.jpg").0 == "b-1" by {
      SplitextJpg("b-1", 0);
      assert "b-1" + ".jpg" == "b-1.jpg";
    }
    assert !StartsWithIgnoringCase("jpg/in/a/b-1.jpg", "./jpg") by {
      assert "jpg/in/a/b-1.jpg"[0] == 'j' && "./jpg"[0] == '.';
      assert FoldCase('j') == 'j' && FoldCase('.') == '.';
    }
    UnmatchedImageDirKeepsPath("./jpg", "text", "jpg/in/a", "b-1.jpg");
  }

  /** Only the last dot of the final component splits; a leading dot alone does not. */
  lemma SplitextExamples()
    ensures Splitext("a.b.jpg") == ("a.b", ".jpg")
    ensures Splitext(".bashrc") == (".bashrc", "")
    ensures Splitext("d.x/readme") == ("d.x/readme", "")
  {
    RFindUnique("a.b.jpg", '/', -1);
    RFindUnique("a.b.jpg", '.', 3);
    assert "a.b.jpg"[0] != '.';
    assert "a.b.jpg"[..3] == "a.b" && "a.b.jpg"[3..] == ".jpg";
    RFindUnique(".bashrc", '/', -1);
    RFindUnique(".bashrc", '.', 0);
    RFindUnique("d.x/readme", '/', 3);
    RFindUnique("d.x/readme", '.', 1);
  }

  /** Trailing separators of the head are dropped unless the head is only separators. */
  lemma DirnameExamples()
    ensures Dirname("a//b") == "a"
    ensures Dirname("/b") == "/"
    ensures Dirname("//b") == "//"
    ensures Dirname("b") == ""
  {
    RFindUnique("a//b", '/', 2);
    assert "a//b"[..3] == "a//";
    assert RStripSlashes("a//") == "a" by {
      assert "a//"[..2] == "a/" && "a/"[..1] == "a";
    }
    RFindUnique("/b", '/', 0);
    RFindUnique("//b", '/', 1);
    assert "//b"[..2] == "//";
    RFindUnique("b", '/', -1);
  }

  /** A separator is inserted between directory and name only where one is missing. */
  lemma JoinExamples()
    ensures Join("a", "b") == "a/b"
    ensures Join("a/", "b") == "a/b"
  {
    assert "a" + "/" + "b" == "a/b";
    assert "a/" + "b" == "a/b";
  }

  /** An empty directory adds nothing, and an absolute name replaces the directory. */
  lemma JoinEdgeExamples()
    ensures Join("", "b") == "b"
    ensures Join("a", "/b") == "/b"
  {
    assert "" + "b" == "b";
  }

  /** The Ghostscript call for a 300 dpi run over `in/b.pdf`. */
  lemma GhostscriptExample()
    ensures GhostscriptArgv(300, "jpg/in/b-%d.jpg", "in/b.pdf")
      == ["/usr/bin/gs", "-dNOPAUSE", "-r300", "-sDEVICE=jpeg", "-dBATCH", "-sOutputFile=jpg/in/b-%d.jpg", "in/b.pdf"]
  {
    assert NatToDecimal(3) == "3";
    assert NatToDecimal(30) == "30";
    assert NatToDecimal(300) == "300";
    assert RESOLUTION_FLAG + IntToDecimal(300) == "-r300";
    assert OUTPUT_FLAG + "jpg/in/b-%d.jpg" == "-sOutputFile=jpg/in/b-%d.jpg";
  }

}
