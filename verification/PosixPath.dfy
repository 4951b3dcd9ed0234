/**
 * The POSIX path helpers the converter relies on: `str.rfind`, `os.path.basename`,
 * `os.path.dirname`, `os.path.splitext` and `os.path.join`, all with `/` as the only
 * separator, and the `*<suffix>` file-name pattern used to pick inputs.
 */
module PosixPath {

  /** `s` ends with `suffix`. */
  predicate EndsWith(s: string, suffix: string) {
    |suffix| <= |s| && s[|s| - |suffix|..] == suffix
  }

  /** Position of the last `c` in `s`, or -1 when `s` has none (`str.rfind`). */
  function RFind(s: string, c: char): (r: int)
    ensures -1 <= r < |s|
    ensures r >= 0 ==> s[r] == c
    ensures forall j :: r < j < |s| ==> s[j] != c
  {
    if s == [] then -1
    else if s[|s| - 1] == c then |s| - 1
    else RFind(s[..|s| - 1], c)
  }

  /** The three facts RFind promises determine its result. */
  lemma RFindUnique(s: string, c: char, k: int)
    requires -1 <= k < |s|
    requires k >= 0 ==> s[k] == c
    requires forall j :: k < j < |s| ==> s[j] != c
    ensures RFind(s, c) == k
  {
  }

  /** Searching a concatenation finds the last `c` of the right part if it has one. */
  lemma RFindAppend(x: string, y: string, c: char)
    ensures RFind(x + y, c) == if RFind(y, c) >= 0 then |x| + RFind(y, c) else RFind(x, c)
  {
    var k := if RFind(y, c) >= 0 then |x| + RFind(y, c) else RFind(x, c);
    forall j | k < j < |x + y| ensures (x + y)[j] != c {
      if j >= |x| {
        assert (x + y)[j] == y[j - |x|];
      } else {
        assert (x + y)[j] == x[j];
      }
    }
    RFindUnique(x + y, c, k);
  }

  /** The final component of `p`: the longest suffix without a `/` (`os.path.basename`). */
  function Basename(p: string): (r: string)
    ensures '/' !in r
    ensures EndsWith(p, r)
    ensures |r| < |p| ==> p[|p| - |r| - 1] == '/'
  {
    p[RFind(p, '/') + 1..]
  }

  predicate AllSlashes(s: string) {
    forall i :: 0 <= i < |s| ==> s[i] == '/'
  }

  /** `s` without its trailing run of `/` (`str.rstrip('/')`). */
  function RStripSlashes(s: string): (r: string)
    ensures r <= s
    ensures r == [] || r[|r| - 1] != '/'
    ensures AllSlashes(s[|r|..])
  {
    if s != [] && s[|s| - 1] == '/' then RStripSlashes(s[..|s| - 1]) else s
  }

  /**
   * Everything before the final component, with the separating slashes trimmed unless
   * they are all there is (`os.path.dirname`).
   */
  function Dirname(p: string): (r: string)
    ensures r <= p
    ensures r == [] <==> '/' !in p
    ensures AllSlashes(r) || r[|r| - 1] != '/'
    ensures |r| <= |p| - |Basename(p)| && AllSlashes(p[|r|..|p| - |Basename(p)|])
    ensures AllSlashes(r) ==> |r| == |p| - |Basename(p)|
  {
    var head := p[..RFind(p, '/') + 1];
    assert '/' in p ==> head[|head| - 1] == '/';
    if head != [] && !AllSlashes(head) then RStripSlashes(head) else head
  }

  /** Some character of `s[lo..hi]` is not a dot. */
  predicate HasNonDot(s: string, lo: int, hi: int)
    requires 0 <= lo <= hi <= |s|
  {
    exists i :: lo <= i < hi && s[i] != '.'
  }

  /**
   * Splits `p` into root and extension at the last dot of the final component,
   * provided a non-dot character precedes that dot in the component; otherwise the
   * extension is empty (`os.path.splitext`).
   */
  function Splitext(p: string): (r: (string, string))
    ensures r.0 + r.1 == p
    ensures r.1 == [] || (r.1[0] == '.' && '/' !in r.1 && '.' !in r.1[1..])
  {
    var sep := RFind(p, '/');
    var dot := RFind(p, '.');
    if dot > sep && HasNonDot(p, sep + 1, dot) then
      assert forall j :: 0 <= j < |p[dot..]| ==> p[dot..][j] == p[dot + j];
      (p[..dot], p[dot..])
    else
      (p, [])
  }

  /** A file name with an extension: a dot preceded somewhere by a non-dot character. */
  ghost predicate HasExtension(name: string) {
    exists i, j :: 0 <= i < j < |name| && name[i] != '.' && name[j] == '.'
  }

  /** Splitext cuts something off exactly when the final component has an extension. */
  lemma SplitextCutsIffExtension(p: string)
    ensures Splitext(p).1 != [] <==> HasExtension(Basename(p))
  {
    var b := Basename(p);
    var sep := RFind(p, '/');
    var dot := RFind(p, '.');
    var off := sep + 1;
    assert b == p[off..];
    if Splitext(p).1 != [] {
      var i :| off <= i < dot && p[i] != '.';
      assert b[i - off] != '.' && b[dot - off] == '.';
    }
    if HasExtension(b) {
      var i, j :| 0 <= i < j < |b| && b[i] != '.' && b[j] == '.';
      assert p[off + j] == '.';
      assert off + j <= dot;
      assert p[off + i] != '.';
      assert HasNonDot(p, sep + 1, dot);
    }
  }

  /** Splitting a path whose last separator is known only touches the final component. */
  lemma SplitextUnderDir(d: string, b: string)
    requires '/' !in b
    ensures Splitext(d + "/" + b) == (d + "/" + Splitext(b).0, Splitext(b).1)
  {
    SplitextAfterSeparator(d + "/", b);
  }

  lemma SplitextAfterSeparator(x: string, b: string)
    requires x != [] && x[|x| - 1] == '/' && '/' !in b
    ensures Splitext(x + b) == (x + Splitext(b).0, Splitext(b).1)
  {
    var p := x + b;
    RFindAppend(x, b, '/');
    RFindAppend(x, b, '.');
    var sep := RFind(p, '/');
    assert sep == |x| - 1;
    var dotB := RFind(b, '.');
    var dot := RFind(p, '.');
    if dotB >= 0 {
      assert dot == |x| + dotB;
      if HasNonDot(p, sep + 1, dot) {
        var i :| sep + 1 <= i < dot && p[i] != '.';
        assert b[i - |x|] == p[i];
        assert HasNonDot(b, 0, dotB);
        assert p[..dot] == x + b[..dotB];
        assert p[dot..] == b[dotB..];
      } else {
        forall i | 0 <= i < dotB ensures b[i] == '.' {
          assert p[|x| + i] == b[i];
        }
      }
    }
  }

  /** `os.path.join(a, b)` for two parts. */
  function Join(a: string, b: string): (r: string)
    ensures EndsWith(r, b)
    ensures '/' !in b && b != [] ==> Basename(r) == b
    ensures b != [] && b[0] == '/' ==> r == b
    ensures (b == [] || b[0] != '/') ==>
      a <= r && |a| + |b| <= |r| && r[|a|..|r| - |b|] == (if a == [] || a[|a| - 1] == '/' then "" else "/")
  {
    if |b| > 0 && b[0] == '/' then b
    else
      var head := if a == [] || a[|a| - 1] == '/' then a else a + "/";
      assert head[..|a|] == a && head[|a|..] == (if a == [] || a[|a| - 1] == '/' then "" else "/");
      BasenameAfterSeparator(head, b);
      JoinParts(head, b, |a|);
      head + b
  }

  /** A name without a slash placed after a separator is the basename. */
  lemma BasenameAfterSeparator(head: string, b: string)
    requires head == [] || head[|head| - 1] == '/'
    ensures '/' !in b && b != [] ==> Basename(head + b) == b
  {
    if '/' !in b && b != [] {
      RFindAppend(head, b, '/');
      RFindUnique(b, '/', -1);
      assert (head + b)[|head|..] == b;
    }
  }

  /** The pieces of `head + b`, cut at `n` inside `head` and at the start of `b`. */
  lemma JoinParts(head: string, b: string, n: int)
    requires 0 <= n <= |head|
    ensures EndsWith(head + b, b)
    ensures head[..n] <= head + b && n + |b| <= |head + b| && (head + b)[n..|head + b| - |b|] == head[n..]
  {
    assert (head + b)[|head|..] == b;
    assert (head + b)[..|head|] == head;
  }

}
