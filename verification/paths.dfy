/** The two `os.path` helpers the write step uses, with POSIX semantics:
    `join` of two components and `splitext`, and the archive location built
    from them. */
module Paths {

  /** `posixpath.join(a, b)`: an absolute `b` replaces `a`; otherwise `b` is
      appended, with a `/` in between unless `a` is empty or already ends
      in one. */
  function PathJoin(a: string, b: string): string
  {
    if |b| > 0 && b[0] == '/' then b
    else if |a| == 0 || a[|a| - 1] == '/' then a + b
    else a + "/" + b
  }

  /** The joined path ends with `b`; unless `b` is absolute it starts with `a`
      and has exactly one `/` at the seam. */
  lemma PathJoinShape(a: string, b: string)
    ensures var r := PathJoin(a, b);
            && |b| <= |r| && r[|r| - |b|..] == b
            && (|b| > 0 && b[0] == '/' ==> r == b)
            && ((|b| == 0 || b[0] != '/') ==> |a| <= |r| && r[..|a|] == a)
            && ((|b| == 0 || b[0] != '/') && |a| > 0 && a[|a| - 1] != '/' ==> |r| == |a| + 1 + |b| && r[|a|] == '/')
            && ((|b| == 0 || b[0] != '/') && (|a| == 0 || a[|a| - 1] == '/') ==> |r| == |a| + |b|)
  {
  }

  /** Index of the last occurrence of `c` in `s`, or -1. */
  function RFind(s: string, c: char): (r: int)
    ensures -1 <= r < |s|
    ensures r >= 0 ==> s[r] == c
    ensures forall t :: r < t < |s| ==> s[t] != c
    decreases |s|
  {
    if |s| == 0 then -1
    else if s[|s| - 1] == c then |s| - 1
    else RFind(s[..|s| - 1], c)
  }

  /** Some character of `s[lo..hi]` is not a dot (the scan over the leading
      dots of the last component). */
  predicate HasNonDot(s: string, lo: int, hi: int)
    requires 0 <= lo && hi <= |s|
    decreases hi - lo
  {
    lo < hi && (s[lo] != '.' || HasNonDot(s, lo + 1, hi))
  }

  lemma {:induction false} HasNonDotMeans(s: string, lo: int, hi: int)
    requires 0 <= lo && hi <= |s|
    ensures HasNonDot(s, lo, hi) <==> exists t :: lo <= t < hi && s[t] != '.'
    decreases hi - lo
  {
    if lo < hi {
      HasNonDotMeans(s, lo + 1, hi);
    }
  }

  /** The last occurrence is the only one with no later occurrence. */
  lemma RFindAt(s: string, c: char, k: nat)
    requires k < |s| && s[k] == c
    requires forall t :: k < t < |s| ==> s[t] != c
    ensures RFind(s, c) == k
  {
  }

  /** `posixpath.splitext(p)`: the extension is the last dot and what follows
      it, provided that dot lies in the last path component and is not one of
      that component's leading dots; otherwise the extension is empty. */
  function SplitExt(p: string): (r: (string, string))
    ensures r.0 + r.1 == p
    ensures r.1 != [] <==>
              RFind(p, '.') > RFind(p, '/') && HasNonDot(p, RFind(p, '/') + 1, RFind(p, '.'))
    ensures r.1 != [] ==> r.1[0] == '.' && '.' !in r.1[1..] && '/' !in r.1
  {
    var sepIndex := RFind(p, '/');
    var dotIndex := RFind(p, '.');
    if dotIndex > sepIndex && HasNonDot(p, sepIndex + 1, dotIndex) then
      (p[..dotIndex], p[dotIndex..])
    else (p, "")
  }

  /** The archive location of a file that is not overwritten:
      `archive_root/<filename minus its extension>.version/<filename>`,
      with no version suffix. */
  function ArchivePath(archiveRoot: string, filename: string): string
  {
    PathJoin(PathJoin(archiveRoot, SplitExt(filename).0 + ".version"), filename)
  }

  /** For a relative filename and a non-empty archive root, the archive path is
      the `.version` directory of the filename's stem, then a slash, then the
      filename itself, unchanged. */
  lemma {:induction false} ArchivePathShape(archiveRoot: string, filename: string)
    requires |archiveRoot| > 0
    requires |filename| > 0 && filename[0] != '/'
    ensures var dir := PathJoin(archiveRoot, SplitExt(filename).0 + ".version");
            && ArchivePath(archiveRoot, filename) == dir + "/" + filename
            && dir[..|archiveRoot|] == archiveRoot
            && dir[|dir| - 8..] == ".version"
  {
    var root := SplitExt(filename).0;
    assert |root| > 0 && root[0] == filename[0] by {
      if SplitExt(filename).1 != [] {
        var sepIndex := RFind(filename, '/');
        var dotIndex := RFind(filename, '.');
        HasNonDotMeans(filename, sepIndex + 1, dotIndex);
        assert root == filename[..dotIndex];
      }
    }
    var stem := root + ".version";
    assert stem[0] != '/';
    var dir := PathJoin(archiveRoot, stem);
    PathJoinShape(archiveRoot, stem);
    assert dir[|dir| - 8..] == ".version";
    assert dir[|dir| - 1] == 'n';
  }

  /** An absolute filename escapes both directories: the archive path and the
      output path are the filename itself, so the "move to archive" moves the
      file onto itself. */
  lemma AbsoluteFilenameArchivesInPlace(outputDir: string, archiveRoot: string, filename: string)
    requires |filename| > 0 && filename[0] == '/'
    ensures ArchivePath(archiveRoot, filename) == filename
    ensures PathJoin(outputDir, filename) == filename
  {
  }

  lemma SplitExtExamples()
    ensures SplitExt("a.py") == ("a", ".py")
    ensures SplitExt("a.tar.gz") == ("a.tar", ".gz")
    ensures SplitExt(".bashrc") == (".bashrc", "")
    ensures SplitExt("pkg.d/Makefile") == ("pkg.d/Makefile", "")
  {
    RFindAt("a.py", '.', 1);
    assert RFind("a.py", '/') == -1 by { assert '/' !in "a.py"; }
    assert HasNonDot("a.py", 0, 1);
    assert "a.py"[..1] == "a" && "a.py"[1..] == ".py";
    RFindAt("a.tar.gz", '.', 5);
    assert RFind("a.tar.gz", '/') == -1 by { assert '/' !in "a.tar.gz"; }
    assert HasNonDot("a.tar.gz", 0, 5);
    assert "a.tar.gz"[..5] == "a.tar" && "a.tar.gz"[5..] == ".gz";
    assert RFind(".bashrc", '/') == -1 by { assert '/' !in ".bashrc"; }
    RFindAt(".bashrc", '.', 0);
    RFindAt("pkg.d/Makefile", '/', 5);
    RFindAt("pkg.d/Makefile", '.', 3);
  }

  lemma ArchivePathExample()
    ensures ArchivePath("archive", "a.py") == "archive/a.version/a.py"
  {
    SplitExtExamples();
    assert PathJoin("archive", "a" + ".version") == "archive/a.version";
  }
}
