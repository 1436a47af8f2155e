/** The part of Node's `path.extname` (POSIX) that the AsuraScans scraper uses. */
module Paths {
  import opened Options

  /** `p` without its trailing `/` characters. */
  function StripTrailingSlashes(p: string): (r: string)
    ensures |r| <= |p| && r == p[..|r|]
    ensures r == [] || r[|r| - 1] != '/'
    ensures forall k :: |r| <= k < |p| ==> p[k] == '/'
    decreases |p|
  {
    if p != [] && p[|p| - 1] == '/' then StripTrailingSlashes(p[..|p| - 1]) else p
  }

  /** The last position of `c` in `s`, or none. */
  function LastIndexOf(s: string, c: char): (r: Option<nat>)
    ensures r.Some? ==> r.value < |s| && s[r.value] == c
    ensures r.Some? ==> forall j :: r.value < j < |s| ==> s[j] != c
    ensures r.None? ==> c !in s
    decreases |s|
  {
    if s == [] then None
    else if s[|s| - 1] == c then Some(|s| - 1)
    else
      var r := LastIndexOf(s[..|s| - 1], c);
      assert s == s[..|s| - 1] + [s[|s| - 1]];
      r
  }

  /** The final path segment, trailing slashes ignored. */
  function Basename(p: string): (r: string)
    ensures '/' !in r
  {
    var t := StripTrailingSlashes(p);
    match LastIndexOf(t, '/')
    case None => t
    case Some(k) => t[k + 1..]
  }

  /**
   * `path.extname(p)`: from the last `.` of the final segment to its end; empty
   * when the segment has no `.`, when its only `.` is its first character (a
   * dot-file), or when the segment is `..`.
   */
  function Extname(p: string): (r: string)
    ensures r == [] || (r[0] == '.' && forall k :: 0 < k < |r| ==> r[k] != '.' && r[k] != '/')
    ensures r != [] ==> |r| < |Basename(p)| && Basename(p)[|Basename(p)| - |r|..] == r
  {
    var b := Basename(p);
    match LastIndexOf(b, '.')
    case None => ""
    case Some(d) => if d == 0 || b == ".." then "" else b[d..]
  }

  /**
   * The extension is present exactly when the final segment's last `.` is not
   * its first character and the segment is not `..`, and it then runs from that
   * `.` to the end of the segment.
   */
  lemma ExtnameValue(p: string)
    ensures var b, d := Basename(p), LastIndexOf(Basename(p), '.');
      (Extname(p) != [] <==> d.Some? && d.value > 0 && b != "..") &&
      (Extname(p) != [] ==> Extname(p) == b[d.value..])
  {
    var b := Basename(p);
    match LastIndexOf(b, '.')
    case None =>
    case Some(d) => assert d > 0 && b != ".." ==> b[d..] != [];
  }

  /** The final segment of `dir/seg` is `seg`, whatever `dir` holds. */
  lemma {:induction false} BasenameOfJoin(dir: string, seg: string)
    requires seg != [] && '/' !in seg
    ensures Basename(dir + "/" + seg) == seg
  {
    var p := dir + "/" + seg;
    assert p[|p| - 1] == seg[|seg| - 1];
    assert StripTrailingSlashes(p) == p;
    var r := LastIndexOf(p, '/');
    assert p[|dir|] == '/';
    assert forall j :: |dir| < j < |p| ==> p[j] == seg[j - |dir| - 1];
    assert r == Some(|dir|);
    assert p[|dir| + 1..] == seg;
  }

  /**
   * A file `stem.ext` in any directory has extension `.ext`: this is why a URL
   * such as `https://cdn.example/img/007.webp?token=xyz`, whose pathname is
   * `/img/007.webp`, yields `.webp`.
   */
  lemma ExtnameOfFile(dir: string, stem: string, ext: string)
    requires stem != [] && '/' !in stem
    requires ext != [] && '/' !in ext && '.' !in ext
    ensures Extname(dir + "/" + (stem + "." + ext)) == "." + ext
  {
    var b := stem + "." + ext;
    BasenameOfJoin(dir, b);
    assert b[|stem|] == '.';
    assert forall j :: |stem| < j < |b| ==> b[j] == ext[j - |stem| - 1];
    var d := LastIndexOf(b, '.');
    assert d == Some(|stem|);
    assert b != ".." by { assert |b| >= 3; }
    assert b[|stem|..] == "." + ext;
  }

  /** A final segment without a `.` has no extension. */
  lemma ExtnameWithoutDot(dir: string, seg: string)
    requires seg != [] && '/' !in seg && '.' !in seg
    ensures Extname(dir + "/" + seg) == ""
  {
    BasenameOfJoin(dir, seg);
  }

  /** A dot-file such as `.hidden` has no extension. */
  lemma ExtnameOfDotFile(dir: string, name: string)
    requires '/' !in name && '.' !in name
    ensures Extname(dir + "/" + ("." + name)) == ""
  {
    var b := "." + name;
    BasenameOfJoin(dir, b);
    assert forall j :: 0 < j < |b| ==> b[j] == name[j - 1];
    assert LastIndexOf(b, '.') == Some(0);
  }
}
