/**
 * The ErosScans scraper (scrapers/erosScans.js): open the chapter, take every
 * `#readerarea img.ts-main-image` src in order, and write each response body
 * as `image_NNN.jpg` into `downloads/<title with whitespace runs as _>`.
 */
module ErosScans {
  import opened Options
  import opened Strings
  import opened Naming
  import opened Browser

  /** The default of the `title` parameter, used only when no title is passed. */
  const DefaultTitle := "eros_manga"

  /** `s.replace(/\s+/g, '_')`: every maximal run of whitespace becomes a single `_`. */
  function SquashSpaces(s: string): (r: string)
    ensures |r| <= |s|
    ensures r == [] <==> s == []
    decreases |s|
  {
    if s == [] then []
    else if IsSpace(s[0]) then
      "_" + SquashSpaces(TrimStart(s[1..]))
    else [s[0]] + SquashSpaces(s[1..])
  }

  /** No whitespace survives the replacement. */
  lemma {:induction false} SquashNoSpaces(s: string)
    ensures forall k :: 0 <= k < |SquashSpaces(s)| ==> !IsSpace(SquashSpaces(s)[k])
    decreases |s|
  {
    if s != [] && IsSpace(s[0]) {
      var t := TrimStart(s[1..]);
      SquashNoSpaces(t);
      UnderscoreNotSpace();
      assert SquashSpaces(s) == "_" + SquashSpaces(t);
    } else if s != [] {
      SquashNoSpaces(s[1..]);
      assert SquashSpaces(s) == [s[0]] + SquashSpaces(s[1..]);
    }
  }

  /** A title without whitespace is kept as it is; in particular squashing twice is squashing once. */
  lemma {:induction false} SquashWithoutSpaces(s: string)
    requires forall k :: 0 <= k < |s| ==> !IsSpace(s[k])
    ensures SquashSpaces(s) == s
    decreases |s|
  {
    if s != [] { SquashWithoutSpaces(s[1..]); }
  }

  /**
   * A whitespace run `w` between a whitespace-free `a` and a `b` that does not
   * start with whitespace becomes exactly one `_`.
   */
  lemma {:induction false} SquashRun(a: string, w: string, b: string)
    requires forall k :: 0 <= k < |a| ==> !IsSpace(a[k])
    requires w != [] && forall k :: 0 <= k < |w| ==> IsSpace(w[k])
    requires b == [] || !IsSpace(b[0])
    ensures SquashSpaces(a + (w + b)) == a + ("_" + SquashSpaces(b))
    decreases |a|
  {
    if a == [] {
      assert a + (w + b) == w + b;
      SquashLeadingRun(w, b);
    } else {
      var t, y := a[1..], "_" + SquashSpaces(b);
      assert forall k :: 0 <= k < |t| ==> t[k] == a[k + 1];
      ConsAppend(a, w + b);
      SquashCons(a[0], t + (w + b));
      SquashRun(t, w, b);
      ConsAppend(a, y);
    }
  }

  /** Splitting off the first element of the left operand of a concatenation. */
  lemma ConsAppend(a: string, y: string)
    requires a != []
    ensures a + y == [a[0]] + (a[1..] + y)
  {
    assert a == [a[0]] + a[1..];
  }

  /** A character that is not whitespace is kept as it is. */
  lemma SquashCons(c: char, t: string)
    requires !IsSpace(c)
    ensures SquashSpaces([c] + t) == [c] + SquashSpaces(t)
  {
    var s := [c] + t;
    assert s[0] == c && s[1..] == t;
  }

  /** A leading whitespace run becomes a single `_`. */
  lemma SquashLeadingRun(w: string, b: string)
    requires w != [] && forall k :: 0 <= k < |w| ==> IsSpace(w[k])
    requires b == [] || !IsSpace(b[0])
    ensures SquashSpaces(w + b) == "_" + SquashSpaces(b)
  {
    var v := w[1..];
    assert forall k :: 0 <= k < |v| ==> v[k] == w[k + 1];
    SquashSpaceHead(w, b);
    TrimStartRun(v, b);
  }

  /** A string that starts with whitespace becomes `_` followed by the rest with its leading whitespace dropped. */
  lemma SquashSpaceHead(w: string, b: string)
    requires w != [] && IsSpace(w[0])
    ensures SquashSpaces(w + b) == "_" + SquashSpaces(TrimStart(w[1..] + b))
  {
    var s := w + b;
    assert s[0] == w[0] && s[1..] == w[1..] + b;
  }

  lemma {:induction false} TrimStartRun(w: string, b: string)
    requires forall k :: 0 <= k < |w| ==> IsSpace(w[k])
    requires b == [] || !IsSpace(b[0])
    ensures TrimStart(w + b) == b
    decreases |w|
  {
    var s := w + b;
    if w == [] {
      assert s == b;
    } else {
      assert s[0] == w[0] && IsSpace(s[0]);
      assert s[1..] == w[1..] + b;
      TrimStartRun(w[1..], b);
      assert TrimStart(s) == TrimStart(s[1..]);
    }
  }

  /** The folder: the title (default `eros_manga` when none is passed) with its whitespace runs squashed. */
  function FolderName(title: Option<string>): string {
    SquashSpaces(title.GetOr(DefaultTitle))
  }

  /** The file for image `i` (0-based): always `.jpg`, whatever the image's real type. */
  function FileName(i: nat): string {
    ImagePrefix + (Padded(i + 1) + Jpg)
  }

  /** What every ErosScans file name starts with. */
  const ImagePrefix := "image_"

  /** The extension every ErosScans file gets. */
  const Jpg := ".jpg"

  /** Distinct images get distinct file names. */
  lemma FileNameInjective(i: nat, j: nat)
    ensures FileName(i) == FileName(j) ==> i == j
  {
    FramedNumberInjective(ImagePrefix, Jpg, i + 1, j + 1);
  }

  /** Image `c` ends up on disk: there is a response, of any status, and the write succeeds. */
  predicate Saves(c: Img) {
    (c.fetch.Ok? || c.fetch.NotOk?) && c.writeOk
  }

  /** What one run writes: each saved image's response body under its own number. */
  function Saved(imgs: seq<Img>): map<string, Bytes>
    decreases |imgs|
  {
    if imgs == [] then map[]
    else
      var front, last := imgs[..|imgs| - 1], imgs[|imgs| - 1];
      if Saves(last) then Saved(front)[FileName(|front|) := last.fetch.body] else Saved(front)
  }

  /** The number of images saved. */
  function SavedCount(imgs: seq<Img>): nat
    decreases |imgs|
  {
    if imgs == [] then 0
    else SavedCount(imgs[..|imgs| - 1]) + (if Saves(imgs[|imgs| - 1]) then 1 else 0)
  }

  /** A saved image's body is written under its number. */
  lemma {:induction false} SavedHas(imgs: seq<Img>, i: nat)
    requires i < |imgs| && Saves(imgs[i])
    ensures FileName(i) in Saved(imgs) && Saved(imgs)[FileName(i)] == imgs[i].fetch.body
    decreases |imgs|
  {
    var front, last := imgs[..|imgs| - 1], imgs[|imgs| - 1];
    if i < |front| {
      assert front[i] == imgs[i];
      SavedHas(front, i);
      FileNameInjective(i, |front|);
    }
  }

  /** Every name written is the number of a saved image among the first ones tried. */
  lemma {:induction false} SavedOnly(imgs: seq<Img>, name: string) returns (i: nat)
    requires name in Saved(imgs)
    ensures i < |imgs| && Saves(imgs[i]) && FileName(i) == name
    decreases |imgs|
  {
    assert imgs != [];
    var front, last := imgs[..|imgs| - 1], imgs[|imgs| - 1];
    if Saves(last) && name == FileName(|front|) {
      i := |front|;
    } else {
      assert name in Saved(front);
      i := SavedOnly(front, name);
      assert front[i] == imgs[i];
    }
  }

  /**
   * Naming by index: a saved image's bytes are under its own number, and the
   * number of an image that failed is never used.
   */
  lemma SavedByIndex(imgs: seq<Img>, i: nat)
    requires i < |imgs|
    ensures Saves(imgs[i]) ==> FileName(i) in Saved(imgs) && Saved(imgs)[FileName(i)] == imgs[i].fetch.body
    ensures !Saves(imgs[i]) ==> FileName(i) !in Saved(imgs)
  {
    if Saves(imgs[i]) {
      SavedHas(imgs, i);
    } else if FileName(i) in Saved(imgs) {
      var j := SavedOnly(imgs, FileName(i));
      FileNameInjective(i, j);
    }
  }

  /** The count is the number of files the run wrote. */
  lemma {:induction false} SavedCountIsSize(imgs: seq<Img>)
    ensures |Saved(imgs)| == SavedCount(imgs)
    decreases |imgs|
  {
    if imgs != [] {
      var front := imgs[..|imgs| - 1];
      SavedCountIsSize(front);
      if Saves(imgs[|imgs| - 1]) && FileName(|front|) in Saved(front) {
        var j := SavedOnly(front, FileName(|front|));
        FileNameInjective(j, |front|);
      }
    }
  }

  /** 0 <= count <= number of images, with equality exactly when all or none are saved. */
  lemma {:induction false} SavedCountBounds(imgs: seq<Img>)
    ensures SavedCount(imgs) <= |imgs|
    ensures SavedCount(imgs) == |imgs| <==> forall k :: 0 <= k < |imgs| ==> Saves(imgs[k])
    ensures SavedCount(imgs) == 0 <==> forall k :: 0 <= k < |imgs| ==> !Saves(imgs[k])
    decreases |imgs|
  {
    if imgs != [] {
      var front := imgs[..|imgs| - 1];
      SavedCountBounds(front);
      assert forall k :: 0 <= k < |front| ==> front[k] == imgs[k];
    }
  }

  /** Without an `ok()` check, an error page's body is saved like an image. */
  lemma NonOkBodiesCounted(imgs: seq<Img>, i: nat)
    requires i < |imgs| && imgs[i].fetch.NotOk? && imgs[i].writeOk
    ensures FileName(i) in Saved(imgs) && Saved(imgs)[FileName(i)] == imgs[i].fetch.body
  {
    SavedHas(imgs, i);
  }

  lemma SavedStep(imgs: seq<Img>, i: nat)
    requires i < |imgs|
    ensures Saved(imgs[..i + 1]) ==
      if Saves(imgs[i]) then Saved(imgs[..i])[FileName(i) := imgs[i].fetch.body] else Saved(imgs[..i])
    ensures SavedCount(imgs[..i + 1]) == SavedCount(imgs[..i]) + if Saves(imgs[i]) then 1 else 0
    ensures Srcs(imgs[..i + 1]) == Srcs(imgs[..i]) + [imgs[i].src]
  {
    var p := imgs[..i + 1];
    assert p[..|p| - 1] == imgs[..i];
    assert p[|p| - 1] == imgs[i];
  }

  /**
   * The download loop: every image is requested in order; a missing response
   * or a thrown error skips it and the loop goes on; the count is the number of
   * files written.
   */
  method DownloadAll(imgs: seq<Img>, dir0: map<string, Bytes>)
    returns (count: nat, files: map<string, Bytes>, requested: seq<string>)
    ensures requested == Srcs(imgs)
    ensures count == SavedCount(imgs) == |Saved(imgs)|
    ensures files == dir0 + Saved(imgs)
  {
    count, files, requested := 0, dir0, [];
    for i := 0 to |imgs|
      invariant requested == Srcs(imgs[..i])
      invariant count == SavedCount(imgs[..i])
      invariant files == dir0 + Saved(imgs[..i])
    {
      var img := imgs[i];
      SavedStep(imgs, i);
      var name := FileName(i);
      requested := requested + [img.src];
      if (img.fetch.Ok? || img.fetch.NotOk?) && img.writeOk {
        MergeUpdate(dir0, Saved(imgs[..i]), name, img.fetch.body);
        files := files[name := img.fetch.body];
        count := count + 1;
      }
    }
    assert imgs[..|imgs|] == imgs;
    SavedCountIsSize(imgs);
  }

  /**
   * `scrapeErosScans({url, title})`. A failed navigation is caught and closes
   * the browser; a failure after it (scrolling, the selector query, creating
   * the folder) rejects the promise with the browser left open. Otherwise the
   * result is a success, also when no image matched.
   */
  method Scrape(page: PageLoad, title: Option<string>, dirError: Option<string>, dir0: map<string, Bytes>)
    returns (run: Run)
    ensures page.NavigationFailed? ==>
      run == Run(Returned(ScrapeResult(false, None, Some(page.message))), None, dir0, [], true)
    ensures page.RenderFailed? ==> run == Run(Rejected(page.message), None, dir0, [], false)
    ensures page.Rendered? && dirError.Some? ==> run == Run(Rejected(dirError.value), None, dir0, [], false)
    ensures page.Rendered? && dirError.None? ==>
      run == Run(Returned(ScrapeResult(true, Some(SavedCount(page.imgs)), None)),
                 Some(FolderName(title)), dir0 + Saved(page.imgs), Srcs(page.imgs), true)
  {
    match page {
      case NavigationFailed(m) =>
        return Run(Returned(ScrapeResult(false, None, Some(m))), None, dir0, [], true);
      case RenderFailed(m) =>
        return Run(Rejected(m), None, dir0, [], false);
      case Rendered(imgLinks) =>
        if dirError.Some? {
          return Run(Rejected(dirError.value), None, dir0, [], false);
        }
        var count, files, requested := DownloadAll(imgLinks, dir0);
        return Run(Returned(ScrapeResult(true, Some(count), None)), Some(FolderName(title)), files, requested, true);
    }
  }
}
