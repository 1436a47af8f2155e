/**
 * The AsuraScans scraper (scrapers/asura.js): select the chapter's page images
 * from every `img` src, then fetch each one in order and write it as
 * `page-NNN<ext>` into `downloads/<title>`, skipping any image that fails.
 */
module Asura {
  import opened Options
  import opened Strings
  import opened Seqs
  import opened Naming
  import opened Paths
  import opened Browser

  /** The src filter: non-empty, an image extension somewhere, and no logo or banner. */
  predicate IsPageSrc(src: string) {
    src != "" &&
    (Contains(src, ".jpg") || Contains(src, ".png") || Contains(src, ".webp")) &&
    !Contains(src, "logo") && !Contains(src, "banner")
  }

  /** The candidates: exactly the images whose src passes the filter, in document order. */
  function Candidates(imgs: seq<Img>): (c: seq<Img>)
    ensures IsSubsequence(c, imgs)
    ensures forall k :: 0 <= k < |c| ==> c[k] in imgs && IsPageSrc(c[k].src)
    ensures forall k :: 0 <= k < |imgs| && IsPageSrc(imgs[k].src) ==> imgs[k] in c
    ensures forall x :: multiset(c)[x] == if IsPageSrc(x.src) then multiset(imgs)[x] else 0
  {
    FilterCounts((img: Img) => IsPageSrc(img.src), imgs);
    Filter((img: Img) => IsPageSrc(img.src), imgs)
  }

  const FallbackExt := ".jpg"

  /**
   * `path.extname(new URL(src).pathname) || '.jpg'`; `None` when the URL
   * constructor throws. The pathname excludes the query string.
   */
  function Extension(parse: UrlParser, src: string): (r: Option<string>)
    ensures r.Some? <==> parse(src).Some?
    ensures r.Some? ==> r.value != [] && r.value[0] == '.'
    ensures r.Some? && Extname(parse(src).value.pathname) != "" ==> r.value == Extname(parse(src).value.pathname)
    ensures r.Some? && Extname(parse(src).value.pathname) == "" ==> r.value == FallbackExt
  {
    match parse(src)
    case None => None
    case Some(u) => Some(if Extname(u.pathname) == "" then FallbackExt else Extname(u.pathname))
  }

  /** The file for candidate `i` (0-based): `page-` and the 1-based number padded to three digits. */
  function FileName(i: nat, ext: string): string {
    PagePrefix + (Padded(i + 1) + ext)
  }

  /** What every AsuraScans file name starts with. */
  const PagePrefix := "page-"

  /** Two candidates' file names coincide only when they are the same candidate with the same extension. */
  lemma FileNameInjective(i: nat, j: nat, e1: string, e2: string)
    requires e1 != [] && e1[0] == '.' && e2 != [] && e2[0] == '.'
    ensures FileName(i, e1) == FileName(j, e2) ==> i == j && e1 == e2
  {
    NumberedNameInjective(PagePrefix, i + 1, j + 1, e1, e2);
  }

  /** Candidate `c` ends up on disk: its response is ok, its src parses and the write succeeds. */
  predicate Saves(parse: UrlParser, c: Img) {
    c.fetch.Ok? && parse(c.src).Some? && c.writeOk
  }

  /** The name under which candidate `i` is saved. */
  function NameOf(parse: UrlParser, cands: seq<Img>, i: nat): string
    requires i < |cands| && Saves(parse, cands[i])
  {
    FileName(i, Extension(parse, cands[i].src).value)
  }

  /** What one run writes: each saved candidate's bytes under its own number, in candidate order. */
  function Saved(parse: UrlParser, cands: seq<Img>): map<string, Bytes>
    decreases |cands|
  {
    if cands == [] then map[]
    else
      var front, last := cands[..|cands| - 1], cands[|cands| - 1];
      if Saves(parse, last) then Saved(parse, front)[FileName(|front|, Extension(parse, last.src).value) := last.fetch.body]
      else Saved(parse, front)
  }

  /** The number of candidates saved. */
  function SavedCount(parse: UrlParser, cands: seq<Img>): nat
    decreases |cands|
  {
    if cands == [] then 0
    else SavedCount(parse, cands[..|cands| - 1]) + (if Saves(parse, cands[|cands| - 1]) then 1 else 0)
  }

  /** A saved candidate's bytes are written under its name; the first half of naming by index. */
  lemma {:induction false} SavedHas(parse: UrlParser, cs: seq<Img>, i: nat)
    requires i < |cs| && Saves(parse, cs[i])
    ensures NameOf(parse, cs, i) in Saved(parse, cs) && Saved(parse, cs)[NameOf(parse, cs, i)] == cs[i].fetch.body
    decreases |cs|
  {
    var front, last := cs[..|cs| - 1], cs[|cs| - 1];
    if i < |front| {
      assert front[i] == cs[i];
      SavedHas(parse, front, i);
      assert NameOf(parse, front, i) == NameOf(parse, cs, i);
      if Saves(parse, last) {
        FileNameInjective(i, |front|, Extension(parse, cs[i].src).value, Extension(parse, last.src).value);
      }
    }
  }

  /** Every name a run writes belongs to a saved candidate, returned as `i`; the second half of naming by index. */
  lemma {:induction false} SavedOnly(parse: UrlParser, cs: seq<Img>, name: string) returns (i: nat)
    requires name in Saved(parse, cs)
    ensures i < |cs| && Saves(parse, cs[i]) && NameOf(parse, cs, i) == name
    decreases |cs|
  {
    assert cs != [];
    var front, last := cs[..|cs| - 1], cs[|cs| - 1];
    if Saves(parse, last) && name == FileName(|front|, Extension(parse, last.src).value) {
      i := |front|;
    } else {
      assert name in Saved(parse, front);
      i := SavedOnly(parse, front, name);
      assert front[i] == cs[i];
    }
  }

  /** A candidate not yet tried has no file among those already written. */
  lemma SavedSnoc(parse: UrlParser, cs: seq<Img>, c: Img)
    requires Saves(parse, c)
    ensures FileName(|cs|, Extension(parse, c.src).value) !in Saved(parse, cs)
  {
    var name := FileName(|cs|, Extension(parse, c.src).value);
    if name in Saved(parse, cs) {
      var i := SavedOnly(parse, cs, name);
      FileNameInjective(i, |cs|, Extension(parse, cs[i].src).value, Extension(parse, c.src).value);
    }
  }

  /** The count is the number of files the run wrote. */
  lemma {:induction false} SavedCountIsSize(parse: UrlParser, cs: seq<Img>)
    ensures |Saved(parse, cs)| == SavedCount(parse, cs)
    decreases |cs|
  {
    if cs != [] {
      var front, c := cs[..|cs| - 1], cs[|cs| - 1];
      assert cs == front + [c];
      SavedCountIsSize(parse, front);
      if Saves(parse, c) { SavedSnoc(parse, front, c); }
    }
  }

  /**
   * The count lies between 0 and the number of candidates: it is the number of
   * candidates exactly when every one is saved, and 0 exactly when none is.
   */
  lemma {:induction false} SavedCountBounds(parse: UrlParser, cs: seq<Img>)
    ensures SavedCount(parse, cs) <= |cs|
    ensures SavedCount(parse, cs) == |cs| <==> forall k :: 0 <= k < |cs| ==> Saves(parse, cs[k])
    ensures SavedCount(parse, cs) == 0 <==> forall k :: 0 <= k < |cs| ==> !Saves(parse, cs[k])
    decreases |cs|
  {
    if cs != [] {
      var front := cs[..|cs| - 1];
      SavedCountBounds(parse, front);
      assert forall k :: 0 <= k < |front| ==> front[k] == cs[k];
    }
  }

  /**
   * Ordering and slot use: a saved candidate's bytes are found under its own
   * number; a candidate that failed leaves its number unused whatever the
   * extension, so later candidates are never renumbered into the gap.
   */
  lemma SavedByIndex(parse: UrlParser, cs: seq<Img>, i: nat)
    requires i < |cs|
    ensures Saves(parse, cs[i]) ==>
      NameOf(parse, cs, i) in Saved(parse, cs) && Saved(parse, cs)[NameOf(parse, cs, i)] == cs[i].fetch.body
    ensures !Saves(parse, cs[i]) ==>
      forall ext :: ext != [] && ext[0] == '.' ==> FileName(i, ext) !in Saved(parse, cs)
  {
    if Saves(parse, cs[i]) {
      SavedHas(parse, cs, i);
    } else {
      forall ext | ext != [] && ext[0] == '.' ensures FileName(i, ext) !in Saved(parse, cs) {
        if FileName(i, ext) in Saved(parse, cs) {
          var j := SavedOnly(parse, cs, FileName(i, ext));
          FileNameInjective(i, j, ext, Extension(parse, cs[j].src).value);
        }
      }
    }
  }

  /** One more loop iteration: the effect of candidate `i` on what has been written and counted so far. */
  lemma SavedStep(parse: UrlParser, cands: seq<Img>, i: nat)
    requires i < |cands|
    ensures Saved(parse, cands[..i + 1]) ==
      if Saves(parse, cands[i]) then Saved(parse, cands[..i])[FileName(i, Extension(parse, cands[i].src).value) := cands[i].fetch.body]
      else Saved(parse, cands[..i])
    ensures SavedCount(parse, cands[..i + 1]) == SavedCount(parse, cands[..i]) + if Saves(parse, cands[i]) then 1 else 0
    ensures Srcs(cands[..i + 1]) == Srcs(cands[..i]) + [cands[i].src]
  {
    var p := cands[..i + 1];
    assert p[..|p| - 1] == cands[..i];
    assert p[|p| - 1] == cands[i];
  }

  /**
   * The download loop: every candidate is requested, in order; a failure of one
   * image skips it and the loop goes on; the count is the number of images
   * written, and the folder holds its old files overlaid with the saved ones.
   */
  method DownloadAll(parse: UrlParser, cands: seq<Img>, dir0: map<string, Bytes>)
    returns (count: nat, files: map<string, Bytes>, requested: seq<string>)
    ensures requested == Srcs(cands)
    ensures count == SavedCount(parse, cands) == |Saved(parse, cands)|
    ensures files == dir0 + Saved(parse, cands)
  {
    count, files, requested := 0, dir0, [];
    for i := 0 to |cands|
      invariant requested == Srcs(cands[..i])
      invariant count == SavedCount(parse, cands[..i])
      invariant files == dir0 + Saved(parse, cands[..i])
    {
      var img := cands[i];
      SavedStep(parse, cands, i);
      requested := requested + [img.src];
      if img.fetch.Ok? {
        var ext := Extension(parse, img.src);
        if ext.Some? && img.writeOk {
          MergeUpdate(dir0, Saved(parse, cands[..i]), FileName(i, ext.value), img.fetch.body);
          files := files[FileName(i, ext.value) := img.fetch.body];
          count := count + 1;
        }
      }
    }
    assert cands[..|cands|] == cands;
    SavedCountIsSize(parse, cands);
  }

  /** The folder name: the given title, or `asura-manga` when it is missing or empty. */
  function FolderName(title: Option<string>): (r: string)
    ensures r != ""
    ensures title.Some? && title.value != "" ==> r == title.value
  {
    if title.None? || title.value == "" then "asura-manga" else title.value
  }

  /**
   * `scrapeAsura({url, title})` against a page whose outcome is `page`, a
   * folder creation that fails with `dirError` when present, and the folder's
   * previous contents `dir0`. Every exception is caught; only the
   * nothing-found return leaves the browser open.
   */
  method Scrape(parse: UrlParser, page: PageLoad, title: Option<string>, dirError: Option<string>,
                dir0: map<string, Bytes>) returns (run: Run)
    ensures run.outcome.Returned?
    ensures (page.NavigationFailed? || page.RenderFailed?) ==>
      run == Run(Returned(ScrapeResult(false, None, Some(page.message))), None, dir0, [], true)
    ensures page.Rendered? && Candidates(page.imgs) == [] ==>
      run == Run(Returned(ScrapeResult(false, Some(0), None)), None, dir0, [], false)
    ensures page.Rendered? && Candidates(page.imgs) != [] && dirError.Some? ==>
      run == Run(Returned(ScrapeResult(false, None, dirError)), None, dir0, [], true)
    ensures page.Rendered? && Candidates(page.imgs) != [] && dirError.None? ==>
      var c := Candidates(page.imgs);
      run == Run(Returned(ScrapeResult(true, Some(SavedCount(parse, c)), None)),
                 Some(FolderName(title)), dir0 + Saved(parse, c), Srcs(c), true)
  {
    match page {
      case NavigationFailed(m) =>
        return Run(Returned(ScrapeResult(false, None, Some(m))), None, dir0, [], true);
      case RenderFailed(m) =>
        return Run(Returned(ScrapeResult(false, None, Some(m))), None, dir0, [], true);
      case Rendered(imgs) =>
        var images := Candidates(imgs);
        if |images| == 0 {
          return Run(Returned(ScrapeResult(false, Some(0), None)), None, dir0, [], false);
        }
        if dirError.Some? {
          return Run(Returned(ScrapeResult(false, None, dirError)), None, dir0, [], true);
        }
        var count, files, requested := DownloadAll(parse, images, dir0);
        return Run(Returned(ScrapeResult(true, Some(count), None)), Some(FolderName(title)), files, requested, true);
    }
  }

  /**
   * Partial-failure tolerance: when exactly one candidate fails, every other one
   * is still saved and the count is one less than the number of candidates.
   */
  lemma {:induction false} OneFailureCount(parse: UrlParser, cs: seq<Img>, j: nat)
    requires j < |cs| && !Saves(parse, cs[j])
    requires forall k :: 0 <= k < |cs| && k != j ==> Saves(parse, cs[k])
    ensures SavedCount(parse, cs) == |cs| - 1
    decreases |cs|
  {
    var front := cs[..|cs| - 1];
    assert forall k :: 0 <= k < |front| ==> front[k] == cs[k];
    if j < |front| {
      OneFailureCount(parse, front, j);
    } else {
      SavedCountBounds(parse, front);
    }
  }

  /**
   * The three result shapes: success with a count no larger than the number of
   * candidates; `{success: false, count: 0}` without an error exactly when the
   * page rendered and no src passed the filter; any other failure carries an error.
   */
  lemma ResultShapes(parse: UrlParser, page: PageLoad, title: Option<string>, dirError: Option<string>,
                     dir0: map<string, Bytes>, run: Run)
    requires run.outcome.Returned?
    requires (page.NavigationFailed? || page.RenderFailed?) ==>
      run == Run(Returned(ScrapeResult(false, None, Some(page.message))), None, dir0, [], true)
    requires page.Rendered? && Candidates(page.imgs) == [] ==>
      run == Run(Returned(ScrapeResult(false, Some(0), None)), None, dir0, [], false)
    requires page.Rendered? && Candidates(page.imgs) != [] && dirError.Some? ==>
      run == Run(Returned(ScrapeResult(false, None, dirError)), None, dir0, [], true)
    requires page.Rendered? && Candidates(page.imgs) != [] && dirError.None? ==>
      var c := Candidates(page.imgs);
      run == Run(Returned(ScrapeResult(true, Some(SavedCount(parse, c)), None)),
                 Some(FolderName(title)), dir0 + Saved(parse, c), Srcs(c), true)
    ensures var r := run.outcome.result;
      (r.success && r.count.Some? && r.error.None? && page.Rendered? &&
         r.count.value <= |Candidates(page.imgs)|) ||
      (!r.success && r.count == Some(0) && r.error.None? && page.Rendered? && Candidates(page.imgs) == []) ||
      (!r.success && r.count.None? && r.error.Some?)
    ensures !run.closed <==> page.Rendered? && Candidates(page.imgs) == []
  {
    if page.Rendered? && Candidates(page.imgs) != [] && dirError.None? {
      SavedCountBounds(parse, Candidates(page.imgs));
    }
  }
}
