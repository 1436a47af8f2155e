/**
 * The HTTP API (server/index.js). The file holds two versions of the scraper
 * registry, the health route and the `/api/scrape` route one after the other;
 * each version is modelled on its own, as `First…` and `Second…`. A handler
 * receives the JSON body and, when it gets that far, calls one scraper with an
 * options object; how that scraper settles is an input.
 */
module Server {
  import opened Options
  import opened Strings
  import opened Naming
  import opened Browser

  /** The two scraper functions the server imports. */
  datatype Scraper = ErosScans | Asura

  /** An object literal mapping site keys to a scraper or to a `null` placeholder, in key order. */
  type Registry = seq<(string, Option<Scraper>)>

  /** The registry at lines 19-23. */
  const FirstRegistry: Registry :=
    [("erosscans", Some(ErosScans)), ("asurascans", Some(Asura)), ("asura", Some(Asura))]

  /** The registry at lines 90-98: two scrapers and four `null` placeholders. */
  const SecondRegistry: Registry :=
    [("erosscans", Some(ErosScans)), ("asurascans", Some(Asura)),
     ("colamanga", None), ("nhentai", None), ("hentai2read", None), ("hitomi", None)]

  /** `Object.keys(reg)`. */
  function Keys(reg: Registry): (r: seq<string>)
    ensures |r| == |reg| && forall k :: 0 <= k < |reg| ==> r[k] == reg[k].0
  {
    seq(|reg|, k requires 0 <= k < |reg| => reg[k].0)
  }

  predicate UniqueKeys(reg: Registry) {
    forall i, j :: 0 <= i < j < |reg| ==> reg[i].0 != reg[j].0
  }

  /** `reg[key]`, read as a scraper: `None` for a missing key and for a `null` placeholder alike. */
  function Lookup(reg: Registry, key: string): Option<Scraper>
    decreases |reg|
  {
    if reg == [] then None else if reg[0].0 == key then reg[0].1 else Lookup(reg[1..], key)
  }

  /** A key without an entry finds nothing. */
  lemma {:induction false} LookupMissing(reg: Registry, key: string)
    requires forall i :: 0 <= i < |reg| ==> reg[i].0 != key
    ensures Lookup(reg, key) == None
    decreases |reg|
  {
    if reg != [] {
      assert reg[0].0 != key;
      LookupMissing(reg[1..], key);
    }
  }

  /** With distinct keys, looking up an entry's key finds that entry's value. */
  lemma {:induction false} LookupEntry(reg: Registry, i: nat)
    requires UniqueKeys(reg) && i < |reg|
    ensures Lookup(reg, reg[i].0) == reg[i].1
    decreases |reg|
  {
    if i > 0 {
      assert reg[0].0 != reg[i].0;
      assert reg[1..][i - 1] == reg[i];
      LookupEntry(reg[1..], i - 1);
    }
  }

  /** The keys whose value is not `null`, in key order: the `availableScrapers` filter. */
  function Available(reg: Registry): (r: seq<string>)
    ensures |r| <= |reg|
    decreases |reg|
  {
    if reg == [] then []
    else (if reg[0].1.Some? then [reg[0].0] else []) + Available(reg[1..])
  }

  /** With distinct keys, a key is listed as available exactly when a request for it finds a scraper. */
  lemma {:induction false} AvailableExact(reg: Registry, key: string)
    requires UniqueKeys(reg)
    ensures key in Available(reg) <==> Lookup(reg, key).Some?
    decreases |reg|
  {
    if reg != [] {
      var tail := reg[1..];
      assert UniqueKeys(tail) by {
        forall i, j | 0 <= i < j < |tail| ensures tail[i].0 != tail[j].0 {
          assert tail[i] == reg[i + 1] && tail[j] == reg[j + 1];
        }
      }
      AvailableExact(tail, key);
      if reg[0].0 == key {
        forall i | 0 <= i < |tail| ensures tail[i].0 != key {
          assert tail[i] == reg[i + 1];
        }
        LookupMissing(tail, key);
      }
    }
  }

  lemma {:induction false} AvailableNone(reg: Registry)
    requires forall i :: 0 <= i < |reg| ==> reg[i].1 == None
    ensures Available(reg) == []
    decreases |reg|
  {
    if reg != [] {
      assert reg[0].1 == None;
      AvailableNone(reg[1..]);
    }
  }

  /** The first health route lists every key of its registry, `asura` included. */
  lemma FirstHealth()
    ensures Keys(FirstRegistry) == ["erosscans", "asurascans", "asura"]
  {
  }

  /** The second health route lists only the keys that have a scraper. */
  lemma SecondHealth()
    ensures Available(SecondRegistry) == ["erosscans", "asurascans"]
  {
    var tail := SecondRegistry[2..];
    AvailableNone(tail);
    assert SecondRegistry[1..][1..] == tail;
  }

  /** Both registries have distinct keys; the placeholders and `asura` are absent from the second. */
  lemma RegistryFacts()
    ensures UniqueKeys(FirstRegistry) && UniqueKeys(SecondRegistry)
    ensures Lookup(SecondRegistry, "colamanga") == None && Lookup(SecondRegistry, "nhentai") == None
    ensures Lookup(SecondRegistry, "hentai2read") == None && Lookup(SecondRegistry, "hitomi") == None
    ensures Lookup(SecondRegistry, "asura") == None
    ensures Lookup(FirstRegistry, "asura") == Some(Asura)
  {
    assert UniqueKeys(SecondRegistry);
    LookupEntry(SecondRegistry, 2);
    LookupEntry(SecondRegistry, 3);
    LookupEntry(SecondRegistry, 4);
    LookupEntry(SecondRegistry, 5);
    LookupMissing(SecondRegistry, "asura");
    LookupEntry(FirstRegistry, 2);
  }

  /** The characters `[a-zA-Z0-9_-]` that the second handler keeps in a title. */
  predicate SafeChar(c: char) {
    'a' <= c <= 'z' || 'A' <= c <= 'Z' || '0' <= c <= '9' || c == '_' || c == '-'
  }

  predicate SafeName(s: string) {
    forall k :: 0 <= k < |s| ==> SafeChar(s[k])
  }

  /** `s.replace(/[^a-zA-Z0-9_-]/g, '_')`: one for one, so the length is kept. */
  function Sanitize(s: string): (r: string)
    ensures |r| == |s| && SafeName(r)
  {
    seq(|s|, k requires 0 <= k < |s| => if SafeChar(s[k]) then s[k] else '_')
  }

  /**
   * A sanitised title keeps every allowed character in place, replaces each
   * other one by `_`, and contains no `/` or `.`, so it is a single path segment
   * that cannot be `.` or `..`.
   */
  lemma SanitizeChars(s: string)
    ensures forall k :: 0 <= k < |s| ==> Sanitize(s)[k] == if SafeChar(s[k]) then s[k] else '_'
    ensures '/' !in Sanitize(s) && '.' !in Sanitize(s)
  {
  }

  /** Sanitising an already safe title changes nothing, so sanitising twice is sanitising once. */
  lemma SanitizeSafe(s: string)
    requires SafeName(s)
    ensures Sanitize(s) == s
  {
  }

  /** The last piece that is not empty, as `parts.filter(Boolean)[parts.length - 1]`. */
  function LastNonEmpty(pieces: seq<string>): (r: Option<string>)
    ensures r.Some? ==> r.value != [] && r.value in pieces
    ensures r.None? ==> forall k :: 0 <= k < |pieces| ==> pieces[k] == []
    decreases |pieces|
  {
    if pieces == [] then None
    else if pieces[|pieces| - 1] != [] then Some(pieces[|pieces| - 1])
    else LastNonEmpty(pieces[..|pieces| - 1])
  }

  lemma {:induction false} LastNonEmptyConcat(xs: seq<string>, ys: seq<string>)
    ensures LastNonEmpty(xs + ys) == if LastNonEmpty(ys).Some? then LastNonEmpty(ys) else LastNonEmpty(xs)
    decreases |ys|
  {
    if ys == [] {
      assert xs + ys == xs;
    } else {
      var zs := xs + ys;
      assert zs[|zs| - 1] == ys[|ys| - 1];
      assert zs[..|zs| - 1] == xs + ys[..|ys| - 1];
      LastNonEmptyConcat(xs, ys[..|ys| - 1]);
    }
  }

  /** The last non-empty `/`-separated segment of a pathname, if any. */
  function LastSegment(pathname: string): (r: Option<string>)
    ensures r.Some? ==> r.value != [] && '/' !in r.value
  {
    LastNonEmpty(Split(pathname, '/'))
  }

  /** The segment after the last `/` is the title when it is not empty. */
  lemma LastSegmentAfterSlash(dir: string, seg: string)
    requires seg != [] && '/' !in seg
    ensures LastSegment(dir + "/" + seg) == Some(seg)
  {
    SplitConcat(dir, seg, '/');
    SplitWithoutSep(seg, '/');
    LastNonEmptyConcat(Split(dir, '/'), [seg]);
  }

  /** A trailing `/` does not change the title: `/manga/x/` and `/manga/x` give the same one. */
  lemma LastSegmentTrailingSlash(p: string)
    ensures LastSegment(p + "/") == LastSegment(p)
  {
    SplitConcat(p, "", '/');
    assert p + "/" == p + ['/'] + "";
    LastNonEmptyConcat(Split(p, '/'), [""]);
  }

  /** The folder title of the second handler: the last path segment, else `${site}_manga`, sanitised. */
  function SecondTitle(pathname: string, site: string): (r: string)
    ensures SafeName(r) && '/' !in r && '.' !in r
    ensures r != []
  {
    var raw := match LastSegment(pathname) case Some(seg) => seg case None => site + "_manga";
    SanitizeChars(raw);
    Sanitize(raw)
  }

  /** The JSON body of a scrape request. Absent and `null` fields are `None`. */
  datatype Request = Request(
    url: Option<string>,
    site: Option<string>,
    title: Option<string>,
    chapterStart: Option<int>,
    chapterEnd: Option<int>)

  /** A string field is truthy: present and not empty. */
  predicate Present(s: Option<string>) {
    s.Some? && s.value != ""
  }

  /** A number field is truthy: present and not zero (`NaN` arrives as `null`). */
  predicate Given(n: Option<int>) {
    n.Some? && n.value != 0
  }

  /** The options object a scraper is called with. */
  datatype ScrapeOptions = ScrapeOptions(url: string, title: string, chapterStart: Option<int>, chapterEnd: Option<int>)

  datatype Call = Call(scraper: Scraper, options: ScrapeOptions)

  /** The JSON bodies the routes send. */
  datatype Body =
    | Refused(error: string)          // `{success: false, error}`
    | Completed(count: Option<nat>)   // `{status: 'success', message: 'Download completed', result: {count}}`
    | Failed(message: string)         // `{status: 'error', message}`

  datatype Response = Response(status: int, body: Body)

  const Required := "URL and site are required"
  const DownloadFailed := "Download failed"

  /**
   * The first `/api/scrape` handler (lines 35-83). `now` is `Date.now()`.
   * The title is passed to the scraper as given, without sanitising.
   */
  method HandleFirst(req: Request, now: nat, outcome: ScrapeOutcome) returns (resp: Response, call: Option<Call>)
    ensures !Present(req.url) || !Present(req.site) ==> resp == Response(400, Refused(Required)) && call == None
    ensures Present(req.url) && Present(req.site) && Lookup(FirstRegistry, Lower(req.site.value)) == None ==>
      resp == Response(400, Refused("Unsupported site: " + req.site.value)) && call == None
    ensures call.Some? <==>
      Present(req.url) && Present(req.site) && Lookup(FirstRegistry, Lower(req.site.value)).Some?
    ensures call.Some? ==> call.value == Call(
      Lookup(FirstRegistry, Lower(req.site.value)).value,
      ScrapeOptions(req.url.value, if Present(req.title) then req.title.value else "manga-" + NatToString(now),
                    req.chapterStart, req.chapterEnd))
    ensures call.Some? && outcome.Returned? && outcome.result.success ==>
      resp == Response(200, Completed(outcome.result.count))
    ensures call.Some? && outcome.Returned? && !outcome.result.success ==>
      resp == Response(500, Failed(if Present(outcome.result.error) then outcome.result.error.value else DownloadFailed))
    ensures call.Some? && outcome.Rejected? ==> resp == Response(500, Failed(outcome.message))
    ensures resp.status == 200 <==> call.Some? && outcome.Returned? && outcome.result.success
  {
    if !Present(req.url) || !Present(req.site) {
      return Response(400, Refused(Required)), None;
    }
    var site := req.site.value;
    var scraper := Lookup(FirstRegistry, Lower(site));
    if scraper.None? {
      return Response(400, Refused("Unsupported site: " + site)), None;
    }
    var title := if Present(req.title) then req.title.value else "manga-" + NatToString(now);
    call := Some(Call(scraper.value, ScrapeOptions(req.url.value, title, req.chapterStart, req.chapterEnd)));
    match outcome {
      case Returned(result) =>
        if result.success {
          resp := Response(200, Completed(result.count));
        } else {
          resp := Response(500, Failed(if Present(result.error) then result.error.value else DownloadFailed));
        }
      case Rejected(message) =>
        resp := Response(500, Failed(message));
    }
  }

  /**
   * The second `/api/scrape` handler (lines 110-174). A url that `new URL`
   * rejects throws inside the `try`, which answers 500 with the parser's
   * message, `Invalid URL`.
   */
  method HandleSecond(parse: UrlParser, req: Request, outcome: ScrapeOutcome) returns (resp: Response, call: Option<Call>)
    ensures !Present(req.url) || !Present(req.site) ==> resp == Response(400, Failed(Required)) && call == None
    ensures Present(req.url) && Present(req.site) && Lookup(SecondRegistry, Lower(req.site.value)) == None ==>
      resp == Response(400, Failed("Scraper for " + req.site.value + " is not available yet")) && call == None
    ensures (Present(req.url) && Present(req.site) && Lookup(SecondRegistry, Lower(req.site.value)).Some? &&
             parse(req.url.value).None?) ==> resp == Response(500, Failed("Invalid URL")) && call == None
    ensures call.Some? <==>
      Present(req.url) && Present(req.site) && Lookup(SecondRegistry, Lower(req.site.value)).Some? &&
      parse(req.url.value).Some?
    ensures call.Some? ==> call.value == Call(
      Lookup(SecondRegistry, Lower(req.site.value)).value,
      ScrapeOptions(req.url.value, SecondTitle(parse(req.url.value).value.pathname, req.site.value),
                    if Given(req.chapterStart) then req.chapterStart else None,
                    if Given(req.chapterStart) && Given(req.chapterEnd) then req.chapterEnd else None))
    ensures call.Some? ==> SafeName(call.value.options.title)
    ensures call.Some? && outcome.Returned? && outcome.result.success ==>
      resp == Response(200, Completed(Some(outcome.result.count.GetOr(0))))
    ensures call.Some? && outcome.Returned? && !outcome.result.success ==> resp == Response(500, Failed(DownloadFailed))
    ensures call.Some? && outcome.Rejected? ==>
      resp == Response(500, Failed(if outcome.message != "" then outcome.message else "Internal server error"))
    ensures resp.status == 200 <==> call.Some? && outcome.Returned? && outcome.result.success
  {
    if !Present(req.url) || !Present(req.site) {
      return Response(400, Failed(Required)), None;
    }
    var url, site := req.url.value, req.site.value;
    var scraper := Lookup(SecondRegistry, Lower(site));
    if scraper.None? {
      return Response(400, Failed("Scraper for " + site + " is not available yet")), None;
    }
    var parts := parse(url);
    if parts.None? {
      return Response(500, Failed("Invalid URL")), None;
    }
    var options := ScrapeOptions(url, SecondTitle(parts.value.pathname, site), None, None);
    if Given(req.chapterStart) {
      options := options.(chapterStart := req.chapterStart);
      if Given(req.chapterEnd) {
        options := options.(chapterEnd := req.chapterEnd);
      }
    }
    call := Some(Call(scraper.value, options));
    match outcome {
      case Returned(result) =>
        if result.success {
          resp := Response(200, Completed(Some(result.count.GetOr(0))));
        } else {
          resp := Response(500, Failed(DownloadFailed));
        }
      case Rejected(message) =>
        resp := Response(500, Failed(if message != "" then message else "Internal server error"));
    }
  }

  /**
   * The first handler looks the site up through `site.toLowerCase()`: two requests whose `site`
   * differs only in letter case make the same scraper call, and answer alike whenever a scraper
   * is found. Only the 400 for an unknown site echoes the site as it was sent.
   */
  method FirstIgnoresSiteCase(req: Request, site: string, now: nat, outcome: ScrapeOutcome)
    returns (resp1: Response, call1: Option<Call>, resp2: Response, call2: Option<Call>)
    requires Present(req.site) && Lower(site) == Lower(req.site.value)
    ensures call1 == call2
    ensures call1.Some? ==> resp1 == resp2
    ensures resp1.status == resp2.status
  {
    resp1, call1 := HandleFirst(req, now, outcome);
    resp2, call2 := HandleFirst(req.(site := Some(site)), now, outcome);
  }

  /**
   * The same for the second handler: the same scraper is called with the same url and chapters,
   * and the answers agree whenever it is called. The title is the same when the url has a last
   * path segment; otherwise it is `${site}_manga` with the site as it was sent.
   */
  method SecondIgnoresSiteCase(parse: UrlParser, req: Request, site: string, outcome: ScrapeOutcome)
    returns (resp1: Response, call1: Option<Call>, resp2: Response, call2: Option<Call>)
    requires Present(req.site) && Lower(site) == Lower(req.site.value)
    ensures call1.Some? <==> call2.Some?
    ensures call1.Some? ==>
              call1.value.scraper == call2.value.scraper &&
              call2.value.options == call1.value.options.(title := call2.value.options.title)
    ensures req.url.Some? && parse(req.url.value).Some? && LastSegment(parse(req.url.value).value.pathname).Some? ==>
      call1 == call2
    ensures call1.Some? ==> resp1 == resp2
    ensures resp1.status == resp2.status
  {
    resp1, call1 := HandleSecond(parse, req, outcome);
    resp2, call2 := HandleSecond(parse, req.(site := Some(site)), outcome);
  }
}
