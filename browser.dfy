/**
 * What the scrapers see of the headless browser, the network and the
 * filesystem. Each of these is an input to the model: the parse result of a
 * URL, the outcome of navigating to a page, the outcome of fetching each image
 * and whether writing it succeeds. A chapter folder is a map from file name to
 * bytes.
 */
module Browser {
  import opened Options

  type Bytes = seq<bv8>

  /** The fields of a parsed URL that the core reads. */
  datatype UrlParts = UrlParts(protocol: string, host: string, hostname: string, pathname: string, origin: string)

  /** `new URL(s)`: the parts of `s`, or `None` when the constructor throws. */
  type UrlParser = string -> Option<UrlParts>

  /** Result of `page.goto(imageUrl)` followed by `response.body()`. */
  datatype Fetch =
    | Ok(body: Bytes)          // a response whose `ok()` holds (status 200-299)
    | NotOk(body: Bytes)       // a response with any other status; its body can still be read
    | NoResponse               // `page.goto` resolved to `null`
    | Threw(message: string)   // navigation to the image or reading its body rejected

  /**
   * One `img` element in document order: its resolved `src`, and what fetching
   * that src and writing the bytes to disk would do in this run.
   */
  datatype Img = Img(src: string, fetch: Fetch, writeOk: bool)

  /** What loading a chapter page yields. */
  datatype PageLoad =
    | NavigationFailed(message: string)   // `page.goto(url)` rejected (timeout, network error)
    | RenderFailed(message: string)       // a later step before extraction rejected (`waitForSelector`, `evaluate`, `$$eval`)
    | Rendered(imgs: seq<Img>)            // the images the page's selector matched, in document order

  /** The object a scraper resolves to: `{success, count?, error?}`. */
  datatype ScrapeResult = ScrapeResult(success: bool, count: Option<nat>, error: Option<string>)

  /** How a scraper's promise settles. */
  datatype ScrapeOutcome = Returned(result: ScrapeResult) | Rejected(message: string)

  /**
   * Everything one scraper invocation does: how it settles, the folder it
   * created (if any), the folder's contents afterwards, the image URLs it
   * requested in order, and whether it closed the browser.
   */
  datatype Run = Run(
    outcome: ScrapeOutcome,
    folder: Option<string>,
    files: map<string, Bytes>,
    requested: seq<string>,
    closed: bool)

  /** The srcs of a list of images, in order. */
  function Srcs(imgs: seq<Img>): (r: seq<string>)
    ensures |r| == |imgs| && forall k :: 0 <= k < |imgs| ==> r[k] == imgs[k].src
  {
    seq(|imgs|, k requires 0 <= k < |imgs| => imgs[k].src)
  }

  /** Writing a file into a folder that starts as `a` with the files `b` added is adding it to `b`. */
  lemma MergeUpdate<K, V>(a: map<K, V>, b: map<K, V>, k: K, v: V)
    ensures (a + b)[k := v] == a + b[k := v]
  {
  }
}
