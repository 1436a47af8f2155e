# Manga downloader core, modelled in Dafny

The system is a small web application for downloading manga chapters. A React
front end (a site sidebar, an embedded browser frame and a download form) posts
a chapter URL and a site key to an Express server. The server picks a scraper
from a registry. The scraper drives a headless browser over the chapter page,
collects the image URLs and saves every image it can fetch into a folder named
after the chapter.

This project models the deterministic part of that pipeline:

- **Scrapers** (`Asura`, `ErosScans`). Each selects candidate images, names
  candidate *i*'s file deterministically with a zero-padded number, runs the
  download loop, and classifies the run as a result record. The browser,
  network and filesystem are inputs:
  - a `PageLoad` (navigation failed, rendering failed, or the rendered images);
  - for each image, a `Fetch` outcome and a write-success flag;
  - the folder, modelled as a `map<string, Bytes>` that the loop writes into.

  The loop is a method with invariants, proved equal to the specification
  functions `Saved`/`SavedCount`, and the properties are proved about those
  functions. The properties are:
  - the count bounds, with both directions of "all saved" and "none saved";
  - file names are injective and follow the candidate index;
  - nothing else is written;
  - the result shapes;
  - whether the browser was closed.
- **Request dispatch** (`Server`):
  - the two registries;
  - case-insensitive lookup;
  - the health list;
  - title derivation and sanitisation;
  - the two `/api/scrape` handlers.

  Each handler is a method that takes the scraper's settled outcome as input and
  returns the HTTP response and the call it made, if any.
- **UI state** (`MangaIframe`, `DownloadForm`, `Sidebar`, `IndexPage`, with the
  site table in `Sites`). `MangaIframe.Viewer`, `DownloadForm.Form` and
  `IndexPage.Page` are classes whose fields are the components' state. Their
  methods are the event handlers, each with a full "new state" contract.
  - The list updates (history, bookmarks), URL normalisation, zoom, site
    detection and the site filters are functions.
  - Lemmas cover de-duplication, caps, order, round trips, idempotence and
    invariants.

Shared helpers:
- `Strings`: JavaScript `includes`, `startsWith`, ASCII `toLowerCase`, `trim`,
  `replace` and `split`.
- `Naming`: decimal strings, `padStart` and injectivity of padded numbers.
- `Paths`: the used subset of Node's `path.extname`.
- `Seqs`: `filter` and the subsequence relation.
- `Browser`: the environment datatypes.

URL parsing (`new URL`) is a function parameter `parse: string -> Option<UrlParts>`;
its failure is `None`.

Where the code differs from the project's own description, the model follows
the code:
- The browser is not always released. AsuraScans returns early without closing
  it when no image survives the filter (`Asura.ResultShapes`). ErosScans leaves
  it open when a step after navigation rejects, or when creating the folder
  fails.
- An empty ErosScans chapter yields `{success: true, count: 0}`. An empty
  AsuraScans chapter yields `{success: false, count: 0}`.
- File names are `page-NNN<ext>` (AsuraScans) and `image_NNN.jpg` (ErosScans).
  Neither is a bare `NNN.jpg`.
- Only the second handler sanitises the title. The first passes the request's
  title through unchanged.
- The server defines only `/api/scrape`. There is no `/api/download` synonym.
- `server/index.js` declares `const scrapers` and both routes twice, so as
  written the module would not load. The two handlers are modelled separately as
  `Server.HandleFirst` and `Server.HandleSecond`. The model does not decide
  which one would be registered.

## Model

| member | source | states |
|---|---|---|
| Asura.Candidates | scrapers/asura.js:19-24 | the kept images are an order-preserving subsequence of the page's images; an image is kept iff its src is non-empty, contains `.jpg`, `.png` or `.webp`, and contains neither `logo` nor `banner`; every copy of a kept image is kept (repeated srcs are not merged) and no copy of a dropped one |
| Seqs.FilterCounts | scrapers/asura.js:19-24 | `filter` keeps every occurrence of an element that passes and none of one that fails |
| Asura.Extension | scrapers/asura.js:44 | defined iff the src parses as a URL; then it is the `extname` of the pathname (so the query string is ignored), or `.jpg` when that is empty; always starts with `.` |
| Paths.Extname | scrapers/asura.js:44 | the extension is empty or a `.` followed by no further `.` or `/`, and it is a proper suffix of the final path segment |
| Paths.ExtnameValue | scrapers/asura.js:44 | the extension is non-empty iff the final segment's last `.` is not its first character and the segment is not `..`; it then runs from that `.` to the end of the segment |
| Paths.ExtnameOfFile | scrapers/asura.js:44 | a final segment `stem.ext` in any directory has extension `.ext` |
| Paths.ExtnameWithoutDot | scrapers/asura.js:44 | a final segment without a dot has an empty extension, which triggers the `.jpg` fallback |
| Paths.ExtnameOfDotFile | scrapers/asura.js:44 | a dot-file segment has an empty extension |
| Naming.PaddedValue | scrapers/asura.js:45 | `padStart(String(n), 3, '0')` is all digits, at least 3 long, and denotes `n` |
| Naming.PaddedInjective | scrapers/asura.js:45 | distinct numbers give distinct padded strings |
| Asura.FileNameInjective | scrapers/asura.js:45 | `page-NNN<ext>` names are equal only for the same index and the same extension, so names never collide |
| Asura.SavedSnoc | scrapers/asura.js:45 | the name of the next candidate is not among the files already written, so a failed candidate's number is never reused |
| Asura.SavedByIndex | scrapers/asura.js:37-54 | candidate *i* is in the folder under its own number, with its response body, iff it succeeded (ok response, its src parses as a URL, and a successful write); a failure leaves its name absent |
| Asura.SavedCountIsSize | scrapers/asura.js:48 | the count equals the number of files the loop wrote |
| Asura.SavedCountBounds | scrapers/asura.js:37-54 | the count is between 0 and the number of candidates; the count equals the number of candidates iff every one succeeded, and is 0 iff none did |
| Asura.OneFailureCount | scrapers/asura.js:51-53 | a single failing image is skipped and the loop goes on: the count is one less than the number of candidates |
| Asura.DownloadAll | scrapers/asura.js:37-54 | the loop requests every candidate in order; its count is `SavedCount`, equal to the number of files written; the folder afterwards is the old folder plus exactly `Saved` |
| Asura.FolderName | scrapers/asura.js:32 | the folder is the title when it is a non-empty string, otherwise non-empty (the default `asura-manga`) |
| Asura.Scrape | scrapers/asura.js:6-65 | a navigation or rendering failure returns `{success:false, error}`, writes nothing and closes the browser; no candidate returns `{success:false, count:0}`, creates no folder and leaves the browser open; otherwise the folder gets exactly `Saved`, the result is `{success:true, count}` and the browser is closed |
| Asura.ResultShapes | scrapers/asura.js:26-65 | a run's result is one of three shapes: `{success:true, count}` with the count at most the number of candidates; `{success:false, count:0}` with no error, only when no candidate survived; or `{success:false, error}` with no count. The browser stays open iff no candidate survived |
| ErosScans.SquashSpaces | scrapers/erosScans.js:35 | the sanitised title is no longer than the title, and is empty iff the title is |
| ErosScans.SquashNoSpaces | scrapers/erosScans.js:35 | the sanitised title contains no whitespace |
| ErosScans.SquashWithoutSpaces | scrapers/erosScans.js:35 | a title without whitespace is unchanged |
| ErosScans.SquashRun | scrapers/erosScans.js:35 | a maximal run of whitespace between two words becomes one `_` |
| ErosScans.SquashLeadingRun | scrapers/erosScans.js:35 | a whitespace run at the start of the title becomes one `_` |
| ErosScans.TrimStartRun | scrapers/erosScans.js:35 | skipping a whitespace run stops at the first non-space character, which is what makes a run maximal |
| ErosScans.FileNameInjective | scrapers/erosScans.js:42 | `image_NNN.jpg` names are injective in the index |
| ErosScans.SavedByIndex | scrapers/erosScans.js:39-55 | image *i* is saved under its own number with its body iff the response was non-null and the write succeeded; otherwise its name is absent |
| ErosScans.NonOkBodiesCounted | scrapers/erosScans.js:46-50 | there is no `ok()` check: a non-2xx response whose body is written is saved and counted |
| ErosScans.SavedCountIsSize | scrapers/erosScans.js:49 | the count equals the number of files written |
| ErosScans.SavedCountBounds | scrapers/erosScans.js:39-55 | the count is between 0 and the number of images; the count is the full length iff every image was saved, and 0 iff none was |
| ErosScans.DownloadAll | scrapers/erosScans.js:39-55 | requests every src in order; the count is `SavedCount`; the folder afterwards is the old folder plus exactly `Saved` |
| ErosScans.Scrape | scrapers/erosScans.js:6-60 | a navigation failure returns `{success:false, error}`, creates no folder, fetches nothing and closes the browser; a later rejection propagates with the browser open; otherwise every image is a candidate, the folder named by the whitespace-squashed title (default `eros_manga`) gets exactly `Saved`, and the result is `{success:true, count}` even for zero images |
| Server.LookupMissing | server/index.js:121-128 | a key that is not in the registry finds nothing |
| Server.LookupEntry | server/index.js:90-98 | with unique keys, looking up an entry's key yields that entry's value, placeholders included |
| Server.AvailableExact | server/index.js:105 | with unique keys, a key is in the health list iff its registry value is non-null |
| Server.FirstHealth | server/index.js:26-32 | the first health route lists every key of the first registry: `erosscans`, `asurascans`, `asura` |
| Server.SecondHealth | server/index.js:100-107 | the second health route lists exactly `erosscans` and `asurascans`; the four placeholders are filtered out |
| Server.RegistryFacts | server/index.js:90-98 | both registries have unique keys; in the second, the four placeholders and `asura` find nothing; in the first, `asura` finds the AsuraScans scraper |
| Server.Sanitize | server/index.js:140 | sanitising preserves length and yields only `[A-Za-z0-9_-]` |
| Server.SanitizeChars | server/index.js:140 | each character outside `[A-Za-z0-9_-]` is replaced by `_` one for one; the result has no `/` and no `.` |
| Server.SanitizeSafe | server/index.js:140 | a name already made of safe characters is unchanged |
| Server.LastNonEmpty | server/index.js:134-135 | the chosen piece is a non-empty piece of the list; none is chosen only when every piece is empty |
| Server.LastNonEmptyConcat | server/index.js:134-135 | the last non-empty piece of a concatenation comes from its second part when that has one |
| Server.LastSegment | server/index.js:133-135 | the derived segment is non-empty and contains no `/` |
| Server.LastSegmentAfterSlash | server/index.js:133-135 | the last segment of `dir/seg` is `seg` |
| Server.LastSegmentTrailingSlash | server/index.js:133-135 | a trailing `/` does not change the last segment |
| Server.SecondTitle | server/index.js:133-140 | the title passed to the scraper is non-empty and safe, with no `/` or `.` |
| Server.HandleFirst | server/index.js:35-83 | a missing or empty url or site gives 400 and no call; an unknown site gives 400 and no call; otherwise the scraper is called with the request's url and title (or a timestamped default); the status is 200 iff the scraper returned with `success`, and the body carries the scraper's count as given; otherwise 500 with the scraper's error, `Download failed`, or the thrown message |
| Server.HandleSecond | server/index.js:110-174 | the same validation and lookup, with null placeholders refused; an unparsable URL gives 500 and no call; the title is the sanitised last path segment or `<site>_manga`; `chapterStart` is passed only if given, and `chapterEnd` only if both are; the status is 200 iff the scraper returned `success` (count or 0); otherwise 500 with `Download failed`, the thrown message, or `Internal server error` when that message is empty |
| Server.FirstIgnoresSiteCase | server/index.js:46-62 | two requests whose `site` differs only in letter case make the same scraper call, get the same status, and get the same response whenever a scraper is found |
| Server.SecondIgnoresSiteCase | server/index.js:121-135 | two requests whose `site` differs only in letter case call the same scraper with the same url and chapters, get the same status, and the same response whenever the scraper is called; the title agrees whenever the url has a last path segment |
| DownloadForm.FirstMatch | src/components/DownloadForm.tsx:23-28 | the returned rule is the first whose substring the domain contains; none is returned only when no rule matches |
| DownloadForm.DetectSite | src/components/DownloadForm.tsx:19-34 | an unparsable URL gives no site |
| DownloadForm.DetectNone | src/components/DownloadForm.tsx:21-33 | a parsable URL gives no site only when its lowercased hostname matches no rule |
| DownloadForm.DetectFirstRule | src/components/DownloadForm.tsx:23-28 | when rule *i* is the first whose substring the lowercased hostname contains, its site name is detected |
| DownloadForm.DetectedNamesAreKeys | src/components/DownloadForm.tsx:23-28 | every detected site name, lowercased, is a key of the server's second registry |
| DownloadForm.ActiveSite | src/components/DownloadForm.tsx:123-124 | the active site is the detected one when truthy, otherwise the selected one; it is truthy iff either is |
| DownloadForm.ChapterRangeOnlyForPlaceholder | src/components/DownloadForm.tsx:127 | the one site that offers a chapter range, ColaManga, is a null placeholder in the server's second registry |
| DownloadForm.ParseDigits | src/components/DownloadForm.tsx:160-162 | parsing fails iff the text does not start with a digit |
| DownloadForm.ParseDigitsOf | src/components/DownloadForm.tsx:160-162 | a digit run followed by a non-digit parses to the run's value |
| DownloadForm.ParseIntOfNat | src/components/DownloadForm.tsx:160-162 | `parseInt` of a number's decimal text, followed by any non-digit rest, gives back the number |
| DownloadForm.ParseIntOfNegated | src/components/DownloadForm.tsx:160-162 | `parseInt` of `-` followed by a number's text gives its negation |
| DownloadForm.ParseIntUnsigned | src/components/DownloadForm.tsx:160-162 | text starting with a digit is read as its leading digit run |
| DownloadForm.ParseIntNegative | src/components/DownloadForm.tsx:160-162 | text starting with `-` is the negation of the digit run after it, or NaN when none follows |
| DownloadForm.DigitPrefixOf | src/components/DownloadForm.tsx:160-162 | the digit prefix of a digit run followed by a non-digit is that run |
| DownloadForm.ButtonTextDistinct | src/components/DownloadForm.tsx:225-236 | each status has its own non-empty button label |
| DownloadForm.Outcome | src/components/DownloadForm.tsx:176-209 | the form reaches `success` iff the reply is JSON with `status: 'success'`; the message is never empty |
| DownloadForm.OutcomeOfServerBodies | src/components/DownloadForm.tsx:176-200 | a server success gives `Download completed`; a server error shows its message or `Download failed` |
| DownloadForm.BuildPayload | src/components/DownloadForm.tsx:154-164 | the payload has the URL and the lowercased site; `chapterStart` is present only when a range is offered and the field is non-empty, and `chapterEnd` only when `chapterStart` was set and its own field is non-empty; each is `parseInt` of its field |
| DownloadForm.SubmitPayload | src/components/DownloadForm.tsx:129-164 | a request is made iff the trimmed URL is non-empty and some site is active (the detected one, else the selected one); it then carries the trimmed URL, the lowercased active site and the chapter fields as `BuildPayload` gives them |
| DownloadForm.Form.constructor | src/components/DownloadForm.tsx:37-41 | the form starts empty and idle, with no detected site, and `detected` agrees with the URL (`Valid`) |
| DownloadForm.Form.EditUrl | src/components/DownloadForm.tsx:270 | typing sets the URL and re-derives the detected site from it (line 123), so `Valid` holds; nothing else changes |
| DownloadForm.Form.EditChapterStart | src/components/DownloadForm.tsx:314 | typing sets only the start chapter and keeps `Valid` |
| DownloadForm.Form.EditChapterEnd | src/components/DownloadForm.tsx:330 | typing sets only the end chapter and keeps `Valid` |
| DownloadForm.Form.Submit | src/components/DownloadForm.tsx:129-172 | from a `Valid` state (so `detected` is the site detected from the URL): no request when the trimmed URL is empty or no site is active (the detected site, else the selected one), and the status is then unchanged; otherwise the status becomes loading and the payload carries the trimmed URL, the lowercased active site, `chapterStart` only when a range is supported and the field is non-empty, and `chapterEnd` only when the start field was also taken and the end field is non-empty; the fields are unchanged |
| DownloadForm.Form.Finish | src/components/DownloadForm.tsx:174-209 | the status and message become the reply's `Outcome`; the fields are unchanged and `Valid` is kept |
| DownloadForm.Form.ResetAfterSuccess | src/components/DownloadForm.tsx:185-191 | the delayed reset clears every field and returns to idle, with no detected site and `Valid` |
| Strings.TrimBlank | src/components/DownloadForm.tsx:131 | the trimmed URL is empty iff the URL is all whitespace |
| Sidebar.FilteredSites | src/components/Sidebar.tsx:94-100 | a site is listed iff its lowercased name contains the lowercased search, `showAdultOnly` is off or the site is adult, and adult mode is on or the site is not adult; order is preserved and every copy of a listed site is kept |
| Sidebar.EmptySearchKeepsAll | src/components/Sidebar.tsx:95 | an empty search term removes nothing by name |
| Sidebar.AdultModeOff | src/components/Sidebar.tsx:96-97 | with adult mode off no adult site is listed, and with `showAdultOnly` also on the list is empty |
| Sidebar.AdultCount | src/components/Sidebar.tsx:102 | the adult count is at most the number of sites |
| Sidebar.CountsAddUp | src/components/Sidebar.tsx:102-103 | total minus adult is the number of non-adult sites |
| Sidebar.SiteCounts | src/components/Sidebar.tsx:43-103 | of the six sites, four are adult |
| Sites.ShownSites | src/pages/Index.tsx:178-180 | a site is shown iff adult mode is on or it is not adult; order is preserved and every copy of a shown site is kept |
| Sites.ShownSitesModes | src/pages/Index.tsx:178-180 | adult mode shows every site; otherwise no adult site is shown |
| Sites.GeneralSites | src/pages/Index.tsx:31-74 | with adult mode off, exactly the first two sites are shown |
| IndexPage.Page.constructor | src/pages/Index.tsx:77-82 | the initial state: no site, the ColaManga home URL, adult mode off, browser on, no download URL, not downloading |
| IndexPage.Page.SiteSelect | src/pages/Index.tsx:84-87 | selecting a site records its id and navigates to its URL; nothing else changes |
| IndexPage.Page.CaptureUrl | src/pages/Index.tsx:89-95 | the download URL becomes the current URL; nothing else changes |
| IndexPage.Page.PasteFromClipboard | src/pages/Index.tsx:97-120 | clipboard text replaces the download URL only if it starts with `http`; otherwise the state is unchanged |
| IndexPage.Page.StartDownload | src/pages/Index.tsx:122-153 | an empty URL is refused first, then a missing site; a request is made iff both are present, and only then does `isDownloading` become true; a click on an enabled button always makes a request, and the button is disabled while it runs |
| IndexPage.Page.FinishDownload | src/pages/Index.tsx:155-175 | `isDownloading` always returns to false; the download URL is cleared only on an ok response |
| IndexPage.SelectEnables | src/pages/Index.tsx:372 | once a site is chosen and a URL is entered, the button is enabled while idle |
| MangaIframe.Normalize | src/components/MangaIframe.tsx:146-152 | the result always has a protocol; input already starting with `http://` or `https://` is kept, anything else gets `https://` prepended |
| MangaIframe.NormalizeIdempotent | src/components/MangaIframe.tsx:150-152 | normalising twice is the same as normalising once |
| MangaIframe.DomainOf | src/components/MangaIframe.tsx:231-237 | an unparsable URL is returned unchanged; a hostname without `www.` is returned as is; otherwise the first occurrence of `www.`, wherever it is, is cut out and the rest kept |
| MangaIframe.DomainDropsLeadingWww | src/components/MangaIframe.tsx:233 | a hostname `www.rest` gives `rest` |
| MangaIframe.DomainDropsFirstWww | src/components/MangaIframe.tsx:233 | a hostname `a` + `www.` + `b` where `www.` does not occur earlier gives `a` + `b` (`cdn.www.x.com` gives `cdn.x.com`) |
| MangaIframe.HomeUrlOf | src/components/MangaIframe.tsx:239-246 | the home URL is `protocol//host`, or the input unchanged when it does not parse |
| MangaIframe.HomeUrlStable | src/components/MangaIframe.tsx:239-246 | for a parser that reads `protocol//host` back with that protocol and host (`ReadsBackOrigin`, as a WHATWG parser does for http and https URLs), going home from the home URL stays there |
| MangaIframe.HistoryAfter | src/components/MangaIframe.tsx:101-106 | the new entry is first, followed by the previous entries for other URLs, newest first, as many as fit in 50 (the length is one more than their number, capped at 50); no other entry has the new URL |
| MangaIframe.HistoryKeepsOthers | src/components/MangaIframe.tsx:103-105 | below the cap, every entry with a different URL is kept |
| MangaIframe.HistoryDistinct | src/components/MangaIframe.tsx:101-106 | history URLs stay distinct |
| MangaIframe.BookmarksAfter | src/components/MangaIframe.tsx:117-133 | an already bookmarked URL leaves the list unchanged; otherwise the bookmark is prepended and the previous list is truncated to a total of 20, so the length is one more than before, capped at 20; the URL is bookmarked afterwards |
| MangaIframe.BookmarksDistinct | src/components/MangaIframe.tsx:117-133 | bookmark URLs stay distinct |
| MangaIframe.BookmarksWithout | src/components/MangaIframe.tsx:137 | removal deletes exactly the entries with that URL and keeps the others in order |
| MangaIframe.AddThenRemove | src/components/MangaIframe.tsx:117-137 | below the cap, adding a new bookmark and removing it restores the list |
| MangaIframe.RemoveDistinct | src/components/MangaIframe.tsx:137 | removal keeps bookmark URLs distinct |
| MangaIframe.ZoomAfter | src/components/MangaIframe.tsx:194-210 | zoom in is `z+25` up to 200 and exactly 200 when the step would pass it; zoom out is `z-25` down to 50 and exactly 50 when the step would pass it; reset is 100; a level in [50, 200] that is a multiple of 25 stays one |
| MangaIframe.ZoomRoundTrip | src/components/MangaIframe.tsx:198-203 | away from the bounds, zooming in then out (or out then in) returns to the same level |
| MangaIframe.Viewer.constructor | src/components/MangaIframe.tsx:43-50 | the viewer starts at the given URL, zoom 100, with empty history and bookmarks, satisfying the invariant |
| MangaIframe.Viewer.UrlPropChanged | src/components/MangaIframe.tsx:89-92 | a new `url` prop sets both the current and the input URL |
| MangaIframe.Viewer.EditInput | src/components/MangaIframe.tsx:295 | typing changes only the input URL |
| MangaIframe.Viewer.SubmitUrl | src/components/MangaIframe.tsx:144-159 | empty input is ignored; otherwise the normalised URL becomes current (the input keeps the typed text), is reported to the parent, heads the history, and loading starts |
| MangaIframe.Viewer.GoHome | src/components/MangaIframe.tsx:161-182 | without a ready frame nothing changes; otherwise the home URL of the current URL becomes current and input, is reported and heads the history |
| MangaIframe.Viewer.OpenEntry | src/components/MangaIframe.tsx:333-337 | choosing a history or bookmark entry navigates to it and reports it, leaving the lists unchanged |
| MangaIframe.Viewer.AddBookmark | src/components/MangaIframe.tsx:109-134 | a parsable current URL is bookmarked afterwards (list as `BookmarksAfter`); an unparsable one leaves the bookmarks unchanged; the invariant holds |
| MangaIframe.Viewer.RemoveBookmark | src/components/MangaIframe.tsx:136-142 | the bookmarks become `BookmarksWithout(old, url)`; everything else is unchanged |
| MangaIframe.Viewer.HandleZoom | src/components/MangaIframe.tsx:194-210 | the zoom becomes `ZoomAfter(old zoom, direction)` and stays in range |

## Left out

- Browser launch, page creation and `browser.close()` failures, and the browser as an object: a run records only whether it closed the browser.
- The Playwright calls (`goto`, `waitForSelector`, `$$eval`, `evaluate`, `waitForTimeout`, the popup handler), `fs-extra` and the Express shell (middleware, `listen`, which duplicate route wins): foreign code, supplied as inputs.
- Partial writes: a write either succeeds with the whole body or fails.
- Registry lookup on keys inherited from `Object.prototype` (such as `constructor`): the registries are modelled as plain key lists.
- Lowercasing beyond ASCII (only `A`–`Z` are mapped), and UTF-16 surrogate pairs: strings are sequences of characters.
- The WHATWG URL parser: it is a parameter that yields the parsed parts or `None`.
- Node's `path.join` and the full `path.extname`: only the final-segment extension the AsuraScans scraper uses is modelled.
- `Date.now()` in the first handler's default title and `new Date()` in history entries: both are parameters (`now`).
- `localStorage` loading and saving of history and bookmarks: the viewer starts with empty lists.
- Toasts, `console` logging, timers (the delayed reset is the method `ResetAfterSuccess`), iframe back, forward, reload, load and error events, copying a URL and opening a new tab.
- `DownloadForm`'s clipboard auto-detection effect, `handlePasteUrl` and `handleGetCurrentUrl`: clipboard and iframe access.
- JSON request bodies whose fields are neither strings nor numbers: the request fields are optional strings and integers.
- `parseInt` hexadecimal and radix prefixes: the chapter fields are read as decimal.
- `parseInt` returns a double: the model's value is the exact integer, also above 2^53 where JavaScript loses precision.
- Server.HandleSecond: the 500 message for an unparsable URL is the `TypeError` text of `new URL`, which depends on the Node version; the model fixes it as `Invalid URL`.
- DownloadForm.BuildPayload: a chapter field that `parseInt` cannot read is absent from the request rather than `null`, as for `Submit`.
- DownloadForm.Form.Submit: a chapter field that `parseInt` cannot read (`NaN`, which `JSON.stringify` sends as `null`) is modelled as an absent field.
- Concurrency between overlapping handler invocations: each event or request runs to completion.
- Rendering-only code (`ToggleSwitch.tsx`, `NotFound.tsx`, JSX) and the build configuration.
