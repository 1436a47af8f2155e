/**
 * The embedded manga browser (src/components/MangaIframe.tsx): an address bar
 * that adds a missing protocol, a visit history, bookmarks and a zoom level.
 * The list updates are pure functions of the previous list; the component's
 * state hooks are the fields of `Viewer` and its handlers are methods.
 */
module MangaIframe {
  import opened Options
  import opened Strings
  import opened Seqs
  import opened Browser

  /** A history entry; `timestamp` is the `new Date()` of the visit, given as a number. */
  datatype HistoryItem = HistoryItem(url: string, title: string, timestamp: int)

  datatype Bookmark = Bookmark(url: string, title: string, favicon: string)

  const HistoryLimit := 50
  const BookmarkLimit := 20

  function ItemUrl(h: HistoryItem): string { h.url }
  function BookmarkUrl(b: Bookmark): string { b.url }

  // ----- URLs -----

  predicate HasProtocol(s: string) {
    StartsWith(s, "http://") || StartsWith(s, "https://")
  }

  /** The address-bar rule: `https://` goes in front of input that has neither protocol. */
  function Normalize(input: string): (r: string)
    ensures HasProtocol(r)
    ensures HasProtocol(input) ==> r == input
    ensures !HasProtocol(input) ==> r == "https://" + input
  {
    if HasProtocol(input) then input
    else
      var r := "https://" + input;
      assert r[..|"https://"|] == "https://";
      r
  }

  /** Normalising a normalised URL changes nothing. */
  lemma NormalizeIdempotent(input: string)
    ensures Normalize(Normalize(input)) == Normalize(input)
  {
  }

  /** `getDomainFromUrl`: the hostname with its first `www.` removed, or the input when it does not parse. */
  function DomainOf(parse: UrlParser, url: string): (r: string)
    ensures parse(url).None? ==> r == url
    ensures parse(url).Some? && !Contains(parse(url).value.hostname, "www.") ==> r == parse(url).value.hostname
    ensures parse(url).Some? && Contains(parse(url).value.hostname, "www.") ==>
      var h := parse(url).value.hostname;
      var k := IndexOf(h, "www.").value;
      OccursAt(h, "www.", k) && (forall j :: 0 <= j < k ==> !OccursAt(h, "www.", j)) && r == h[..k] + h[k + 4..]
  {
    match parse(url)
    case None => url
    case Some(parts) => ReplaceFirst(parts.hostname, "www.", "")
  }

  /** A leading `www.` is dropped, and only that one: `www.www.x` gives `www.x`. */
  lemma DomainDropsLeadingWww(parse: UrlParser, url: string, rest: string)
    requires parse(url).Some? && parse(url).value.hostname == "www." + rest
    ensures DomainOf(parse, url) == rest
  {
    var h := parse(url).value.hostname;
    assert StartsWith(h, "www.") by { assert h[..4] == "www."; }
    assert h[4..] == rest;
  }

  /**
   * Only the first `www.` is removed, wherever it is: `cdn.www.x.com` gives
   * `cdn.x.com`, and `wwwww.x` gives `w.x`.
   */
  lemma DomainDropsFirstWww(parse: UrlParser, url: string, a: string, b: string)
    requires parse(url).Some? && parse(url).value.hostname == a + ("www." + b)
    requires forall j :: 0 <= j < |a| ==> !OccursAt(a + ("www." + b), "www.", j)
    ensures DomainOf(parse, url) == a + b
  {
    var h := a + ("www." + b);
    assert h[|a|..|a| + 4] == "www.";
    assert OccursAt(h, "www.", |a|);
    var k := IndexOf(h, "www.");
    assert k == Some(|a|);
    assert h[..|a|] == a && h[|a| + 4..] == b;
  }

  /** `getHomeUrl`: `protocol//host` of the URL, or the input when it does not parse. */
  function HomeUrlOf(parse: UrlParser, url: string): (r: string)
    ensures parse(url).None? ==> r == url
    ensures parse(url).Some? ==> r == parse(url).value.protocol + "//" + parse(url).value.host
  {
    match parse(url)
    case None => url
    case Some(parts) => parts.protocol + "//" + parts.host
  }

  /**
   * The parser reads `protocol//host` back with that protocol and host. The
   * WHATWG parser does so for the `http:` and `https:` URLs the viewer shows;
   * the model takes the parser as a parameter, so this is an assumption about it.
   */
  predicate ReadsBackOrigin(parse: UrlParser, url: string) {
    parse(url).Some? &&
    var home := parse(url).value.protocol + "//" + parse(url).value.host;
    parse(home).Some? && parse(home).value.protocol == parse(url).value.protocol &&
    parse(home).value.host == parse(url).value.host
  }

  /** The home of a home URL is itself, for a parser that reads back the origin it was given. */
  lemma HomeUrlStable(parse: UrlParser, url: string)
    requires ReadsBackOrigin(parse, url)
    ensures HomeUrlOf(parse, HomeUrlOf(parse, url)) == HomeUrlOf(parse, url)
  {
  }

  // ----- history -----

  /** The earlier visits to URLs other than `url`, newest first as in `prev`. */
  function OtherVisits(prev: seq<HistoryItem>, url: string): seq<HistoryItem> {
    Filter((h: HistoryItem) => h.url != url, prev)
  }

  /** `addToHistory`'s update: drop earlier visits to the same URL, put the new one first, keep 50. */
  function HistoryAfter(prev: seq<HistoryItem>, item: HistoryItem): (r: seq<HistoryItem>)
    ensures 1 <= |r| <= HistoryLimit && r[0] == item
    ensures forall k :: 1 <= k < |r| ==> r[k].url != item.url && r[k] in prev
    ensures IsSubsequence(r[1..], prev)
    ensures |r| == if |OtherVisits(prev, item.url)| < HistoryLimit then |OtherVisits(prev, item.url)| + 1 else HistoryLimit
    ensures r[1..] == OtherVisits(prev, item.url)[..|r| - 1]
  {
    var kept := OtherVisits(prev, item.url);
    var all := [item] + kept;
    var n := if |all| <= HistoryLimit then |all| else HistoryLimit;
    assert all[..n][1..] == kept[..n - 1];
    SubsequencePrefix(kept, prev, n - 1);
    all[..n]
  }

  /** With room to spare, every earlier visit to another URL is still in the history. */
  lemma HistoryKeepsOthers(prev: seq<HistoryItem>, item: HistoryItem, k: nat)
    requires |prev| < HistoryLimit && k < |prev| && prev[k].url != item.url
    ensures prev[k] in HistoryAfter(prev, item)
  {
    var kept := Filter((h: HistoryItem) => h.url != item.url, prev);
    assert prev[k] in kept;
    assert ([item] + kept)[..|kept| + 1] == [item] + kept;
  }

  /** The history never lists a URL twice. */
  lemma HistoryDistinct(prev: seq<HistoryItem>, item: HistoryItem)
    requires DistinctBy(ItemUrl, prev)
    ensures DistinctBy(ItemUrl, HistoryAfter(prev, item))
  {
    var p := (h: HistoryItem) => h.url != item.url;
    FilterDistinct(ItemUrl, p, prev);
    var r := HistoryAfter(prev, item);
    var kept := Filter(p, prev);
    assert forall k :: 1 <= k < |r| ==> r[k] == kept[k - 1];
  }

  // ----- bookmarks -----

  /** `bookmarks.some(b => b.url === url)`. */
  predicate IsBookmarked(bookmarks: seq<Bookmark>, url: string) {
    exists k :: 0 <= k < |bookmarks| && bookmarks[k].url == url
  }

  /** `addBookmark`'s update: a URL already bookmarked leaves the list as it is; otherwise prepend and keep 20. */
  function BookmarksAfter(prev: seq<Bookmark>, b: Bookmark): (r: seq<Bookmark>)
    ensures IsBookmarked(prev, b.url) ==> r == prev
    ensures !IsBookmarked(prev, b.url) ==> 1 <= |r| <= BookmarkLimit && |r| <= |prev| + 1 && r[0] == b && r[1..] == prev[..|r| - 1]
    ensures !IsBookmarked(prev, b.url) ==> |r| == if |prev| + 1 <= BookmarkLimit then |prev| + 1 else BookmarkLimit
    ensures IsBookmarked(r, b.url)
  {
    if IsBookmarked(prev, b.url) then prev
    else
      var all := [b] + prev;
      var n := if |all| <= BookmarkLimit then |all| else BookmarkLimit;
      assert all[..n][0] == b;
      all[..n]
  }

  /** Bookmark URLs stay distinct. */
  lemma BookmarksDistinct(prev: seq<Bookmark>, b: Bookmark)
    requires DistinctBy(BookmarkUrl, prev)
    ensures DistinctBy(BookmarkUrl, BookmarksAfter(prev, b))
  {
    var r := BookmarksAfter(prev, b);
    if !IsBookmarked(prev, b.url) {
      forall i, j | 0 <= i < j < |r| ensures BookmarkUrl(r[i]) != BookmarkUrl(r[j]) {
        assert r[j] == prev[j - 1];
        if i > 0 { assert r[i] == prev[i - 1]; }
      }
    }
  }

  /** `removeBookmark`'s update: exactly the entries for `url` go; the others stay, in order. */
  function BookmarksWithout(prev: seq<Bookmark>, url: string): (r: seq<Bookmark>)
    ensures !IsBookmarked(r, url)
    ensures IsSubsequence(r, prev)
    ensures forall k :: 0 <= k < |r| ==> r[k] in prev
    ensures forall k :: 0 <= k < |prev| && prev[k].url != url ==> prev[k] in r
  {
    Filter((x: Bookmark) => x.url != url, prev)
  }

  /** Removing a bookmark just added gives back the list from before, when the cap did not cut it. */
  lemma AddThenRemove(prev: seq<Bookmark>, b: Bookmark)
    requires !IsBookmarked(prev, b.url) && |prev| < BookmarkLimit
    ensures BookmarksWithout(BookmarksAfter(prev, b), b.url) == prev
  {
    var p := (x: Bookmark) => x.url != b.url;
    var added := BookmarksAfter(prev, b);
    assert added == [b] + prev by { assert ([b] + prev)[..|prev| + 1] == [b] + prev; }
    assert added[1..] == prev;
    FilterKeepsAll(p, prev);
  }

  /** Removing keeps bookmark URLs distinct. */
  lemma RemoveDistinct(prev: seq<Bookmark>, url: string)
    requires DistinctBy(BookmarkUrl, prev)
    ensures DistinctBy(BookmarkUrl, BookmarksWithout(prev, url))
  {
    FilterDistinct(BookmarkUrl, (x: Bookmark) => x.url != url, prev);
  }

  // ----- zoom -----

  datatype ZoomDirection = In | Out | Reset

  const MinZoom := 50
  const MaxZoom := 200
  const ZoomStep := 25
  const DefaultZoom := 100

  /** A zoom level the buttons can reach from the default: 50..200 in steps of 25. */
  predicate ZoomLevel(z: int) {
    MinZoom <= z <= MaxZoom && z % ZoomStep == 0
  }

  /** `handleZoom`'s new value: one step in or out, clamped to 50..200, or back to 100. */
  function ZoomAfter(z: int, d: ZoomDirection): (r: int)
    ensures ZoomLevel(z) ==> ZoomLevel(r)
    ensures d == Reset ==> r == DefaultZoom
    ensures d == In ==> r <= MaxZoom && (z + ZoomStep <= MaxZoom ==> r == z + ZoomStep)
    ensures d == In && z + ZoomStep > MaxZoom ==> r == MaxZoom
    ensures d == Out ==> r >= MinZoom && (z - ZoomStep >= MinZoom ==> r == z - ZoomStep)
    ensures d == Out && z - ZoomStep < MinZoom ==> r == MinZoom
  {
    match d
    case In => if z + ZoomStep < MaxZoom then z + ZoomStep else MaxZoom
    case Out => if z - ZoomStep > MinZoom then z - ZoomStep else MinZoom
    case Reset => DefaultZoom
  }

  /** One step in and one step out returns to where it was, below the maximum; and the reverse above the minimum. */
  lemma ZoomRoundTrip(z: int)
    requires ZoomLevel(z)
    ensures z < MaxZoom ==> ZoomAfter(ZoomAfter(z, In), Out) == z
    ensures z > MinZoom ==> ZoomAfter(ZoomAfter(z, Out), In) == z
  {
  }

  /** The component's state. `parse` is `new URL`; `reported` lists the `onUrlChange` calls in order. */
  class Viewer {
    const parse: UrlParser
    var currentUrl: string
    var inputUrl: string
    var isLoading: bool
    var zoom: int
    var history: seq<HistoryItem>
    var bookmarks: seq<Bookmark>
    var reported: seq<string>

    /** What every handler keeps true. */
    ghost predicate Valid()
      reads this
    {
      ZoomLevel(zoom) && |history| <= HistoryLimit && DistinctBy(ItemUrl, history) &&
      |bookmarks| <= BookmarkLimit && DistinctBy(BookmarkUrl, bookmarks)
    }

    /** `Bookmarked()` drives the filled bookmark icon. */
    predicate Bookmarked()
      reads this
    {
      IsBookmarked(bookmarks, currentUrl)
    }

    /** The initial state for the `url` prop; persisted lists are not read. */
    constructor(parse: UrlParser, url: string)
      ensures Valid()
      ensures this.parse == parse && currentUrl == url && inputUrl == url && !isLoading
      ensures zoom == DefaultZoom && history == [] && bookmarks == [] && reported == []
    {
      this.parse := parse;
      currentUrl := url;
      inputUrl := url;
      isLoading := false;
      zoom := DefaultZoom;
      history := [];
      bookmarks := [];
      reported := [];
    }

    /** The effect on a new `url` prop. */
    method UrlPropChanged(url: string)
      modifies this
      requires Valid()
      ensures Valid()
      ensures currentUrl == url && inputUrl == url
      ensures isLoading == old(isLoading) && zoom == old(zoom) && history == old(history)
      ensures bookmarks == old(bookmarks) && reported == old(reported)
    {
      currentUrl := url;
      inputUrl := url;
    }

    method EditInput(text: string)
      modifies this
      requires Valid()
      ensures Valid()
      ensures inputUrl == text
      ensures currentUrl == old(currentUrl) && isLoading == old(isLoading) && zoom == old(zoom)
      ensures history == old(history) && bookmarks == old(bookmarks) && reported == old(reported)
    {
      inputUrl := text;
    }

    /**
     * `handleUrlSubmit`: nothing happens for an empty address bar; otherwise the
     * normalised URL is opened, reported and recorded in the history, titled
     * with its domain. `now` is the visit's timestamp.
     */
    method SubmitUrl(now: int)
      modifies this
      requires Valid()
      ensures Valid()
      ensures old(inputUrl) == "" ==>
        currentUrl == old(currentUrl) && isLoading == old(isLoading) && history == old(history) &&
        reported == old(reported)
      ensures old(inputUrl) != "" ==>
        var url := Normalize(old(inputUrl));
        currentUrl == url && isLoading && reported == old(reported) + [url] &&
        history == HistoryAfter(old(history), HistoryItem(url, DomainOf(parse, url), now))
      ensures inputUrl == old(inputUrl) && zoom == old(zoom) && bookmarks == old(bookmarks)
    {
      if inputUrl != "" {
        var url := inputUrl;
        if !StartsWith(url, "http://") && !StartsWith(url, "https://") {
          url := "https://" + url;
        }
        currentUrl := url;
        isLoading := true;
        reported := reported + [url];
        HistoryDistinct(history, HistoryItem(url, DomainOf(parse, url), now));
        history := HistoryAfter(history, HistoryItem(url, DomainOf(parse, url), now));
      }
    }

    /**
     * The home button: when the frame is there, go to `protocol//host` of the
     * current URL, put it in the address bar, report it and record it.
     */
    method GoHome(frameReady: bool, now: int)
      modifies this
      requires Valid()
      ensures Valid()
      ensures !frameReady ==>
        currentUrl == old(currentUrl) && inputUrl == old(inputUrl) && history == old(history) &&
        reported == old(reported)
      ensures frameReady ==>
        var home := HomeUrlOf(parse, old(currentUrl));
        currentUrl == home && inputUrl == home && reported == old(reported) + [home] &&
        history == HistoryAfter(old(history), HistoryItem(home, DomainOf(parse, home), now))
      ensures isLoading == old(isLoading) && zoom == old(zoom) && bookmarks == old(bookmarks)
    {
      if frameReady {
        var home := HomeUrlOf(parse, currentUrl);
        currentUrl := home;
        inputUrl := home;
        reported := reported + [home];
        HistoryDistinct(history, HistoryItem(home, DomainOf(parse, home), now));
        history := HistoryAfter(history, HistoryItem(home, DomainOf(parse, home), now));
      }
    }

    /** Choosing a history or bookmark entry from its menu: opened and reported, not re-recorded. */
    method OpenEntry(url: string)
      modifies this
      requires Valid()
      ensures Valid()
      ensures currentUrl == url && inputUrl == url && reported == old(reported) + [url]
      ensures isLoading == old(isLoading) && zoom == old(zoom) && history == old(history)
      ensures bookmarks == old(bookmarks)
    {
      currentUrl := url;
      inputUrl := url;
      reported := reported + [url];
    }

    /**
     * `addBookmark`: the current URL, titled with its domain and with the
     * origin's `/favicon.ico`. A current URL that does not parse makes the
     * handler throw before the list is touched.
     */
    method AddBookmark()
      modifies this
      requires Valid()
      ensures Valid()
      ensures parse(currentUrl).None? ==> bookmarks == old(bookmarks)
      ensures parse(currentUrl).Some? ==> bookmarks == BookmarksAfter(old(bookmarks),
        Bookmark(currentUrl, DomainOf(parse, currentUrl), parse(currentUrl).value.origin + "/favicon.ico"))
      ensures parse(currentUrl).Some? ==> Bookmarked()
      ensures currentUrl == old(currentUrl) && inputUrl == old(inputUrl) && isLoading == old(isLoading)
      ensures zoom == old(zoom) && history == old(history) && reported == old(reported)
    {
      var title := DomainOf(parse, currentUrl);
      var parts := parse(currentUrl);
      if parts.Some? {
        var b := Bookmark(currentUrl, title, parts.value.origin + "/favicon.ico");
        BookmarksDistinct(bookmarks, b);
        bookmarks := BookmarksAfter(bookmarks, b);
      }
    }

    /** `removeBookmark(url)`. */
    method RemoveBookmark(url: string)
      modifies this
      requires Valid()
      ensures Valid()
      ensures bookmarks == BookmarksWithout(old(bookmarks), url)
      ensures currentUrl == old(currentUrl) && inputUrl == old(inputUrl) && isLoading == old(isLoading)
      ensures zoom == old(zoom) && history == old(history) && reported == old(reported)
    {
      RemoveDistinct(bookmarks, url);
      bookmarks := BookmarksWithout(bookmarks, url);
    }

    /** `handleZoom`. */
    method HandleZoom(d: ZoomDirection)
      modifies this
      requires Valid()
      ensures Valid()
      ensures zoom == ZoomAfter(old(zoom), d)
      ensures currentUrl == old(currentUrl) && inputUrl == old(inputUrl) && isLoading == old(isLoading)
      ensures history == old(history) && bookmarks == old(bookmarks) && reported == old(reported)
    {
      var newZoom := zoom;
      match d {
        case In => newZoom := if zoom + ZoomStep < MaxZoom then zoom + ZoomStep else MaxZoom;
        case Out => newZoom := if zoom - ZoomStep > MinZoom then zoom - ZoomStep else MinZoom;
        case Reset => newZoom := DefaultZoom;
      }
      zoom := newZoom;
    }
  }
}
