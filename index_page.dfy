/**
 * The main page (src/pages/Index.tsx): picking a site, capturing or pasting a
 * URL to download, and the download button. The page's state hooks are the
 * fields of `IndexPage`; each handler is a method. `handleDownload` awaits the
 * request, so it is split at that point: `StartDownload` runs up to the
 * request and `FinishDownload` runs once the request settles.
 */
module IndexPage {
  import opened Options
  import opened Strings
  import opened Sites

  /** The body `handleDownload` posts: `{site, url}`. */
  datatype DownloadRequest = DownloadRequest(site: string, url: string)

  const HomeUrl := "https://www.colamanga.com"

  /** `selectedSite` is truthy. */
  predicate Chosen(site: Option<string>) {
    site.Some? && site.value != ""
  }

  /** Clipboard text is accepted when it is non-empty and starts with `http`. */
  predicate LooksLikeUrl(text: string) {
    text != "" && StartsWith(text, "http")
  }

  /** The download button's `disabled` condition. */
  predicate DownloadDisabled(isDownloading: bool, downloadUrl: string, selectedSite: Option<string>) {
    isDownloading || downloadUrl == "" || !Chosen(selectedSite)
  }

  class Page {
    var selectedSite: Option<string>
    var currentUrl: string
    var isAdultMode: bool
    var browserEnabled: bool
    var downloadUrl: string
    var isDownloading: bool

    /** The initial state of the hooks. */
    constructor()
      ensures selectedSite == None && currentUrl == HomeUrl && !isAdultMode && browserEnabled
      ensures downloadUrl == "" && !isDownloading
    {
      selectedSite := None;
      currentUrl := HomeUrl;
      isAdultMode := false;
      browserEnabled := true;
      downloadUrl := "";
      isDownloading := false;
    }

    /** `filteredSites`: the sites the current adult-mode setting shows, in list order. */
    function VisibleSites(): seq<Site>
      reads this
    {
      ShownSites(MangaSites, isAdultMode)
    }

    /** Whether the download button is disabled now. */
    predicate ButtonDisabled()
      reads this
    {
      DownloadDisabled(isDownloading, downloadUrl, selectedSite)
    }

    /** `handleSiteSelect`: select the site and point the browser at its home URL. */
    method SiteSelect(site: Site)
      modifies this
      ensures selectedSite == Some(site.id) && currentUrl == site.url
      ensures isAdultMode == old(isAdultMode) && browserEnabled == old(browserEnabled)
      ensures downloadUrl == old(downloadUrl) && isDownloading == old(isDownloading)
    {
      selectedSite := Some(site.id);
      currentUrl := site.url;
    }

    /** `handleCaptureUrl`: the browser's current URL becomes the URL to download. */
    method CaptureUrl()
      modifies this
      ensures downloadUrl == currentUrl == old(currentUrl)
      ensures selectedSite == old(selectedSite) && isAdultMode == old(isAdultMode)
      ensures browserEnabled == old(browserEnabled) && isDownloading == old(isDownloading)
    {
      downloadUrl := currentUrl;
    }

    /**
     * `handlePasteFromClipboard`. `clipboard` is what `readText` resolved to,
     * or `None` when it rejected. Only text that looks like a URL replaces the
     * URL to download; anything else leaves the page as it was.
     */
    method PasteFromClipboard(clipboard: Option<string>)
      modifies this
      ensures clipboard.Some? && LooksLikeUrl(clipboard.value) ==> downloadUrl == clipboard.value
      ensures !(clipboard.Some? && LooksLikeUrl(clipboard.value)) ==> downloadUrl == old(downloadUrl)
      ensures selectedSite == old(selectedSite) && currentUrl == old(currentUrl) && isAdultMode == old(isAdultMode)
      ensures browserEnabled == old(browserEnabled) && isDownloading == old(isDownloading)
    {
      if clipboard.Some? && clipboard.value != "" && StartsWith(clipboard.value, "http") {
        downloadUrl := clipboard.value;
      }
    }

    /**
     * `handleDownload` up to the request. An empty URL is checked first, then a
     * missing site; either stops with no request and no change. Otherwise the
     * page is marked as downloading and the request is returned.
     */
    method StartDownload() returns (request: Option<DownloadRequest>)
      modifies this
      ensures old(downloadUrl) == "" ==> request == None
      ensures old(downloadUrl) != "" && !Chosen(old(selectedSite)) ==> request == None
      ensures request.Some? <==> old(downloadUrl) != "" && Chosen(old(selectedSite))
      ensures request.Some? ==>
        request.value == DownloadRequest(old(selectedSite).value, old(downloadUrl)) && isDownloading
      ensures request.None? ==> isDownloading == old(isDownloading)
      ensures !old(ButtonDisabled()) ==> request.Some?
      ensures request.Some? ==> ButtonDisabled()
      ensures selectedSite == old(selectedSite) && currentUrl == old(currentUrl) && isAdultMode == old(isAdultMode)
      ensures browserEnabled == old(browserEnabled) && downloadUrl == old(downloadUrl)
    {
      if downloadUrl == "" {
        return None;
      }
      if !(selectedSite.Some? && selectedSite.value != "") {
        return None;
      }
      isDownloading := true;
      request := Some(DownloadRequest(selectedSite.value, downloadUrl));
    }

    /**
     * `handleDownload` after the request settles: `ok` is `response.ok`, false
     * also when `fetch` rejected. The `finally` always clears `isDownloading`;
     * the URL is cleared only on success.
     */
    method FinishDownload(ok: bool)
      modifies this
      ensures !isDownloading
      ensures downloadUrl == if ok then "" else old(downloadUrl)
      ensures selectedSite == old(selectedSite) && currentUrl == old(currentUrl) && isAdultMode == old(isAdultMode)
      ensures browserEnabled == old(browserEnabled)
    {
      if ok {
        downloadUrl := "";
      }
      isDownloading := false;
    }
  }

  /** Every site the page lists can be selected to a non-empty id, so selecting one enables the button once a URL is set. */
  lemma SelectEnables(k: nat, downloadUrl: string)
    requires k < |MangaSites| && downloadUrl != ""
    ensures !DownloadDisabled(false, downloadUrl, Some(MangaSites[k].id))
  {
  }
}
