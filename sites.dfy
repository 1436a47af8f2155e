/**
 * The list of supported manga sites that both the sidebar
 * (src/components/Sidebar.tsx) and the main page (src/pages/Index.tsx) declare,
 * with the same six entries in the same order.
 */
module Sites {
  import opened Seqs

  /** A site entry: its id, display name, home URL and whether it is an adult site. */
  datatype Site = Site(id: string, name: string, url: string, isAdult: bool)

  const MangaSites: seq<Site> := [
    Site("colamanga", "ColaManga", "https://www.colamanga.com", false),
    Site("asurascans", "AsuraScans", "https://asuracomic.net", false),
    Site("nhentai", "NHentai", "https://nhentai.net", true),
    Site("hentai2read", "Hentai2Read", "https://hentai2read.com", true),
    Site("hitomi", "Hitomi.la", "https://hitomi.la", true),
    Site("erosscans", "ErosScans", "https://erosscans.com", true)
  ]

  /** The adult-mode gate both pages apply: `isAdultMode || !site.isAdult`. */
  predicate Shown(site: Site, adultMode: bool) {
    adultMode || !site.isAdult
  }

  /** The sites an adult-mode setting lets through, in list order. */
  function ShownSites(sites: seq<Site>, adultMode: bool): (r: seq<Site>)
    ensures IsSubsequence(r, sites)
    ensures forall k :: 0 <= k < |r| ==> r[k] in sites && Shown(r[k], adultMode)
    ensures forall k :: 0 <= k < |sites| && Shown(sites[k], adultMode) ==> sites[k] in r
    ensures forall x :: multiset(r)[x] == if Shown(x, adultMode) then multiset(sites)[x] else 0
  {
    FilterCounts((s: Site) => Shown(s, adultMode), sites);
    Filter((s: Site) => Shown(s, adultMode), sites)
  }

  /** With adult mode on every site is shown; with it off, exactly the general ones. */
  lemma ShownSitesModes(sites: seq<Site>)
    ensures ShownSites(sites, true) == sites
    ensures forall k :: 0 <= k < |ShownSites(sites, false)| ==> !ShownSites(sites, false)[k].isAdult
  {
    FilterKeepsAll((s: Site) => Shown(s, true), sites);
  }

  /** With adult mode off the main page lists ColaManga and AsuraScans only. */
  lemma GeneralSites()
    ensures ShownSites(MangaSites, false) == MangaSites[..2]
  {
    var s := MangaSites;
    assert !s[0].isAdult && !s[1].isAdult;
    assert forall k :: 2 <= k < |s| ==> s[k].isAdult;
    FilterPrefix((x: Site) => Shown(x, false), s, 2);
  }
}
