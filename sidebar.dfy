/**
 * The sidebar's site list (src/components/Sidebar.tsx): a search box, a
 * "show adult only" switch and the adult-mode gate, applied together as one
 * filter, and the counts shown under the list.
 */
module Sidebar {
  import opened Strings
  import opened Seqs
  import opened Sites

  /** The three conditions of the `filteredSites` callback, all of which must hold. */
  predicate Listed(site: Site, searchTerm: string, showAdultOnly: bool, adultMode: bool) {
    Contains(Lower(site.name), Lower(searchTerm)) && (!showAdultOnly || site.isAdult) && Shown(site, adultMode)
  }

  /** `filteredSites`: the listed sites, in list order, and no others. */
  function FilteredSites(sites: seq<Site>, searchTerm: string, showAdultOnly: bool, adultMode: bool): (r: seq<Site>)
    ensures IsSubsequence(r, sites)
    ensures forall k :: 0 <= k < |r| ==> r[k] in sites && Listed(r[k], searchTerm, showAdultOnly, adultMode)
    ensures forall k :: 0 <= k < |sites| && Listed(sites[k], searchTerm, showAdultOnly, adultMode) ==> sites[k] in r
    ensures forall x :: multiset(r)[x] == if Listed(x, searchTerm, showAdultOnly, adultMode) then multiset(sites)[x] else 0
  {
    FilterCounts((s: Site) => Listed(s, searchTerm, showAdultOnly, adultMode), sites);
    Filter((s: Site) => Listed(s, searchTerm, showAdultOnly, adultMode), sites)
  }

  /** Every string contains the empty string, so an empty search keeps every site the switches allow. */
  lemma EmptySearchKeepsAll(sites: seq<Site>, showAdultOnly: bool, adultMode: bool)
    ensures forall k :: 0 <= k < |sites| ==>
      (Listed(sites[k], "", showAdultOnly, adultMode) <==> (!showAdultOnly || sites[k].isAdult) && Shown(sites[k], adultMode))
    ensures adultMode && !showAdultOnly ==> FilteredSites(sites, "", showAdultOnly, adultMode) == sites
  {
    forall k | 0 <= k < |sites| ensures Contains(Lower(sites[k].name), Lower("")) {
      assert StartsWith(Lower(sites[k].name), Lower(""));
    }
    if adultMode && !showAdultOnly {
      FilterKeepsAll((s: Site) => Listed(s, "", showAdultOnly, adultMode), sites);
    }
  }

  /** With adult mode off no adult site is listed, and "adult only" then lists nothing at all. */
  lemma AdultModeOff(sites: seq<Site>, searchTerm: string, showAdultOnly: bool)
    ensures forall k :: 0 <= k < |FilteredSites(sites, searchTerm, showAdultOnly, false)| ==>
      !FilteredSites(sites, searchTerm, showAdultOnly, false)[k].isAdult
    ensures showAdultOnly ==> FilteredSites(sites, searchTerm, showAdultOnly, false) == []
  {
    if showAdultOnly {
      FilterKeepsNone((s: Site) => Listed(s, searchTerm, showAdultOnly, false), sites);
    }
  }

  /** `adultSitesCount`. */
  function AdultCount(sites: seq<Site>): (n: nat)
    ensures n <= |sites|
  {
    |Filter((s: Site) => s.isAdult, sites)|
  }

  /**
   * The "N general, M adult" line: `total - adult` is exactly the number of
   * non-adult sites, so the two numbers add up to the length of the list.
   */
  lemma CountsAddUp(sites: seq<Site>)
    ensures |sites| - AdultCount(sites) == |Filter((s: Site) => !s.isAdult, sites)|
  {
    FilterComplementLength((s: Site) => s.isAdult, (s: Site) => !s.isAdult, sites);
  }

  /** Of the six sites, four are adult: the line reads "2 general, 4 adult". */
  lemma SiteCounts()
    ensures AdultCount(MangaSites) == 4
  {
    var p := (s: Site) => s.isAdult;
    var tail := MangaSites[2..];
    FilterKeepsAll(p, tail);
    assert MangaSites[1..][1..] == tail;
  }
}
