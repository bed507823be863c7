/** The explore view: the listings passing the search box, the type selector
    and the price selector. */
module Explore {
  import opened Text
  import opened Seqs
  import opened Records

  /** The price selector: empty (`''`) or a monthly cap. */
  datatype PriceFilter = AnyPrice | AtMost(cap: int)

  /** The three filter inputs as read from the form.  `searchText` is the raw
      text typed in; an empty `listingType` means "any type". */
  datatype Criteria = Criteria(searchText: string, listingType: string, price: PriceFilter)

  const NoFilters := Criteria("", "", AnyPrice)

  /** The lower-cased title or the lower-cased location includes `needle`. */
  predicate MatchesSearch(l: Listing, needle: string) {
    Contains(Lower(l.title), needle) || Contains(Lower(l.location), needle)
  }

  predicate MatchesType(l: Listing, listingType: string) {
    listingType == "" || l.listingType == listingType
  }

  predicate MatchesPrice(l: Listing, price: PriceFilter) {
    match price
    case AnyPrice => true
    case AtMost(cap) => l.price <= cap
  }

  /** The filter callback: the search text is lower-cased once, then all three
      tests must pass. */
  predicate Matches(c: Criteria, l: Listing) {
    && MatchesSearch(l, Lower(c.searchText))
    && MatchesType(l, c.listingType)
    && MatchesPrice(l, c.price)
  }

  function KeepMatching(c: Criteria): Listing -> bool {
    (l: Listing) => Matches(c, l)
  }

  /** The explore result: exactly the matching listings, each as often as in
      the repository, in repository order. */
  function ExploreListings(listings: seq<Listing>, c: Criteria): (r: seq<Listing>)
    ensures IsSubsequence(r, listings)
    ensures forall l :: l in r <==> l in listings && Matches(c, l)
    ensures forall l :: multiset(r)[l] == if Matches(c, l) then multiset(listings)[l] else 0
  {
    FilterIsSubsequence(KeepMatching(c), listings);
    FilterKeeps(KeepMatching(c), listings);
    Filter(KeepMatching(c), listings)
  }

  /** With every filter input empty the whole repository is shown, because the
      empty search text is included in every title. */
  lemma ExploreWithoutFilters(listings: seq<Listing>)
    ensures ExploreListings(listings, NoFilters) == listings
  {
    assert Lower("") == "";
    assert forall i :: 0 <= i < |listings| ==> KeepMatching(NoFilters)(listings[i]) by {
      forall i | 0 <= i < |listings|
        ensures Matches(NoFilters, listings[i])
      {
        assert "" <= Lower(listings[i].title);
      }
    }
    FilterAll(KeepMatching(NoFilters), listings);
  }

  /** The search is case-insensitive: typing the text in any case gives the same
      result as typing it in lower case. */
  lemma ExploreCaseInsensitive(listings: seq<Listing>, c: Criteria)
    ensures ExploreListings(listings, c)
         == ExploreListings(listings, c.(searchText := Lower(c.searchText)))
  {
    var c' := c.(searchText := Lower(c.searchText));
    LowerIdempotent(c.searchText);
    FilterCongruent(KeepMatching(c), KeepMatching(c'), listings);
  }

  /** Two search texts that agree up to letter case select the same listings. */
  lemma ExploreSameUpToCase(listings: seq<Listing>, c: Criteria, text: string)
    requires Lower(text) == Lower(c.searchText)
    ensures ExploreListings(listings, c.(searchText := text)) == ExploreListings(listings, c)
  {
    ExploreCaseInsensitive(listings, c);
    ExploreCaseInsensitive(listings, c.(searchText := text));
  }

  /** A listing whose title or location contains the search text exactly, and
      which passes the type and price filters, is always shown. */
  lemma ExploreShowsExactMatch(listings: seq<Listing>, c: Criteria, l: Listing)
    requires l in listings
    requires Contains(l.title, c.searchText) || Contains(l.location, c.searchText)
    requires MatchesType(l, c.listingType) && MatchesPrice(l, c.price)
    ensures l in ExploreListings(listings, c)
  {
    if Contains(l.title, c.searchText) {
      ContainsLowered(l.title, c.searchText);
    } else {
      ContainsLowered(l.location, c.searchText);
    }
  }

  /** The price filter is at least as strict in `c1` as in `c2`. */
  predicate StricterPrice(p1: PriceFilter, p2: PriceFilter) {
    p2.AnyPrice? || (p1.AtMost? && p1.cap <= p2.cap)
  }

  /** Tightening the price filter, with the other inputs unchanged, only removes
      listings: the result is a subsequence of the looser result. */
  lemma ExploreTighterPrice(listings: seq<Listing>, c: Criteria, p1: PriceFilter, p2: PriceFilter)
    requires StricterPrice(p1, p2)
    ensures IsSubsequence(ExploreListings(listings, c.(price := p1)),
                          ExploreListings(listings, c.(price := p2)))
  {
    FilterStronger(KeepMatching(c.(price := p1)), KeepMatching(c.(price := p2)), listings);
  }
}
