/** The two lists of the student dashboard: the wishlisted listings and the
    booked listings joined with their booking's status and date. */
module StudentViews {
  import opened Wrappers
  import opened Seqs
  import opened Records

  function KeepWishlisted(ids: seq<string>): Listing -> bool {
    (l: Listing) => l.id in ids
  }

  /** The wishlist view: the listings whose id is on the user's wishlist (none
      when the wishlist is absent), in repository order, never more than the
      repository holds. */
  function WishlistItems(listings: seq<Listing>, u: User): (r: seq<Listing>)
    ensures IsSubsequence(r, listings)
    ensures forall l :: l in r <==> l in listings && l.id in WishlistIds(u)
    ensures forall l :: multiset(r)[l] == if l.id in WishlistIds(u) then multiset(listings)[l] else 0
    ensures |r| <= |listings|
  {
    FilterIsSubsequence(KeepWishlisted(WishlistIds(u)), listings);
    FilterKeeps(KeepWishlisted(WishlistIds(u)), listings);
    Filter(KeepWishlisted(WishlistIds(u)), listings)
  }

  /** A user record without a wishlist sees an empty wishlist view. */
  lemma WishlistAbsentIsEmpty(listings: seq<Listing>, u: User)
    requires u.wishlist.None?
    ensures WishlistItems(listings, u) == []
  {
    FilterNone(KeepWishlisted(WishlistIds(u)), listings);
  }

  /** The view follows repository order, not wishlist order, and ids with no
      listing contribute nothing: two wishlists that name the same existing
      listings, in any order and with any stale ids, give the same view. */
  lemma WishlistDependsOnlyOnKnownIds(listings: seq<Listing>, u: User, v: User)
    requires forall id :: HasListingId(listings, id) ==>
               (id in WishlistIds(u) <==> id in WishlistIds(v))
    ensures WishlistItems(listings, u) == WishlistItems(listings, v)
  {
    forall i | 0 <= i < |listings|
      ensures KeepWishlisted(WishlistIds(u))(listings[i]) == KeepWishlisted(WishlistIds(v))(listings[i])
    {
      assert HasListingId(listings, listings[i].id);
    }
    FilterCongruent(KeepWishlisted(WishlistIds(u)), KeepWishlisted(WishlistIds(v)), listings);
  }

  /** A booked listing: the listing's fields plus `bookingStatus` and
      `bookingDate` copied from the booking. */
  datatype BookedListing = BookedListing(listing: Listing, bookingStatus: string, bookingDate: string)

  /** The truthiness test of the map callback: `find` returned a listing.
      By `FindListing`'s contract this holds iff `HasListingId(listings,
      b.listingId)`; it is spelled through `find` because that is the test
      the code makes, and because it keeps the existential of `HasListingId`
      out of the proof of `BookedListingsExactly`. */
  predicate Resolves(listings: seq<Listing>, b: Booking) {
    FindListing(listings, b.listingId).Some?
  }

  function KeepResolving(listings: seq<Listing>): Booking -> bool {
    (b: Booking) => Resolves(listings, b)
  }

  /** The entry the map callback produces for one booking: the first listing
      with the booking's id, extended with its status and date, or `null`. */
  function JoinBooking(listings: seq<Listing>, b: Booking): (r: Option<BookedListing>)
    ensures r.Some? <==> HasListingId(listings, b.listingId)
    ensures r.Some? ==> r.value.listing == FindListing(listings, b.listingId).value
    ensures r.Some? ==> r.value.bookingStatus == b.status && r.value.bookingDate == b.date
  {
    match FindListing(listings, b.listingId)
    case None => None
    case Some(l) => Some(BookedListing(l, b.status, b.date))
  }

  /** The bookings view: every booking mapped through `JoinBooking`, with the
      `null` entries filtered out. */
  function BookedListings(listings: seq<Listing>, bookings: seq<Booking>): (r: seq<BookedListing>)
    ensures |r| <= |bookings|
    decreases |bookings|
  {
    if |bookings| == 0 then []
    else
      var rest := BookedListings(listings, bookings[1..]);
      match JoinBooking(listings, bookings[0])
      case None => rest
      case Some(e) => [e] + rest
  }

  /** The bookings view has one entry per booking whose listing exists, in
      booking order, and the k-th entry is the first listing with that
      booking's id, carrying that booking's status and date. */
  lemma {:induction false} BookedListingsExactly(listings: seq<Listing>, bookings: seq<Booking>)
    ensures var kept := Filter(KeepResolving(listings), bookings);
      && |BookedListings(listings, bookings)| == |kept|
      && forall k :: 0 <= k < |kept| ==>
           && Resolves(listings, kept[k])
           && BookedListings(listings, bookings)[k]
             == BookedListing(FindListing(listings, kept[k].listingId).value, kept[k].status, kept[k].date)
    decreases |bookings|
  {
    if |bookings| > 0 {
      BookedListingsExactly(listings, bookings[1..]);
      var b := bookings[0];
      var kept' := Filter(KeepResolving(listings), bookings[1..]);
      if Resolves(listings, b) {
        var kept := Filter(KeepResolving(listings), bookings);
        assert kept == [b] + kept';
        var r := BookedListings(listings, bookings);
        assert r == [JoinBooking(listings, b).value] + BookedListings(listings, bookings[1..]);
        FilterSatisfies(KeepResolving(listings), bookings);
        forall k | 0 <= k < |kept|
          ensures Resolves(listings, kept[k])
          ensures r[k] == BookedListing(FindListing(listings, kept[k].listingId).value, kept[k].status, kept[k].date)
        {
          if k > 0 {
            assert kept[k] == kept'[k - 1];
          }
        }
      }
    }
  }

  /** Bookings whose listing is unknown are dropped; when every booking
      resolves, the view has one entry per booking. */
  lemma BookedListingsLength(listings: seq<Listing>, bookings: seq<Booking>)
    ensures (forall i :: 0 <= i < |bookings| ==> !HasListingId(listings, bookings[i].listingId))
              ==> BookedListings(listings, bookings) == []
    ensures (forall i :: 0 <= i < |bookings| ==> HasListingId(listings, bookings[i].listingId))
              ==> |BookedListings(listings, bookings)| == |bookings|
  {
    BookedListingsExactly(listings, bookings);
    if forall i :: 0 <= i < |bookings| ==> !HasListingId(listings, bookings[i].listingId) {
      FilterNone(KeepResolving(listings), bookings);
    }
    if forall i :: 0 <= i < |bookings| ==> HasListingId(listings, bookings[i].listingId) {
      FilterAll(KeepResolving(listings), bookings);
    }
  }
}
