/** The records the views are derived from, as the application reads them:
    a listing, a booking embedded in a user, and the session user. */
module Records {
  import opened Wrappers
  import opened Seqs

  /** A rentable property.  Its `type` field is called `listingType` here. */
  datatype Listing = Listing(
    id: string,
    ownerId: string,
    title: string,
    location: string,
    listingType: string,
    price: int,
    image: string,
    description: string,
    distance: string,
    tags: seq<string>)

  /** A booking request as stored on a user: the listing it is for, its status
      (`'pending'`, ...) and its date, both passed through to the view. */
  datatype Booking = Booking(listingId: string, status: string, date: string)

  /** The user snapshot held by the session.  `wishlist` and `bookings` may be
      absent from the stored record; `role` is the free-form role string. */
  datatype User = User(
    id: string,
    name: string,
    email: string,
    role: string,
    wishlist: Option<seq<string>>,
    bookings: Option<seq<Booking>>)

  /** `user.wishlist || []` */
  function WishlistIds(u: User): seq<string> {
    u.wishlist.GetOr([])
  }

  /** `user.bookings || []` */
  function BookingsOf(u: User): seq<Booking> {
    u.bookings.GetOr([])
  }

  function HasId(id: string): Listing -> bool {
    (l: Listing) => l.id == id
  }

  /** Some listing of `listings` carries the id `id`. */
  predicate HasListingId(listings: seq<Listing>, id: string) {
    exists i :: 0 <= i < |listings| && listings[i].id == id
  }

  /** `listings.find(l => l.id === id)`: the first listing carrying `id`. */
  function FindListing(listings: seq<Listing>, id: string): (r: Option<Listing>)
    ensures r.None? <==> !HasListingId(listings, id)
    ensures r.Some? ==> r.value in listings && r.value.id == id
    ensures r.Some? ==> exists i :: 0 <= i < |listings| && listings[i] == r.value
                                      && forall j :: 0 <= j < i ==> listings[j].id != id
  {
    var r := Find(HasId(id), listings);
    assert forall j :: 0 <= j < |listings| ==> (HasId(id)(listings[j]) <==> listings[j].id == id);
    r
  }
}
