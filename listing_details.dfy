/** The listing detail modal: the listing, its owner's contact (with a
    fallback), and the wishlist button a student sees. */
module ListingDetails {
  import opened Wrappers
  import opened Seqs
  import opened Records
  import opened StudentViews
  import Dashboard

  const FallbackOwnerName := "Verified Owner"
  const FallbackOwnerEmail := "support@mechanven.com"
  const RemoveLabel := "Remove from Wishlist"
  const AddLabel := "Add to Wishlist"

  datatype Contact = Contact(name: string, email: string)

  function IsUser(id: string): User -> bool {
    (u: User) => u.id == id
  }

  /** The owner's name and e-mail: those of the first user with the listing's
      owner id, or the fallback pair when no user has it. */
  function OwnerContact(users: seq<User>, ownerId: string): (r: Contact)
    ensures (forall j :: 0 <= j < |users| ==> users[j].id != ownerId)
              ==> r == Contact(FallbackOwnerName, FallbackOwnerEmail)
    ensures (exists j :: 0 <= j < |users| && users[j].id == ownerId)
              ==> exists i :: && 0 <= i < |users| && users[i].id == ownerId
                              && (forall j :: 0 <= j < i ==> users[j].id != ownerId)
                              && r == Contact(users[i].name, users[i].email)
  {
    assert forall j :: 0 <= j < |users| ==> (IsUser(ownerId)(users[j]) <==> users[j].id == ownerId);
    match Find(IsUser(ownerId), users)
    case None => Contact(FallbackOwnerName, FallbackOwnerEmail)
    case Some(owner) => Contact(owner.name, owner.email)
  }

  /** `user.wishlist && user.wishlist.includes(listingId)` */
  predicate InWishlist(u: User, listingId: string) {
    u.wishlist.Some? && listingId in u.wishlist.value
  }

  /** The wishlist button reads "Remove" exactly when the listing's id is on
      the wishlist the dashboard uses, and "Add" otherwise. */
  function WishlistButtonLabel(u: User, listingId: string): (r: string)
    ensures r == RemoveLabel <==> listingId in WishlistIds(u)
    ensures r == AddLabel <==> listingId !in WishlistIds(u)
  {
    if InWishlist(u, listingId) then RemoveLabel else AddLabel
  }

  /** For a listing of the repository, the button offers removal exactly when
      the listing is in the user's wishlist view. */
  lemma LabelAgreesWithWishlistView(listings: seq<Listing>, u: User, l: Listing)
    requires l in listings
    ensures WishlistButtonLabel(u, l.id) == RemoveLabel <==> l in WishlistItems(listings, u)
  {
  }

  /** The wishlist and booking buttons: shown, with the wishlist label, to a
      signed-in student only. */
  datatype Actions = Hidden | StudentActions(wishlistLabel: string)

  datatype Details = Details(listing: Listing, ownerName: string, ownerEmail: string, actions: Actions)

  /** The modal for `listingId`: nothing when no listing has that id;
      otherwise the first listing with it, its owner's contact, and the
      student-only buttons. */
  function OpenListingDetails(listings: seq<Listing>, users: seq<User>, session: Option<User>,
                              listingId: string): (r: Option<Details>)
    ensures r.None? <==> !HasListingId(listings, listingId)
    ensures r.Some? ==> r.value.listing == FindListing(listings, listingId).value
    ensures r.Some? ==> Contact(r.value.ownerName, r.value.ownerEmail)
                          == OwnerContact(users, r.value.listing.ownerId)
    ensures r.Some? ==>
              (r.value.actions.StudentActions? <==> session.Some? && session.value.role == Dashboard.StudentRole)
    ensures r.Some? && r.value.actions.StudentActions? ==>
              r.value.actions.wishlistLabel == WishlistButtonLabel(session.value, listingId)
    ensures r.Some? && r.value.actions.StudentActions? ==>
              (r.value.actions.wishlistLabel == RemoveLabel <==> listingId in WishlistIds(session.value))
    ensures r.Some? && r.value.actions.StudentActions? ==>
              (r.value.actions.wishlistLabel == AddLabel <==> listingId !in WishlistIds(session.value))
  {
    match FindListing(listings, listingId)
    case None => None
    case Some(l) =>
      var contact := OwnerContact(users, l.ownerId);
      var actions :=
        if session.Some? && session.value.role == Dashboard.StudentRole
        then StudentActions(WishlistButtonLabel(session.value, listingId))
        else Hidden;
      Some(Details(l, contact.name, contact.email, actions))
  }
}
