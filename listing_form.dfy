/** The record built when an owner submits the add-listing form. */
module ListingForm {
  import opened Wrappers
  import opened Records
  import Text
  import Explore
  import Dashboard

  /** Used when the form's image field is left empty. */
  const PlaceholderImage := "https://images.unsplash.com/photo-1522708323590-d24dbb6b0267?auto=format&fit=crop&w=500&q=60"
  const DefaultDistance := "Near Campus"
  const VerifiedTag := "Verified"

  /** The submitted form fields; `price` is the already converted number and
      an empty `image` stands for a field left blank. */
  datatype Form = Form(
    title: string,
    location: string,
    listingType: string,
    price: int,
    image: string,
    description: string)

  /** The new listing: nothing without a signed-in user; otherwise the form's
      fields, owned by that user, under the generated `id`, with an image that
      is never empty, the default distance, and the tags `[type, 'Verified']`. */
  function NewListing(session: Option<User>, id: string, form: Form): (r: Option<Listing>)
    ensures r.None? <==> session.None?
    ensures r.Some? ==> r.value.ownerId == session.value.id && r.value.id == id
    ensures r.Some? ==> && r.value.title == form.title && r.value.location == form.location
                        && r.value.listingType == form.listingType && r.value.price == form.price
                        && r.value.description == form.description
    ensures r.Some? ==> r.value.image != ""
    ensures r.Some? ==> r.value.image == if form.image != "" then form.image else PlaceholderImage
    ensures r.Some? ==> r.value.distance == DefaultDistance
    ensures r.Some? ==> r.value.tags == [form.listingType, VerifiedTag]
  {
    match session
    case None => None
    case Some(u) =>
      Some(Listing(
        id := id,
        ownerId := u.id,
        title := form.title,
        location := form.location,
        listingType := form.listingType,
        price := form.price,
        image := if form.image != "" then form.image else PlaceholderImage,
        description := form.description,
        distance := DefaultDistance,
        tags := [form.listingType, VerifiedTag]))
  }

  /** Once appended to the repository, a new listing is the last entry of its
      creator's owner view. */
  lemma NewListingInOwnerView(listings: seq<Listing>, u: User, id: string, form: Form)
    ensures var l := NewListing(Some(u), id, form).value;
      Dashboard.OwnerListings(listings + [l], u) == Dashboard.OwnerListings(listings, u) + [l]
  {
    Dashboard.OwnerListingsAppend(listings, u, NewListing(Some(u), id, form).value);
  }

  /** Once appended, a new listing is found on the explore page by searching
      its own title with its own type and price selected. */
  lemma NewListingFoundByOwnFields(listings: seq<Listing>, u: User, id: string, form: Form)
    ensures var l := NewListing(Some(u), id, form).value;
      l in Explore.ExploreListings(listings + [l],
             Explore.Criteria(form.title, form.listingType, Explore.AtMost(form.price)))
  {
    var l := NewListing(Some(u), id, form).value;
    assert l in listings + [l];
    assert Text.Contains(l.title, form.title) by {
      assert l.title <= l.title;
    }
    Explore.ExploreShowsExactMatch(listings + [l],
      Explore.Criteria(form.title, form.listingType, Explore.AtMost(form.price)), l);
  }
}
