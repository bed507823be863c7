# Listing views of the campus-housing client

This project models the view-derivation logic of the marketplace client's
`App` object (`js/app.js`): how the explore page filters listings by search
text, type and price; how the student dashboard builds the wishlist and the
bookings lists; how the owner dashboard and the featured strip pick their
listings; how a new listing is built from the add-listing form; how the
listing modal finds the owner's contact and labels the wishlist button; and
when the dashboard link is shown.

All of these are pure computations once separated from the DOM writes, so the
model is written as datatypes, functions and lemmas:

- `wrappers.dfy` — `Option`, for lookups that may find nothing and fields that may be absent.
- `seqs.dfy` — the array built-ins the views use (`filter`, `find`, `slice(0, n)`) and their laws: membership, multiplicity, order (subsequence), concatenation.
- `text.dfy` — ASCII lower-casing and `String.prototype.includes`, with the positional meaning of `includes`.
- `records.dfy` — listings, bookings and the session user; the `|| []` defaults; lookup of a listing by id.
- `explore.dfy` — the explore filter.
- `student_views.dfy` — the wishlist and bookings lists.
- `dashboard.dfy` — owner view, dashboard selection by role, dashboard link, featured strip.
- `listing_form.dfy` — the new listing record.
- `listing_details.dfy` — the listing modal.

Prices and the price cap are integers. Ids, roles, booking statuses and dates
are strings, as the code compares them: roles are free strings compared with
`===`. The dashboard link is hidden for any role other than owner, admin or
student (the final `else` of `checkAuth`). The dashboard handler has no such
`else`: for any other role it neither shows nor hides a panel, and
`Dashboard.NoView` stands for "this handler changes nothing".

The dashboard handler (`js/app.js:269-290`) reads a variable `user` that it
never binds. The model takes the user as an explicit parameter of
`Dashboard.RenderDashboard`. It does not say where that user comes from.
Unless some other script defines a global `user`, the handler throws a
`ReferenceError` on every call. After a booking, for instance, the listing
modal is then never closed, because `closeListingDetails()` (`js/app.js:375`)
comes after the dashboard refresh (`js/app.js:374`).

An empty search text matches every listing, because every string includes the
empty string (`Explore.ExploreWithoutFilters`).

## Model

| member | source | states |
|---|---|---|
| `Text.Lower` | js/app.js:468-475 | lower-casing keeps the length and lowers exactly the ASCII capitals, position by position |
| `Text.LowerIdempotent` | js/app.js:468 | lowering an already lowered search text changes nothing |
| `Text.ContainsIffOccurs` | js/app.js:474-475 | `includes` holds iff the searched text occurs at some position of the string |
| `Text.ContainsLowered` | js/app.js:474-475 | an exact-case occurrence is still found once both sides are lowered |
| `Records.FindListing` | js/app.js:310 | `find` by id yields nothing iff no listing has the id, else the first listing with that id |
| `Explore.ExploreListings` | js/app.js:472-484 | the explore result keeps repository order (subsequence), contains a listing iff it is in the repository and passes search, type and price, each as often as in the repository |
| `Explore.ExploreWithoutFilters` | js/app.js:468-483 | with empty search, type and price the result is the whole repository |
| `Explore.ExploreCaseInsensitive` | js/app.js:468-475 | the result for a search text equals the result for its lower-cased form |
| `Explore.ExploreSameUpToCase` | js/app.js:468-475 | two search texts that agree up to letter case give the same result |
| `Explore.ExploreShowsExactMatch` | js/app.js:472-483 | a listing whose title or location contains the search text exactly, and passes type and price, is shown |
| `Explore.ExploreTighterPrice` | js/app.js:481 | a stricter price cap yields a subsequence of the looser result |
| `StudentViews.WishlistItems` | js/app.js:294-296 | the wishlist view is the listings whose id is on the wishlist, each as often as in the repository, in repository order, at most as many as the repository holds |
| `StudentViews.WishlistAbsentIsEmpty` | js/app.js:295-296 | an absent wishlist gives an empty view |
| `StudentViews.WishlistDependsOnlyOnKnownIds` | js/app.js:296 | the view depends only on which existing listing ids are wishlisted: wishlist order and stale ids do not matter |
| `StudentViews.JoinBooking` | js/app.js:309-311 | a booking joins iff its listing id exists; the entry is the first such listing with the booking's status and date |
| `StudentViews.BookedListings` | js/app.js:307-312 | the bookings view has at most one entry per booking |
| `StudentViews.BookedListingsExactly` | js/app.js:307-312 | the bookings view has one entry per resolvable booking, in booking order, each the first matching listing with that booking's status and date |
| `StudentViews.BookedListingsLength` | js/app.js:307-312 | bookings with unknown listing ids are dropped; if all resolve, the view has one entry per booking |
| `Dashboard.OwnerListings` | js/app.js:275 | the owner view is exactly the listings owned by the user, each as often as in the repository, in repository order |
| `Dashboard.OwnerListingsAppend` | js/app.js:275 | an appended listing ends up last in its owner's view and changes no other user's view |
| `Dashboard.RenderDashboard` | js/app.js:269-290 | owners and admins get the owner view (exactly their listings), students the welcome text and the wishlist and bookings views; any other role leaves the page unchanged |
| `Dashboard.DashboardLinkShown` | js/app.js:171-190 | the dashboard link is shown iff a user is signed in and the role is owner, admin or student |
| `Dashboard.LinkShownIffDashboardRenders` | js/app.js:179-185 | the dashboard link is shown to a signed-in user iff the dashboard renders a view for that user's role |
| `Dashboard.Featured` | js/app.js:459 | the featured strip is the first min(3, n) listings |
| `Dashboard.FeaturedShownByExplore` | js/app.js:459 | the featured listings are a subsequence of the unfiltered explore result |
| `ListingForm.NewListing` | js/app.js:246-261 | nothing is built without a session user; otherwise the user owns the listing, the form fields are copied, the image is the form's or the placeholder and never empty, the distance is "Near Campus", the tags are the type then "Verified" |
| `ListingForm.NewListingInOwnerView` | js/app.js:250-261 | once appended, the new listing is the last entry of its creator's owner view |
| `ListingForm.NewListingFoundByOwnFields` | js/app.js:250-261 | once appended, the new listing is found by searching its title with its own type and price selected |
| `ListingDetails.OwnerContact` | js/app.js:408-410 | the first user with the owner id gives name and e-mail; with no such user the fallback name and address are used |
| `ListingDetails.WishlistButtonLabel` | js/app.js:429-430 | the button reads "Remove from Wishlist" iff the id is on the wishlist, else "Add to Wishlist" |
| `ListingDetails.LabelAgreesWithWishlistView` | js/app.js:429-430 | for a repository listing the button offers removal iff the listing is in the wishlist view |
| `ListingDetails.OpenListingDetails` | js/app.js:404-438 | no modal for an unknown id; otherwise the first listing with that id, its owner's contact, and the wishlist and booking buttons for a signed-in student only |

## Left out

- Dashboard.RenderDashboard: for a role other than owner, admin or student the page keeps whatever panel it showed before; the model returns `NoView` and does not track the previous panel.
- DOM work: element caching, event binding, navigation, tab switching, modal visibility, card templating and every `innerHTML`/`style`/`classList` write. Only the values these writes display are modelled.
- The `Store` and `Auth` objects (`login`, `signup`, `logout`, `getUser`, `getListings`, `getUsers`, `addListing`, `toggleWishlist`, `bookListing`) are not part of this model. Their results enter the model as parameters (the listing sequence, the user sequence, the session user).
- `NewListingInOwnerView` and `NewListingFoundByOwnFields` assume that adding a listing appends it to the sequence. That is how these two lemmas are stated; `Store.addListing` itself is not part of this model.
- Session persistence through `sessionStorage`, and `alert` messages: storage and I/O.
- Listing id generation from the clock (`Date.now().toString()`): the id is a parameter of `ListingForm.NewListing`.
- Date formatting of the booking date, the status badge colour, and the `encodeURIComponent`/mailto link: browser library calls and styling.
- Explore.ExploreListings: price and cap are integers, and `Number(...)` is not modelled. A cap that does not parse (NaN) would hide every listing; the model has no such value.
- Text.Lower: lowers only the ASCII letters A-Z. JavaScript's `toLowerCase` uses full Unicode case mapping.
- Text.ContainsLowered / Explore.ExploreShowsExactMatch: hold for the model's ASCII lowering only. Unicode lowering depends on context (final sigma): for the title "ΑΣ" and the search text "Σ", the text lowers to "σ" but the title to "ας", which does not include "σ", so the program hides a listing whose title contains the search text exactly.
- The `?.value ... || ''` fallbacks for missing filter inputs: the criteria are taken as already read.
- ListingForm.NewListing: an absent image field (`null`) is modelled as the empty string; both fall back to the placeholder.
