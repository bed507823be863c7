/** Which dashboard a user gets and what it lists, whether the dashboard link
    is shown, and the featured strip of the home page. */
module Dashboard {
  import opened Wrappers
  import opened Seqs
  import opened Records
  import opened StudentViews
  import Explore

  const OwnerRole := "owner"
  const AdminRole := "admin"
  const StudentRole := "student"

  /** How many listings the featured strip shows. */
  const FeaturedCount := 3

  /** Owners and admins both get the owner dashboard. */
  predicate ManagesListings(role: string) {
    role == OwnerRole || role == AdminRole
  }

  function KeepOwnedBy(userId: string): Listing -> bool {
    (l: Listing) => l.ownerId == userId
  }

  /** The owner view: exactly the listings whose owner is the user, in
      repository order. */
  function OwnerListings(listings: seq<Listing>, u: User): (r: seq<Listing>)
    ensures IsSubsequence(r, listings)
    ensures forall l :: l in r <==> l in listings && l.ownerId == u.id
    ensures forall l :: multiset(r)[l] == if l.ownerId == u.id then multiset(listings)[l] else 0
  {
    FilterIsSubsequence(KeepOwnedBy(u.id), listings);
    FilterKeeps(KeepOwnedBy(u.id), listings);
    Filter(KeepOwnedBy(u.id), listings)
  }

  /** A listing appended to the repository shows up at the end of its owner's
      view and leaves every other user's view as it was. */
  lemma OwnerListingsAppend(listings: seq<Listing>, u: User, l: Listing)
    ensures OwnerListings(listings + [l], u)
         == if l.ownerId == u.id then OwnerListings(listings, u) + [l] else OwnerListings(listings, u)
  {
    FilterAppend(KeepOwnedBy(u.id), listings, [l]);
    assert Filter(KeepOwnedBy(u.id), [l]) == if l.ownerId == u.id then [l] else [];
  }

  /** What the dashboard page shows. */
  datatype DashboardView =
    | OwnerView(myListings: seq<Listing>)
    | StudentView(welcome: string, wishlist: seq<Listing>, bookings: seq<BookedListing>)
    | NoView  // the handler leaves both panels as they were

  /** The dashboard for `u`: owners and admins see their own listings,
      students see their wishlist and bookings.  For any other role the
      handler changes nothing on the page, which `NoView` stands for.
      The user is a parameter here; the page handler reads it from a variable
      it never binds. */
  function RenderDashboard(listings: seq<Listing>, u: User): (r: DashboardView)
    ensures r.OwnerView? <==> ManagesListings(u.role)
    ensures r.StudentView? <==> u.role == StudentRole
    ensures r.OwnerView? ==> r.myListings == OwnerListings(listings, u)
    ensures r.OwnerView? ==> IsSubsequence(r.myListings, listings)
    ensures r.OwnerView? ==> forall l :: l in r.myListings <==> l in listings && l.ownerId == u.id
    ensures r.StudentView? ==> r.welcome == "Welcome, " + u.name
    ensures r.StudentView? ==> r.wishlist == WishlistItems(listings, u)
    ensures r.StudentView? ==> r.bookings == BookedListings(listings, BookingsOf(u))
  {
    if ManagesListings(u.role) then OwnerView(OwnerListings(listings, u))
    else if u.role == StudentRole then
      StudentView("Welcome, " + u.name, WishlistItems(listings, u), BookedListings(listings, BookingsOf(u)))
    else NoView
  }

  /** Whether the dashboard link is shown: only for a signed-in owner, admin
      or student; hidden for any other role and when nobody is signed in. */
  function DashboardLinkShown(session: Option<User>): (r: bool)
    ensures r <==> session.Some? && session.value.role in {OwnerRole, AdminRole, StudentRole}
  {
    match session
    case None => false
    case Some(u) =>
      if u.role == OwnerRole || u.role == AdminRole then true
      else if u.role == StudentRole then true
      else false
  }

  /** The link is shown exactly when the dashboard it leads to has something
      to render. */
  lemma LinkShownIffDashboardRenders(listings: seq<Listing>, u: User)
    ensures DashboardLinkShown(Some(u)) <==> !RenderDashboard(listings, u).NoView?
  {
  }

  /** The featured strip: the first three listings (all of them when there are
      fewer), in repository order. */
  function Featured(listings: seq<Listing>): (r: seq<Listing>)
    ensures |r| == if |listings| < FeaturedCount then |listings| else FeaturedCount
    ensures r <= listings
  {
    Take(listings, FeaturedCount)
  }

  /** The featured listings are a subsequence of what the explore page shows
      with no filter set. */
  lemma FeaturedShownByExplore(listings: seq<Listing>)
    ensures IsSubsequence(Featured(listings), Explore.ExploreListings(listings, Explore.NoFilters))
  {
    Explore.ExploreWithoutFilters(listings);
    PrefixIsSubsequence(Featured(listings), listings);
  }
}
