/**
 * The read side of brokers/views.py: the querysets the views build from
 * the tables (filters applied in turn, then the ordering), the client
 * address used to record a view, and the per-product image selection.
 * Query parameters arrive already parsed: a price bound is `None` when
 * the parameter is absent or empty.
 */
module Queries {
  import opened Wrappers
  import opened Text
  import opened Sorting
  import opened Categories
  import opened Products
  import opened Catalog

  // ---------------------------------------------------------------------
  // Filtering

  /** `queryset.filter(...)`: the rows that pass, in their order. */
  function Filter<T>(s: seq<T>, keep: T -> bool): seq<T> {
    if s == [] then []
    else if keep(s[0]) then [s[0]] + Filter(s[1..], keep)
    else Filter(s[1..], keep)
  }

  lemma {:induction false} FilterMembers<T>(s: seq<T>, keep: T -> bool)
    ensures forall x :: x in Filter(s, keep) <==> x in s && keep(x)
  {
    if s != [] {
      FilterMembers(s[1..], keep);
      assert s == [s[0]] + s[1..];
    }
  }

  lemma {:induction false} FilterLength<T>(s: seq<T>, keep: T -> bool)
    ensures |Filter(s, keep)| <= |s|
  {
    if s != [] {
      FilterLength(s[1..], keep);
    }
  }

  /** A filter that keeps every row changes nothing. */
  lemma {:induction false} FilterAll<T>(s: seq<T>, keep: T -> bool)
    requires forall x :: x in s ==> keep(x)
    ensures Filter(s, keep) == s
  {
    if s != [] {
      assert s == [s[0]] + s[1..];
      FilterAll(s[1..], keep);
    }
  }

  // ---------------------------------------------------------------------
  // ProductViewSet.get_queryset

  /** `show_sold`, lower-cased, must be exactly `"true"`; it defaults to `"false"`. */
  function ShowSold(param: Option<string>): bool {
    Lower(param.GetOr("false")) == "true"
  }

  lemma ShowSoldExactly(param: Option<string>)
    ensures ShowSold(param) <==> param.Some? && Lower(param.value) == "true"
  {
    if param.None? {
      assert Lower("false")[0] == 'f';
    }
  }

  /** `price__gte` and `price__lte`, each applied only when given. */
  function PriceFiltered(ps: seq<Product>, minPrice: Option<nat>, maxPrice: Option<nat>): seq<Product> {
    var low := if minPrice.Some? then Filter(ps, (p: Product) => p.price >= minPrice.value) else ps;
    if maxPrice.Some? then Filter(low, (p: Product) => p.price <= maxPrice.value) else low
  }

  /** The price filters keep exactly the rows within the given bounds, both inclusive. */
  lemma PriceFilteredMembers(ps: seq<Product>, minPrice: Option<nat>, maxPrice: Option<nat>)
    ensures forall p :: p in PriceFiltered(ps, minPrice, maxPrice) <==>
      p in ps && (minPrice.Some? ==> minPrice.value <= p.price) && (maxPrice.Some? ==> p.price <= maxPrice.value)
  {
    var low := if minPrice.Some? then Filter(ps, (p: Product) => p.price >= minPrice.value) else ps;
    if minPrice.Some? {
      FilterMembers(ps, (p: Product) => p.price >= minPrice.value);
    }
    if maxPrice.Some? {
      FilterMembers(low, (p: Product) => p.price <= maxPrice.value);
    }
  }

  /** Without bounds the price filters change nothing. */
  lemma PriceFilteredNoBounds(ps: seq<Product>)
    ensures PriceFiltered(ps, None, None) == ps
  {
  }

  /** The default ordering of the product list: featured first, then newest first. */
  function ListKey(p: Product): seq<int> {
    [if p.isFeatured then 0 else 1, -(p.createdAt as int)]
  }

  /** Newest first. */
  function NewestKey(p: Product): seq<int> {
    [-(p.createdAt as int)]
  }

  /** The rows `get_queryset` selects: active, unsold unless asked for, within the price bounds. */
  predicate Listed(p: Product, showSold: bool, minPrice: Option<nat>, maxPrice: Option<nat>) {
    p.isActive && (showSold || !p.isSold)
    && (minPrice.Some? ==> minPrice.value <= p.price) && (maxPrice.Some? ==> p.price <= maxPrice.value)
  }

  /** `ProductViewSet.get_queryset`. */
  function ProductQueryset(ps: seq<Product>, showSold: bool, minPrice: Option<nat>, maxPrice: Option<nat>): seq<Product> {
    var active := Filter(ps, (p: Product) => p.isActive);
    var scoped := if showSold then active else Filter(active, (p: Product) => !p.isSold);
    SortByKey(PriceFiltered(scoped, minPrice, maxPrice), ListKey)
  }

  /** The list holds exactly the listed rows, in the default ordering. */
  lemma ProductQuerysetSpec(ps: seq<Product>, showSold: bool, minPrice: Option<nat>, maxPrice: Option<nat>)
    ensures forall p :: p in ProductQueryset(ps, showSold, minPrice, maxPrice) <==> p in ps && Listed(p, showSold, minPrice, maxPrice)
    ensures SortedBy(ProductQueryset(ps, showSold, minPrice, maxPrice), ListKey)
  {
    var active := Filter(ps, (p: Product) => p.isActive);
    FilterMembers(ps, (p: Product) => p.isActive);
    var scoped := if showSold then active else Filter(active, (p: Product) => !p.isSold);
    FilterMembers(active, (p: Product) => !p.isSold);
    PriceFilteredMembers(scoped, minPrice, maxPrice);
    SortByKeyMembers(PriceFiltered(scoped, minPrice, maxPrice), ListKey);
    SortByKeySorted(PriceFiltered(scoped, minPrice, maxPrice), ListKey);
  }

  /** A product that is not active is never listed, whatever `show_sold` says. */
  lemma InactiveNeverListed(ps: seq<Product>, p: Product, showSold: bool, minPrice: Option<nat>, maxPrice: Option<nat>)
    requires !p.isActive
    ensures p !in ProductQueryset(ps, showSold, minPrice, maxPrice)
  {
    ProductQuerysetSpec(ps, showSold, minPrice, maxPrice);
  }

  /** `get_object()` with lookup on `slug`: the row of the queryset with that slug, if any. */
  function LookupSlug(qs: seq<Product>, slug: string): (r: Option<Product>)
    ensures r.Some? ==> r.value in qs && r.value.slug == slug
    ensures r.None? <==> forall p :: p in qs ==> p.slug != slug
  {
    if qs == [] then None else if qs[0].slug == slug then Some(qs[0]) else LookupSlug(qs[1..], slug)
  }

  /** The product a detail route finds, if any. */
  function GetProduct(ps: seq<Product>, slug: string, showSold: bool, minPrice: Option<nat>, maxPrice: Option<nat>): Option<Product> {
    LookupSlug(ProductQueryset(ps, showSold, minPrice, maxPrice), slug)
  }

  /** A detail route finds a product exactly when a listed product has that slug. */
  lemma GetProductSpec(ps: seq<Product>, slug: string, showSold: bool, minPrice: Option<nat>, maxPrice: Option<nat>)
    ensures var r := GetProduct(ps, slug, showSold, minPrice, maxPrice);
      && (r.Some? ==> r.value in ps && r.value.slug == slug && Listed(r.value, showSold, minPrice, maxPrice))
      && (r.None? <==> forall p :: p in ps && p.slug == slug ==> !Listed(p, showSold, minPrice, maxPrice))
  {
    ProductQuerysetSpec(ps, showSold, minPrice, maxPrice);
  }

  // ---------------------------------------------------------------------
  // CategoryViewSet.products

  /** The search of `CategoryViewSet.products`: title, brand, model or description, ignoring case. */
  predicate Matches(p: Product, term: string) {
    ContainsIgnoringCase(p.title, term) || ContainsIgnoringCase(p.brand, term)
    || ContainsIgnoringCase(p.model, term) || ContainsIgnoringCase(p.description, term)
  }

  /** The city is not searched: moving a product to another city never changes whether it matches. */
  lemma MatchesIgnoresCity(p: Product, city: string, term: string)
    ensures Matches(p.(locationCity := city), term) == Matches(p, term)
  {
  }

  /** A term found in the title, in any letter case, matches. */
  lemma MatchesTitle(p: Product, term: string, i: int)
    requires OccursAt(Lower(p.title), Lower(term), i)
    ensures Matches(p, term)
  {
    ContainsIff(Lower(p.title), Lower(term));
  }

  /** `CategoryViewSet.get_object()`: an active category with that slug. */
  function ActiveCategoryBySlug(cats: seq<Category>, slug: string): (r: Option<Category>)
    ensures r.Some? ==> r.value in cats && r.value.isActive && r.value.slug == slug
    ensures r.None? <==> forall c :: c in cats && c.isActive ==> c.slug != slug
  {
    if cats == [] then None
    else if cats[0].isActive && cats[0].slug == slug then Some(cats[0])
    else ActiveCategoryBySlug(cats[1..], slug)
  }

  /** The rows `CategoryViewSet.products` selects for the category with key `cid`. */
  predicate InCategoryList(p: Product, cid: nat, search: Option<string>, minPrice: Option<nat>, maxPrice: Option<nat>) {
    p.category == cid && p.isActive && !p.isSold
    && (search.Some? && search.value != "" ==> Matches(p, search.value))
    && (minPrice.Some? ==> minPrice.value <= p.price) && (maxPrice.Some? ==> p.price <= maxPrice.value)
  }

  /** The products of category `cid`, filtered in turn, in the list ordering. */
  function CategoryQueryset(ps: seq<Product>, cid: nat, search: Option<string>, minPrice: Option<nat>, maxPrice: Option<nat>): seq<Product> {
    var inCat := Filter(ps, (p: Product) => p.category == cid && p.isActive && !p.isSold);
    var found := if search.Some? && search.value != "" then Filter(inCat, (p: Product) => Matches(p, search.value)) else inCat;
    SortByKey(PriceFiltered(found, minPrice, maxPrice), ListKey)
  }

  /** `CategoryViewSet.products`: not found unless an active category has the slug. */
  function CategoryProducts(cats: seq<Category>, ps: seq<Product>, slug: string, search: Option<string>,
                            minPrice: Option<nat>, maxPrice: Option<nat>): Option<seq<Product>> {
    match ActiveCategoryBySlug(cats, slug)
    case None => None
    case Some(c) => Some(CategoryQueryset(ps, c.id, search, minPrice, maxPrice))
  }

  lemma CategoryQuerysetSpec(ps: seq<Product>, cid: nat, search: Option<string>, minPrice: Option<nat>, maxPrice: Option<nat>)
    ensures forall p :: p in CategoryQueryset(ps, cid, search, minPrice, maxPrice) <==>
      p in ps && InCategoryList(p, cid, search, minPrice, maxPrice)
    ensures SortedBy(CategoryQueryset(ps, cid, search, minPrice, maxPrice), ListKey)
  {
    var inCat := Filter(ps, (p: Product) => p.category == cid && p.isActive && !p.isSold);
    FilterMembers(ps, (p: Product) => p.category == cid && p.isActive && !p.isSold);
    var found := if search.Some? && search.value != "" then Filter(inCat, (p: Product) => Matches(p, search.value)) else inCat;
    if search.Some? && search.value != "" {
      FilterMembers(inCat, (p: Product) => Matches(p, search.value));
    }
    PriceFilteredMembers(found, minPrice, maxPrice);
    SortByKeyMembers(PriceFiltered(found, minPrice, maxPrice), ListKey);
    SortByKeySorted(PriceFiltered(found, minPrice, maxPrice), ListKey);
  }

  // ---------------------------------------------------------------------
  // featured and my_products

  /** How many products `featured` returns at most. */
  const FeaturedLimit: nat := 20

  /** The rows `featured` selects. */
  predicate FeaturedCandidate(p: Product) {
    p.isActive && !p.isSold && p.isFeatured
  }

  /** `featured`: active, unsold, featured products, newest first, at most twenty. */
  function Featured(ps: seq<Product>): seq<Product> {
    Take(SortByKey(Filter(ps, FeaturedCandidate), NewestKey), FeaturedLimit)
  }

  /**
   * `featured` returns at most twenty active, unsold, featured products,
   * newest first; a candidate left out is no newer than any returned, and
   * is left out only when twenty are returned.
   */
  lemma FeaturedSpec(ps: seq<Product>)
    ensures |Featured(ps)| <= FeaturedLimit
    ensures forall p :: p in Featured(ps) ==> p in ps && FeaturedCandidate(p)
    ensures SortedBy(Featured(ps), NewestKey)
    ensures forall p :: p in ps && FeaturedCandidate(p) && p !in Featured(ps) ==>
      |Featured(ps)| == FeaturedLimit && forall q :: q in Featured(ps) ==> q.createdAt >= p.createdAt
  {
    var keep := FeaturedCandidate;
    var sorted := SortByKey(Filter(ps, keep), NewestKey);
    FilterMembers(ps, keep);
    SortByKeyMembers(Filter(ps, keep), NewestKey);
    SortByKeySorted(Filter(ps, keep), NewestKey);
    TakeSorted(sorted, FeaturedLimit, NewestKey);
    var r := Take(sorted, FeaturedLimit);
    forall p | p in r ensures p in sorted {
      var i :| 0 <= i < |r| && r[i] == p;
      assert sorted[i] == p;
    }
    forall p | p in ps && keep(p) && p !in r
      ensures |r| == FeaturedLimit && forall q :: q in r ==> q.createdAt >= p.createdAt
    {
      var j :| 0 <= j < |sorted| && sorted[j] == p;
      assert |sorted| > FeaturedLimit && j >= FeaturedLimit;
      forall q | q in r ensures q.createdAt >= p.createdAt {
        var i :| 0 <= i < |r| && r[i] == q;
        assert sorted[i] == q;
        assert KeyLeq(NewestKey(sorted[i]), NewestKey(sorted[j]));
      }
    }
  }

  /** `my_products`: every product of the seller, whatever its flags, newest first. */
  function MyProducts(ps: seq<Product>, user: nat): seq<Product> {
    SortByKey(Filter(ps, (p: Product) => p.seller == user), NewestKey)
  }

  lemma MyProductsSpec(ps: seq<Product>, user: nat)
    ensures forall p :: p in MyProducts(ps, user) <==> p in ps && p.seller == user
    ensures SortedBy(MyProducts(ps, user), NewestKey)
  {
    FilterMembers(ps, (p: Product) => p.seller == user);
    SortByKeyMembers(Filter(ps, (p: Product) => p.seller == user), NewestKey);
    SortByKeySorted(Filter(ps, (p: Product) => p.seller == user), NewestKey);
  }

  // ---------------------------------------------------------------------
  // ProductInquiryViewSet.get_queryset

  /** The inquiry is about a stored product of `user`. */
  predicate AboutProductOf(q: Inquiry, ps: seq<Product>, user: nat) {
    IsKey(|ps|, q.product) && ps[q.product - 1].seller == user
  }

  function InquiryNewestKey(q: Inquiry): seq<int> {
    [-(q.createdAt as int)]
  }

  /** The inquiries a user sees: those about products they sell, newest first. */
  function SellerInquiries(inqs: seq<Inquiry>, ps: seq<Product>, user: nat): seq<Inquiry> {
    SortByKey(Filter(inqs, (q: Inquiry) => AboutProductOf(q, ps, user)), InquiryNewestKey)
  }

  lemma SellerInquiriesSpec(inqs: seq<Inquiry>, ps: seq<Product>, user: nat)
    ensures forall q :: q in SellerInquiries(inqs, ps, user) <==> q in inqs && AboutProductOf(q, ps, user)
    ensures SortedBy(SellerInquiries(inqs, ps, user), InquiryNewestKey)
  {
    FilterMembers(inqs, (q: Inquiry) => AboutProductOf(q, ps, user));
    SortByKeyMembers(Filter(inqs, (q: Inquiry) => AboutProductOf(q, ps, user)), InquiryNewestKey);
    SortByKeySorted(Filter(inqs, (q: Inquiry) => AboutProductOf(q, ps, user)), InquiryNewestKey);
  }

  // ---------------------------------------------------------------------
  // get_client_ip, main_image and the view count

  /** `get_client_ip`: the text before the first comma of `X-Forwarded-For` when it is given and not empty, else `REMOTE_ADDR`. */
  function ClientIp(forwardedFor: Option<string>, remoteAddr: string): string {
    if forwardedFor.Some? && forwardedFor.value != "" then BeforeFirst(forwardedFor.value, ',') else remoteAddr
  }

  /** The address is the first hop of the header, untrimmed: a prefix of it with no comma, ending at a comma or the end. */
  lemma ClientIpFirstHop(forwardedFor: string, remoteAddr: string)
    requires forwardedFor != ""
    ensures var ip := ClientIp(Some(forwardedFor), remoteAddr);
      ip <= forwardedFor && ',' !in ip && (|ip| == |forwardedFor| || forwardedFor[|ip|] == ',')
  {
  }

  /** The images of product `pid` in their default ordering (`product.images.all()`). */
  function ProductImages(imgs: seq<Image>, pid: nat): seq<Image> {
    SortByKey(ImagesOf(imgs, pid), ImageKey)
  }

  /** `product.main_image` read from the table. */
  function MainImageOf(imgs: seq<Image>, pid: nat): Option<Image> {
    MainImage(ProductImages(imgs, pid))
  }

  /** The main image is one of the product's images, and there is one exactly when the product has images. */
  lemma MainImageOfSpec(imgs: seq<Image>, pid: nat)
    ensures MainImageOf(imgs, pid).Some? <==> exists m :: m in imgs && m.product == pid
    ensures MainImageOf(imgs, pid).Some? ==> MainImageOf(imgs, pid).value in imgs && MainImageOf(imgs, pid).value.product == pid
  {
    ImagesOfMembers(imgs, pid);
    SortByKeyMembers(ImagesOf(imgs, pid), ImageKey);
    var s := ProductImages(imgs, pid);
    if exists m :: m in imgs && m.product == pid {
      var m :| m in imgs && m.product == pid;
      assert m in s;
    }
  }

  /** With one main image in the table, `main_image` is that image, wherever it stands in the ordering. */
  lemma MainImageOfUniqueMain(imgs: seq<Image>, pid: nat, m: Image)
    requires OneMainEach(imgs) && m in imgs && m.product == pid && m.isMain
    ensures MainImageOf(imgs, pid) == Some(m)
  {
    ImagesOfMembers(imgs, pid);
    SortByKeyMembers(ImagesOf(imgs, pid), ImageKey);
    var s := ProductImages(imgs, pid);
    var r := FirstMain(s);
    assert m in s;
    var x := r.value;
    var i :| 0 <= i < |imgs| && imgs[i] == x;
    var j :| 0 <= j < |imgs| && imgs[j] == m;
    MainIndexUnique(imgs, i, j);
  }

  /** `views.count`: the recorded views of product `pid`. */
  function ViewCount(views: map<ViewKey, ViewInfo>, pid: nat): nat {
    |set k | k in views && k.product == pid|
  }

  /**
   * A first visit for a (product, address, session) triple adds one view
   * to that product and none to any other; a repeat visit adds nothing.
   */
  lemma ViewCountRecorded(views: map<ViewKey, ViewInfo>, key: ViewKey, info: ViewInfo, pid: nat)
    requires key !in views
    ensures ViewCount(views[key := info], pid) == ViewCount(views, pid) + (if key.product == pid then 1 else 0)
  {
    var before := set k | k in views && k.product == pid;
    var after := set k | k in views[key := info] && k.product == pid;
    if key.product == pid {
      assert after == before + {key};
    } else {
      assert after == before;
    }
  }
}
