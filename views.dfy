/**
 * The write side of brokers/views.py: the detail lookup through the
 * scoped queryset, `retrieve` recording a view, the owner-only
 * `mark_sold` / `mark_available` toggles, `inquire`, and `create` /
 * `update` through the serializer. A request fails with the statuses
 * DRF answers with: 401 when a write comes without a logged-in user
 * (checked first), 404 when the lookup finds nothing, 403 when the
 * caller may not touch the product, 400 when the data does not validate.
 */
module Views {
  import opened Wrappers
  import opened Categories
  import opened Products
  import opened Catalog
  import opened Queries
  import opened Serializers

  /** The failing responses: 401, 404, 403 and 400. */
  datatype Failure = Unauthorized | NotFound | Forbidden | BadRequest

  /** The query parameters `get_queryset` reads, already parsed; an empty price parameter is `None`. */
  datatype Params = Params(showSold: Option<string>, minPrice: Option<nat>, maxPrice: Option<nat>)

  /** `get_object`: the product with the route's slug in the scoped queryset. */
  function Lookup(ps: seq<Product>, slug: string, params: Params): Option<Product> {
    GetProduct(ps, slug, ShowSold(params.showSold), params.minPrice, params.maxPrice)
  }

  /** `request.session.session_key or 'anonymous'`; an absent session key is the empty string. */
  function SessionOf(sessionKey: string): string {
    if sessionKey == "" then "anonymous" else sessionKey
  }

  // ---------------------------------------------------------------------
  // Who may write to a product

  /**
   * What stands between a write on a detail route and the product: a
   * logged-in user, a product found by the lookup and, when `ownerOnly`,
   * the caller being its seller.
   */
  function WriteGate(ps: seq<Product>, slug: string, params: Params, user: Option<nat>, ownerOnly: bool): Result<Product, Failure> {
    if user.None? then Err(Unauthorized)
    else match Lookup(ps, slug, params)
      case None => Err(NotFound)
      case Some(p) => if ownerOnly && p.seller != user.value then Err(Forbidden) else Ok(p)
  }

  /**
   * The gate lets a request through exactly when a user is logged in,
   * the lookup finds the product and, under an owner check, the user
   * sells it; the product let through is a listed product with the slug.
   */
  lemma WriteGateSpec(ps: seq<Product>, slug: string, params: Params, user: Option<nat>, ownerOnly: bool)
    ensures var r := WriteGate(ps, slug, params, user, ownerOnly);
      var found := Lookup(ps, slug, params);
      && (r.Ok? <==> user.Some? && found.Some? && (ownerOnly ==> found.value.seller == user.value))
      && (r.Ok? ==> r.value in ps && r.value.slug == slug && r.value.isActive
                    && (ownerOnly ==> r.value.seller == user.value))
      && (r == Err(Unauthorized) <==> user.None?)
      && (r == Err(NotFound) <==> user.Some? && found.None?)
      && (r == Err(Forbidden) <==> ownerOnly && user.Some? && found.Some? && found.value.seller != user.value)
  {
    GetProductSpec(ps, slug, ShowSold(params.showSold), params.minPrice, params.maxPrice);
  }

  /** Without the owner check any logged-in user gets through to any product the lookup finds. */
  lemma GateWithoutOwnerCheck(ps: seq<Product>, slug: string, params: Params, user: nat)
    requires Lookup(ps, slug, params).Some?
    ensures WriteGate(ps, slug, params, Some(user), false) == Ok(Lookup(ps, slug, params).value)
    ensures Lookup(ps, slug, params).value.seller != user ==> WriteGate(ps, slug, params, Some(user), true) == Err(Forbidden)
  {
  }

  /** A concrete case: user 2 passes the gate of `update` as written on a product that user 1 sells. */
  lemma NonSellerPassesUpdateGate(p: Product)
    requires p.isActive && !p.isSold && p.seller == 1 && p.slug == "phone"
    ensures WriteGate([p], "phone", Params(None, None, None), Some(2), false) == Ok(p)
    ensures WriteGate([p], "phone", Params(None, None, None), Some(2), true) == Err(Forbidden)
  {
    var ps := [p];
    var params := Params(None, None, None);
    GetProductSpec(ps, "phone", ShowSold(params.showSold), params.minPrice, params.maxPrice);
    ShowSoldExactly(params.showSold);
    assert Listed(p, ShowSold(params.showSold), None, None);
  }

  // ---------------------------------------------------------------------
  // Products that are retired

  /**
   * A product replaced by an inactive row can no longer be looked up by
   * its slug, whatever the parameters, since no other product shares it.
   */
  lemma RetiredNotFound(ps: seq<Product>, k: nat, q: Product, params: Params)
    requires UniqueSlugs(ps) && k < |ps| && !q.isActive
    ensures Lookup(ps[k := q], ps[k].slug, params).None?
  {
    var qs := ps[k := q];
    GetProductSpec(qs, ps[k].slug, ShowSold(params.showSold), params.minPrice, params.maxPrice);
    forall p | p in qs && p.slug == ps[k].slug
      ensures !Listed(p, ShowSold(params.showSold), params.minPrice, params.maxPrice)
    {
      var i :| 0 <= i < |qs| && qs[i] == p;
      if i != k {
        assert ps[i].slug == ps[k].slug;
      }
    }
  }

  /** The same, for every choice of parameters at once. */
  lemma RetiredNotFoundAnywhere(ps: seq<Product>, k: nat, q: Product, qs: seq<Product>)
    requires UniqueSlugs(ps) && k < |ps| && !q.isActive && qs == ps[k := q]
    ensures forall params: Params :: Lookup(qs, ps[k].slug, params).None?
  {
    forall params: Params ensures Lookup(qs, ps[k].slug, params).None? {
      RetiredNotFound(ps, k, q, params);
    }
  }

  // ---------------------------------------------------------------------
  // retrieve

  /** What the detail route answers with: the product, its images and its view count. */
  datatype Detail = Detail(product: Product, images: seq<Image>, viewCount: nat)

  /**
   * `retrieve`: the detail of the product found, serialized before the
   * view is recorded, so the count does not include this visit. The view
   * row is created only for a new (product, address, session) triple.
   */
  method Retrieve(store: Store, slug: string, params: Params, forwardedFor: Option<string>, remoteAddr: string,
                  sessionKey: string, userAgent: Option<string>, now: nat) returns (r: Result<Detail, Failure>)
    requires store.Valid()
    modifies store
    ensures store.Valid()
    ensures store.categories == old(store.categories) && store.products == old(store.products)
    ensures store.images == old(store.images) && store.inquiries == old(store.inquiries)
    ensures Lookup(old(store.products), slug, params).None? ==> r == Err(NotFound) && store.views == old(store.views)
    ensures Lookup(old(store.products), slug, params).Some? ==>
      var p := Lookup(old(store.products), slug, params).value;
      var key := ViewKey(p.id, ClientIp(forwardedFor, remoteAddr), SessionOf(sessionKey));
      && r == Ok(Detail(p, ProductImages(store.images, p.id), ViewCount(old(store.views), p.id)))
      && (key in old(store.views) ==> store.views == old(store.views))
      && (key !in old(store.views) ==> store.views == old(store.views)[key := ViewInfo(userAgent.GetOr(""), now)]
                                       && ViewCount(store.views, p.id) == ViewCount(old(store.views), p.id) + 1)
  {
    var found := Lookup(store.products, slug, params);
    if found.None? {
      return Err(NotFound);
    }
    var p := found.value;
    GetProductSpec(store.products, slug, ShowSold(params.showSold), params.minPrice, params.maxPrice);
    KeyOfMember(store.products, p);
    r := Ok(Detail(p, ProductImages(store.images, p.id), ViewCount(store.views, p.id)));
    var key := ViewKey(p.id, ClientIp(forwardedFor, remoteAddr), SessionOf(sessionKey));
    if key !in store.views {
      ViewCountRecorded(store.views, key, ViewInfo(userAgent.GetOr(""), now), p.id);
    }
    var info, created := store.RecordView(p.id, key.ip, key.session, userAgent.GetOr(""), now);
  }

  // ---------------------------------------------------------------------
  // mark_sold and mark_available

  /**
   * `mark_sold` (`sold` true) and `mark_available` (`sold` false): only
   * the seller may set the pair (is_sold, is_active) to (sold, not sold);
   * every refusal leaves the store as it was. A product marked sold is
   * inactive, so no later lookup by its slug finds it, not even with
   * `show_sold=true`: `mark_available` cannot bring it back.
   */
  method Mark(store: Store, slug: string, params: Params, user: Option<nat>, sold: bool,
              slugify: string -> string, now: nat) returns (r: Result<Product, Failure>)
    requires store.Valid()
    modifies store
    ensures store.Valid()
    ensures store.categories == old(store.categories) && store.images == old(store.images)
    ensures store.views == old(store.views) && store.inquiries == old(store.inquiries)
    ensures var g := WriteGate(old(store.products), slug, params, user, true);
      && (g.Err? ==> r == Err(g.error) && store.products == old(store.products))
      && (g.Ok? ==> r.Ok? && r.value == g.value.(isSold := sold, isActive := !sold, slug := r.value.slug, updatedAt := now)
                    && (g.value.slug != "" ==> r.value.slug == g.value.slug))
    ensures r.Ok? ==> IsKey(|old(store.products)|, r.value.id) && store.products == Overwrite(old(store.products), r.value.id, r.value)
    ensures r.Ok? && sold ==> forall q: Params :: Lookup(store.products, slug, q).None?
  {
    WriteGateSpec(store.products, slug, params, user, true);
    var g := WriteGate(store.products, slug, params, user, true);
    if g.Err? {
      return Err(g.error);
    }
    var q := SetFlags(store, g.value, sold, slugify, now);
    r := Ok(q);
  }

  /** Saving a stored product with the pair (is_sold, is_active) set to (sold, not sold). */
  method SetFlags(store: Store, p: Product, sold: bool, slugify: string -> string, now: nat) returns (q: Product)
    requires store.Valid() && p in store.products
    modifies store
    ensures store.Valid()
    ensures store.categories == old(store.categories) && store.images == old(store.images)
    ensures store.views == old(store.views) && store.inquiries == old(store.inquiries)
    ensures q == p.(isSold := sold, isActive := !sold, slug := q.slug, updatedAt := now)
    ensures p.slug != "" ==> q.slug == p.slug
    ensures IsKey(|old(store.products)|, q.id) && store.products == Overwrite(old(store.products), q.id, q)
    ensures sold ==> forall params: Params :: Lookup(store.products, p.slug, params).None?
  {
    KeyOfMember(store.products, p);
    ghost var before := store.products;
    if p.slug != "" {
      OwnSlugNotOther(store.products, p.id - 1);
    }
    var saved := store.SaveProduct(p.(isSold := sold, isActive := !sold), slugify, now);
    q := saved.value;
    if sold {
      RetiredNotFoundAnywhere(before, p.id - 1, q, store.products);
    }
  }

  // ---------------------------------------------------------------------
  // inquire

  /** The request body of `inquire`; an absent field is `None`. */
  datatype InquiryData = InquiryData(product: Option<nat>, name: Option<string>, phone: Option<string>,
                                     email: Option<string>, message: Option<string>, status: Option<string>)

  /** The choices of `ProductInquiry.status`. */
  predicate StatusChoice(s: string) {
    s == "new" || s == "replied" || s == "closed"
  }

  /** `max_length` of `inquirer_name` and of `inquirer_phone`; `inquirer_email` has `EmailField`'s default. */
  const MaxNameLength: nat := 100
  const MaxPhoneLength: nat := 20
  const MaxEmailLength: nat := 254

  /**
   * `ProductInquirySerializer.is_valid`: the body must name an existing
   * product (any product, active or not), the texts fit their columns, a
   * given email is well formed, and the status, `"new"` when absent, is
   * one of the choices.
   */
  predicate InquiryAcceptable(d: InquiryData, productCount: nat, isEmail: string -> bool) {
    && d.product.Some? && IsKey(productCount, d.product.value)
    && |d.name.GetOr("")| <= MaxNameLength
    && |d.phone.GetOr("")| <= MaxPhoneLength
    && |d.email.GetOr("")| <= MaxEmailLength
    && (d.email.GetOr("") == "" || isEmail(d.email.GetOr("")))
    && StatusChoice(d.status.GetOr("new"))
  }

  /**
   * `inquire`: the action sets no permission classes of its own, so the
   * viewset's `IsAuthenticatedOrReadOnly` turns an anonymous POST away
   * with 401 before the lookup; any logged-in user, seller or not, may
   * inquire. The inquiry is stored about the product of the route,
   * whatever product the body names; absent texts are empty and an
   * absent status is `"new"`.
   */
  method Inquire(store: Store, slug: string, params: Params, user: Option<nat>, d: InquiryData,
                 isEmail: string -> bool, now: nat) returns (r: Result<Inquiry, Failure>)
    requires store.Valid()
    modifies store
    ensures store.Valid()
    ensures store.categories == old(store.categories) && store.products == old(store.products)
    ensures store.images == old(store.images) && store.views == old(store.views)
    ensures var found := Lookup(old(store.products), slug, params);
      && (user.None? ==> r == Err(Unauthorized))
      && (user.Some? && found.None? ==> r == Err(NotFound))
      && (user.Some? && found.Some? && !InquiryAcceptable(d, |old(store.products)|, isEmail) ==> r == Err(BadRequest))
      && (r.Err? ==> store.inquiries == old(store.inquiries))
      && (user.Some? && found.Some? && InquiryAcceptable(d, |old(store.products)|, isEmail) ==>
            r == Ok(Inquiry(|old(store.inquiries)| + 1, found.value.id, d.name.GetOr(""), d.phone.GetOr(""),
                            d.email.GetOr(""), d.message.GetOr(""), d.status.GetOr("new"), now))
            && store.inquiries == old(store.inquiries) + [r.value])
  {
    if user.None? {
      return Err(Unauthorized);
    }
    var found := Lookup(store.products, slug, params);
    if found.None? {
      return Err(NotFound);
    }
    if !InquiryAcceptable(d, |store.products|, isEmail) {
      return Err(BadRequest);
    }
    GetProductSpec(store.products, slug, ShowSold(params.showSold), params.minPrice, params.maxPrice);
    var q := SaveInquiry(store, found.value, d, now);
    r := Ok(q);
  }

  /** `serializer.save(product=product)`: the row stored for a valid body, about product `p`. */
  method SaveInquiry(store: Store, p: Product, d: InquiryData, now: nat) returns (q: Inquiry)
    requires store.Valid() && p in store.products
    modifies store
    ensures store.Valid()
    ensures store.categories == old(store.categories) && store.products == old(store.products)
    ensures store.images == old(store.images) && store.views == old(store.views)
    ensures q == Inquiry(|old(store.inquiries)| + 1, p.id, d.name.GetOr(""), d.phone.GetOr(""),
                         d.email.GetOr(""), d.message.GetOr(""), d.status.GetOr("new"), now)
    ensures store.inquiries == old(store.inquiries) + [q]
  {
    KeyOfMember(store.products, p);
    q := store.AddInquiry(p.id, d.name.GetOr(""), d.phone.GetOr(""), d.email.GetOr(""), d.message.GetOr(""),
                          d.status.GetOr("new"), now);
  }

  // ---------------------------------------------------------------------
  // create and update

  /**
   * `create` with `perform_create`: a logged-in user only, valid data
   * only; the new product is sold by the caller whatever the data says,
   * and its uploads become its images, the first one main.
   */
  method CreateProduct(store: Store, user: Option<nat>, fs: seq<Field>, uploads: seq<string>,
                       slugify: string -> string, isEmail: string -> bool, now: nat) returns (r: Result<Product, Failure>)
    requires store.Valid()
    modifies store
    ensures store.Valid()
    ensures user.None? ==> r == Err(Unauthorized)
    ensures user.Some? && !Acceptable(fs, uploads, false, old(store.categories), isEmail) ==> r == Err(BadRequest)
    ensures r.Err? ==> unchanged(store)
    ensures r.Ok? ==> store.categories == old(store.categories) && store.views == old(store.views)
                      && store.inquiries == old(store.inquiries)
    ensures user.Some? && Acceptable(fs, uploads, false, old(store.categories), isEmail) ==>
      && r.Ok?
      && r.value == NewProduct(fs, user.value).(id := |old(store.products)| + 1, slug := r.value.slug,
                                                createdAt := now, updatedAt := now)
      && r.value.seller == user.value && r.value.isActive && !r.value.isSold && !r.value.isFeatured
      && store.products == old(store.products) + [r.value]
      && store.images == old(store.images) + Uploaded(r.value.id, uploads, |old(store.images)| + 1, 0, true, now)
  {
    if user.None? {
      return Err(Unauthorized);
    }
    if !Acceptable(fs, uploads, false, store.categories, isEmail) {
      return Err(BadRequest);
    }
    NewProductDefaults(fs, user.value);
    var p := Create(store, fs, uploads, user.value, slugify, isEmail, now);
    r := Ok(p);
  }

  /**
   * The body of `update` once the product is found: the data must
   * validate (a partial update need not give every required field),
   * then the serializer writes it.
   */
  method SaveUpdate(store: Store, p: Product, fs: seq<Field>, uploads: seq<string>, partial: bool,
                    slugify: string -> string, isEmail: string -> bool, now: nat) returns (r: Result<Product, Failure>)
    requires store.Valid() && p in store.products
    modifies store
    ensures store.Valid()
    ensures !Acceptable(fs, uploads, partial, old(store.categories), isEmail) ==> r == Err(BadRequest) && unchanged(store)
    ensures r.Ok? ==> store.categories == old(store.categories) && store.views == old(store.views)
                      && store.inquiries == old(store.inquiries)
    ensures Acceptable(fs, uploads, partial, old(store.categories), isEmail) ==>
      && r.Ok?
      && r.value == SetAll(p, fs).(slug := r.value.slug, updatedAt := now)
      && (p.slug != "" ==> r.value.slug == p.slug)
      && store.products == Overwrite(old(store.products), p.id, r.value)
      && var existing := CountOf(old(store.images), p.id);
         store.images == old(store.images)
           + Uploaded(p.id, uploads[..Min(|uploads|, Room(existing))], |old(store.images)| + 1, existing, false, now)
  {
    if !Acceptable(fs, uploads, partial, store.categories, isEmail) {
      return Err(BadRequest);
    }
    if !partial {
      assert Acceptable(fs, uploads, true, store.categories, isEmail);
    }
    var q := Serializers.Update(store, p, fs, uploads, slugify, isEmail, now);
    r := Ok(q);
  }

  /**
   * `update` (PUT, `partial` false) and `partial_update` (PATCH) as the
   * repository has them: any logged-in user may update any product the
   * lookup finds, since `IsAuthenticatedOrReadOnly` does not look at the
   * seller.
   */
  method UpdateAsWritten(store: Store, slug: string, params: Params, user: Option<nat>, fs: seq<Field>,
                         uploads: seq<string>, partial: bool, slugify: string -> string, isEmail: string -> bool, now: nat)
      returns (r: Result<Product, Failure>)
    requires store.Valid()
    modifies store
    ensures store.Valid()
    ensures r != Err(Forbidden)
    ensures r.Ok? ==> store.categories == old(store.categories) && store.views == old(store.views)
                      && store.inquiries == old(store.inquiries)
    ensures var g := WriteGate(old(store.products), slug, params, user, false);
      && (g.Err? ==> r == Err(g.error) && unchanged(store))
      && (g.Ok? && !Acceptable(fs, uploads, partial, old(store.categories), isEmail) ==> r == Err(BadRequest) && unchanged(store))
      && (g.Ok? && Acceptable(fs, uploads, partial, old(store.categories), isEmail) ==>
            r.Ok? && r.value == SetAll(g.value, fs).(slug := r.value.slug, updatedAt := now)
            && IsKey(|old(store.products)|, g.value.id)
            && store.products == Overwrite(old(store.products), g.value.id, r.value)
            && var existing := CountOf(old(store.images), g.value.id);
               store.images == old(store.images)
                 + Uploaded(g.value.id, uploads[..Min(|uploads|, Room(existing))], |old(store.images)| + 1, existing, false, now))
  {
    WriteGateSpec(store.products, slug, params, user, false);
    var g := WriteGate(store.products, slug, params, user, false);
    if g.Err? {
      return Err(g.error);
    }
    r := SaveUpdate(store, g.value, fs, uploads, partial, slugify, isEmail, now);
  }

  /**
   * `update` and `partial_update` with the owner check `mark_sold` and
   * `mark_available` perform (brokers/views.py:131-135): a caller who does not sell the product is
   * refused with 403 and nothing changes; only the seller's valid data
   * is written.
   */
  method Update(store: Store, slug: string, params: Params, user: Option<nat>, fs: seq<Field>,
                uploads: seq<string>, partial: bool, slugify: string -> string, isEmail: string -> bool, now: nat)
      returns (r: Result<Product, Failure>)
    requires store.Valid()
    modifies store
    ensures store.Valid()
    ensures r.Ok? ==> user.Some? && r.value.seller == user.value
    ensures r.Ok? ==> store.categories == old(store.categories) && store.views == old(store.views)
                      && store.inquiries == old(store.inquiries)
    ensures var g := WriteGate(old(store.products), slug, params, user, true);
      && (g.Err? ==> r == Err(g.error) && unchanged(store))
      && (g.Ok? && !Acceptable(fs, uploads, partial, old(store.categories), isEmail) ==> r == Err(BadRequest) && unchanged(store))
      && (g.Ok? && Acceptable(fs, uploads, partial, old(store.categories), isEmail) ==>
            r.Ok? && r.value == SetAll(g.value, fs).(slug := r.value.slug, updatedAt := now)
            && IsKey(|old(store.products)|, g.value.id)
            && store.products == Overwrite(old(store.products), g.value.id, r.value)
            && var existing := CountOf(old(store.images), g.value.id);
               store.images == old(store.images)
                 + Uploaded(g.value.id, uploads[..Min(|uploads|, Room(existing))], |old(store.images)| + 1, existing, false, now))
  {
    WriteGateSpec(store.products, slug, params, user, true);
    var g := WriteGate(store.products, slug, params, user, true);
    if g.Err? {
      return Err(g.error);
    }
    r := SaveUpdate(store, g.value, fs, uploads, partial, slugify, isEmail, now);
    if r.Ok? {
      SetAllKeepsProtected(g.value, fs);
    }
  }
}
