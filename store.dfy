/**
 * The catalog's database as one object: the category, product, image,
 * view and inquiry tables, and the rules the models apply when a row is
 * saved (brokers/models/product.py, brokers/models/category.py). Rows are
 * kept in insertion order, except categories, which are kept in their
 * default ordering. Primary keys come from one counter per table.
 */
module Catalog {
  import opened Wrappers
  import opened Text
  import opened Categories
  import opened Products

  /** The most images a product may hold. */
  const MaxImages: nat := 10

  /** Why a save is refused: the image cap (`ValueError`) or a database constraint (`IntegrityError`). */
  datatype SaveError = TooManyImages | IntegrityError

  /** The `unique_together` key of a `ProductView` row. */
  datatype ViewKey = ViewKey(product: nat, ip: string, session: string)

  /** The rest of a `ProductView` row. */
  datatype ViewInfo = ViewInfo(userAgent: string, viewedAt: nat)

  datatype Inquiry = Inquiry(id: nat, product: nat, name: string, phone: string, email: string,
                             message: string, status: string, createdAt: nat)

  // ---------------------------------------------------------------------
  // Keys
  //
  // Rows are never deleted here, so the auto-increment key of the row at
  // position `i` of a table is `i + 1`.

  /** Every row's key is its position plus one. */
  predicate KeyedByPosition<T>(rows: seq<T>, key: T -> nat) {
    forall i :: 0 <= i < |rows| ==> key(rows[i]) == i + 1
  }

  function ProductKey(p: Product): nat { p.id }
  function ImageKeyOf(m: Image): nat { m.id }
  function InquiryKey(q: Inquiry): nat { q.id }

  /** A key of a table with `n` rows. */
  predicate IsKey(n: nat, id: nat) {
    1 <= id <= n
  }

  /** The product table with the row under key `id` overwritten by `q`. */
  function Overwrite(ps: seq<Product>, id: nat, q: Product): seq<Product>
    requires IsKey(|ps|, id)
  {
    ps[id - 1 := q]
  }

  /** In a table keyed by position, a stored row sits at its key minus one. */
  lemma KeyOfMember(ps: seq<Product>, p: Product)
    requires KeyedByPosition(ps, ProductKey) && p in ps
    ensures IsKey(|ps|, p.id) && ps[p.id - 1] == p
  {
    var i :| 0 <= i < |ps| && ps[i] == p;
    assert ProductKey(ps[i]) == i + 1;
  }

  // ---------------------------------------------------------------------
  // Products

  /** The slugs in use. */
  function Slugs(ps: seq<Product>): set<string> {
    set p | p in ps :: p.slug
  }

  /** The slugs of every product but the one at position `k`. */
  function OtherSlugs(ps: seq<Product>, k: nat): set<string> {
    set i | 0 <= i < |ps| && i != k :: ps[i].slug
  }

  /** No two products share a slug. */
  ghost predicate UniqueSlugs(ps: seq<Product>) {
    forall i, j :: 0 <= i < j < |ps| ==> ps[i].slug != ps[j].slug
  }

  /** Appending a product with an unused slug keeps slugs unique. */
  lemma AppendUniqueSlugs(ps: seq<Product>, q: Product)
    requires UniqueSlugs(ps) && q.slug !in Slugs(ps)
    ensures UniqueSlugs(ps + [q])
  {
    var r := ps + [q];
    forall i, j | 0 <= i < j < |r| ensures r[i].slug != r[j].slug {
      if j == |ps| {
        assert r[i] in ps;
      }
    }
  }

  /** Overwriting a product with a slug no other product has keeps slugs unique. */
  lemma ReplaceUniqueSlugs(ps: seq<Product>, k: nat, q: Product)
    requires UniqueSlugs(ps) && k < |ps| && q.slug !in OtherSlugs(ps, k)
    ensures UniqueSlugs(ps[k := q])
  {
    var r := ps[k := q];
    forall i, j | 0 <= i < j < |r| ensures r[i].slug != r[j].slug {
      if i == k {
        assert ps[j].slug in OtherSlugs(ps, k);
      } else if j == k {
        assert ps[i].slug in OtherSlugs(ps, k);
      }
    }
  }

  /** The slug of the product at position `k` is used by no other product. */
  lemma OwnSlugNotOther(ps: seq<Product>, k: nat)
    requires UniqueSlugs(ps) && k < |ps|
    ensures ps[k].slug !in OtherSlugs(ps, k)
  {
  }

  // ---------------------------------------------------------------------
  // Images

  /** The images of product `pid`, in table order. */
  function ImagesOf(imgs: seq<Image>, pid: nat): seq<Image> {
    if imgs == [] then []
    else if imgs[|imgs| - 1].product == pid then ImagesOf(imgs[..|imgs| - 1], pid) + [imgs[|imgs| - 1]]
    else ImagesOf(imgs[..|imgs| - 1], pid)
  }

  /** `ProductImage.objects.filter(product=pid).count()`. */
  function CountOf(imgs: seq<Image>, pid: nat): nat {
    |ImagesOf(imgs, pid)|
  }

  lemma {:induction false} ImagesOfMembers(imgs: seq<Image>, pid: nat)
    ensures forall m :: m in ImagesOf(imgs, pid) <==> m in imgs && m.product == pid
  {
    if imgs != [] {
      ImagesOfMembers(imgs[..|imgs| - 1], pid);
      assert imgs == imgs[..|imgs| - 1] + [imgs[|imgs| - 1]];
    }
  }

  /** A new row counts for its own product only. */
  lemma CountOfAppend(imgs: seq<Image>, m: Image, pid: nat)
    ensures CountOf(imgs + [m], pid) == CountOf(imgs, pid) + (if m.product == pid then 1 else 0)
  {
    assert (imgs + [m])[..|imgs|] == imgs;
  }

  /** The image with its main flag cleared when it belongs to product `pid`. */
  function Unmain(m: Image, pid: nat): Image {
    if m.product == pid then m.(isMain := false) else m
  }

  /** `ProductImage.objects.filter(product=pid, is_main=True).update(is_main=False)`. */
  function ClearMain(imgs: seq<Image>, pid: nat): (r: seq<Image>)
    ensures |r| == |imgs|
    ensures forall k :: 0 <= k < |r| ==> r[k] == Unmain(imgs[k], pid)
  {
    if imgs == [] then []
    else ClearMain(imgs[..|imgs| - 1], pid) + [Unmain(imgs[|imgs| - 1], pid)]
  }

  /** Clearing flags moves no image to another product, so no count changes. */
  lemma {:induction false} ClearMainCounts(imgs: seq<Image>, pid: nat, q: nat)
    ensures CountOf(ClearMain(imgs, pid), q) == CountOf(imgs, q)
  {
    if imgs != [] {
      var init := imgs[..|imgs| - 1];
      ClearMainCounts(init, pid, q);
      CountOfAppend(ClearMain(init, pid), Unmain(imgs[|imgs| - 1], pid), q);
    }
  }

  /** A product without images: nothing to clear and nothing counted. */
  lemma {:induction false} NoImagesOf(imgs: seq<Image>, pid: nat)
    requires forall i :: 0 <= i < |imgs| ==> imgs[i].product != pid
    ensures ClearMain(imgs, pid) == imgs && CountOf(imgs, pid) == 0
  {
    if imgs != [] {
      NoImagesOf(imgs[..|imgs| - 1], pid);
    }
  }

  /** At most one image of each product is main. */
  ghost predicate OneMainEach(imgs: seq<Image>) {
    forall i, j :: 0 <= i < j < |imgs| && imgs[i].product == imgs[j].product ==> !(imgs[i].isMain && imgs[j].isMain)
  }

  /** Two main images of one product are the same row. */
  lemma MainIndexUnique(imgs: seq<Image>, i: nat, j: nat)
    requires OneMainEach(imgs) && i < |imgs| && j < |imgs|
    requires imgs[i].product == imgs[j].product && imgs[i].isMain && imgs[j].isMain
    ensures i == j
  {
  }

  /** Keys by position, every image of one of the `n` products, at most one main per product. */
  ghost predicate ImagesValid(imgs: seq<Image>, n: nat) {
    KeyedByPosition(imgs, ImageKeyOf)
    && (forall i :: 0 <= i < |imgs| ==> IsKey(n, imgs[i].product))
    && OneMainEach(imgs)
  }

  /** Clearing the flags of one product keeps the image table valid, and leaves that product no main image. */
  lemma ClearMainValid(imgs: seq<Image>, n: nat, pid: nat)
    requires ImagesValid(imgs, n)
    ensures ImagesValid(ClearMain(imgs, pid), n)
    ensures forall i :: 0 <= i < |imgs| && ClearMain(imgs, pid)[i].product == pid ==> !ClearMain(imgs, pid)[i].isMain
  {
  }

  /** Appending an image keeps one main per product when it is not main or its product has none. */
  lemma AppendImageValid(imgs: seq<Image>, n: nat, m: Image)
    requires ImagesValid(imgs, n) && m.id == |imgs| + 1 && IsKey(n, m.product)
    requires m.isMain ==> forall i :: 0 <= i < |imgs| && imgs[i].product == m.product ==> !imgs[i].isMain
    ensures ImagesValid(imgs + [m], n)
  {
    var r := imgs + [m];
    forall i, j | 0 <= i < j < |r| && r[i].product == r[j].product ensures !(r[i].isMain && r[j].isMain) {
      if j == |imgs| {
        assert r[i] == imgs[i];
      }
    }
  }

  /** Overwriting an image keeps the table valid when its product has no other main image. */
  lemma ReplaceImageValid(imgs: seq<Image>, n: nat, k: nat, m: Image)
    requires ImagesValid(imgs, n) && k < |imgs| && m.id == k + 1 && IsKey(n, m.product)
    requires m.isMain ==> forall i :: 0 <= i < |imgs| && i != k && imgs[i].product == m.product ==> !imgs[i].isMain
    ensures ImagesValid(imgs[k := m], n)
  {
  }

  // ---------------------------------------------------------------------
  // The constraints the tables keep

  /**
   * Categories well formed with keys below the counter; products keyed by
   * position with unique slugs, each in a category of the table; images
   * valid; views and inquiries only of stored products.
   */
  ghost predicate Tables(categories: seq<Category>, products: seq<Product>, images: seq<Image>,
                         views: map<ViewKey, ViewInfo>, inquiries: seq<Inquiry>, nextCategoryId: nat) {
    WellFormed(categories) && (forall c :: c in categories ==> c.id < nextCategoryId)
    && KeyedByPosition(products, ProductKey) && UniqueSlugs(products)
    && (forall i :: 0 <= i < |products| ==> Present(categories, products[i].category))
    && ImagesValid(images, |products|)
    && (forall k :: k in views ==> IsKey(|products|, k.product))
    && KeyedByPosition(inquiries, InquiryKey)
    && (forall i :: 0 <= i < |inquiries| ==> IsKey(|products|, inquiries[i].product))
  }

  /** A product appended with the next key, a fresh slug and an existing category keeps the constraints. */
  lemma TablesAppendProduct(categories: seq<Category>, products: seq<Product>, images: seq<Image>,
                            views: map<ViewKey, ViewInfo>, inquiries: seq<Inquiry>, next: nat, q: Product)
    requires Tables(categories, products, images, views, inquiries, next)
    requires q.id == |products| + 1 && q.slug !in Slugs(products) && Present(categories, q.category)
    ensures Tables(categories, products + [q], images, views, inquiries, next)
  {
    AppendUniqueSlugs(products, q);
    var ps := products + [q];
    assert forall i :: 0 <= i < |products| ==> ps[i] == products[i];
  }

  /** A category under the next key, with an unused name and slug and an existing parent, keeps the constraints. */
  lemma TablesAddCategory(categories: seq<Category>, products: seq<Product>, images: seq<Image>,
                          views: map<ViewKey, ViewInfo>, inquiries: seq<Inquiry>, next: nat, x: Category)
    requires Tables(categories, products, images, views, inquiries, next)
    requires x.id == next && forall c :: c in categories ==> c.name != x.name && c.slug != x.slug
    requires x.parent.Some? ==> Present(categories, x.parent.value)
    ensures Tables(Insert(categories, x), products, images, views, inquiries, next + 1)
  {
    InsertWellFormed(categories, x);
    forall i | 0 <= i < |products| ensures Present(Insert(categories, x), products[i].category) {
      InsertFind(categories, x, products[i].category);
    }
  }

  /** No image belongs to the key the next product will get. */
  lemma TablesNoImagesOfNext(categories: seq<Category>, products: seq<Product>, images: seq<Image>,
                             views: map<ViewKey, ViewInfo>, inquiries: seq<Inquiry>, next: nat)
    requires Tables(categories, products, images, views, inquiries, next)
    ensures forall i :: 0 <= i < |images| ==> images[i].product != |products| + 1
  {
    assert ImagesValid(images, |products|);
  }

  /** A product overwritten under its own key by one with an unused slug and an existing category keeps the constraints. */
  lemma TablesReplaceProduct(categories: seq<Category>, products: seq<Product>, images: seq<Image>,
                             views: map<ViewKey, ViewInfo>, inquiries: seq<Inquiry>, next: nat, k: nat, q: Product)
    requires Tables(categories, products, images, views, inquiries, next)
    requires k < |products| && q.id == k + 1 && q.slug !in OtherSlugs(products, k) && Present(categories, q.category)
    ensures Tables(categories, products[k := q], images, views, inquiries, next)
  {
    ReplaceUniqueSlugs(products, k, q);
  }

  // ---------------------------------------------------------------------
  // The database

  class Store {
    /** The category table, in its default ordering. */
    var categories: seq<Category>
    var products: seq<Product>
    var images: seq<Image>
    var views: map<ViewKey, ViewInfo>
    var inquiries: seq<Inquiry>
    /** The next category key (the table is not in key order). */
    var nextCategoryId: nat

    ghost predicate Valid()
      reads this
    {
      Tables(categories, products, images, views, inquiries, nextCategoryId)
    }

    /** An empty database. */
    constructor ()
      ensures Valid()
      ensures categories == [] && products == [] && images == [] && views == map[] && inquiries == []
    {
      categories := [];
      products := [];
      images := [];
      views := map[];
      inquiries := [];
      nextCategoryId := 1;
    }

    /**
     * Inserting a category with `Category.save`: a blank slug is filled in
     * from the name, and the row is refused when its name or its slug is
     * already used or its parent does not exist. No suffix is tried.
     */
    method AddCategory(c: Category, slugify: string -> string) returns (r: Result<Category, SaveError>)
      requires Valid()
      modifies this
      ensures Valid()
      ensures products == old(products) && images == old(images) && views == old(views) && inquiries == old(inquiries)
      ensures var s := SlugOnSave(c, slugify);
        r.Err? <==> (exists d :: d in old(categories) && (d.name == s.name || d.slug == s.slug))
                    || (s.parent.Some? && !Present(old(categories), s.parent.value))
      ensures r.Err? ==> categories == old(categories) && r.error == IntegrityError
      ensures r.Ok? ==> r.value == SlugOnSave(c, slugify).(id := old(nextCategoryId))
                        && categories == Insert(old(categories), r.value)
    {
      var s := SlugOnSave(c, slugify);
      if (exists d :: d in categories && (d.name == s.name || d.slug == s.slug))
         || (s.parent.Some? && !Present(categories, s.parent.value)) {
        r := Err(IntegrityError);
        return;
      }
      var x := s.(id := nextCategoryId);
      TablesAddCategory(categories, products, images, views, inquiries, nextCategoryId, x);
      categories := Insert(categories, x);
      nextCategoryId := nextCategoryId + 1;
      r := Ok(x);
    }

    /**
     * Inserting a product with `Product.save`: a blank slug becomes the
     * first free candidate for the slugified title, and the row is refused
     * when its slug is taken anyway (a slug given by the caller) or its
     * category does not exist. Both timestamps are `now`.
     */
    method InsertProduct(p: Product, slugify: string -> string, now: nat) returns (r: Result<Product, SaveError>)
      requires Valid()
      modifies this
      ensures Valid()
      ensures categories == old(categories) && images == old(images) && views == old(views) && inquiries == old(inquiries)
      ensures r.Err? <==> (p.slug != "" && p.slug in Slugs(old(products))) || !Present(categories, p.category)
      ensures r.Err? ==> products == old(products) && r.error == IntegrityError
      ensures r.Ok? ==> products == old(products) + [r.value]
      ensures r.Ok? ==> r.value == p.(id := |old(products)| + 1, slug := r.value.slug, createdAt := now, updatedAt := now)
      ensures r.Ok? ==> r.value.slug !in Slugs(old(products))
      ensures r.Ok? && p.slug != "" ==> r.value.slug == p.slug
      ensures r.Ok? && p.slug == "" ==>
        exists k :: r.value.slug == SlugCandidate(slugify(p.title), k) && FirstFree(slugify(p.title), Slugs(old(products)), k)
    {
      var q := AssignSlug(p, Slugs(products), slugify);
      if q.slug in Slugs(products) || !Present(categories, q.category) {
        r := Err(IntegrityError);
        return;
      }
      q := q.(id := |products| + 1, createdAt := now, updatedAt := now);
      TablesAppendProduct(categories, products, images, views, inquiries, nextCategoryId, q);
      products := products + [q];
      r := Ok(q);
    }

    /**
     * Saving a product that is already stored (`product.save()` on an
     * instance read from the table): a blank slug is filled in as on
     * insert, against every slug in the table; the row is refused when its
     * slug belongs to another product or its category does not exist;
     * otherwise it replaces the stored row and `updated_at` becomes `now`.
     */
    method SaveProduct(p: Product, slugify: string -> string, now: nat) returns (r: Result<Product, SaveError>)
      requires Valid() && IsKey(|products|, p.id)
      modifies this
      ensures Valid()
      ensures categories == old(categories) && images == old(images) && views == old(views) && inquiries == old(inquiries)
      ensures r.Err? ==> products == old(products) && r.error == IntegrityError
      ensures r.Ok? ==> r.value == p.(slug := r.value.slug, updatedAt := now)
                        && products == Overwrite(old(products), p.id, r.value)
      ensures p.slug != "" ==> (r.Err? <==> p.slug in OtherSlugs(old(products), p.id - 1) || !Present(categories, p.category))
      ensures r.Ok? && p.slug != "" ==> r.value.slug == p.slug
      ensures r.Ok? && p.slug == "" ==> r.value.slug !in Slugs(old(products))
      ensures p.slug == "" ==> (r.Err? <==> !Present(categories, p.category))
    {
      var q := AssignSlug(p, Slugs(products), slugify);
      var k := p.id - 1;
      assert p.slug == "" ==> q.slug !in OtherSlugs(products, k);
      if q.slug in OtherSlugs(products, k) || !Present(categories, q.category) {
        r := Err(IntegrityError);
        return;
      }
      q := q.(updatedAt := now);
      TablesReplaceProduct(categories, products, images, views, inquiries, nextCategoryId, k, q);
      products := Overwrite(products, p.id, q);
      r := Ok(q);
    }

    /**
     * Inserting an image with `ProductImage.save`. A main image first
     * clears the main flag of every image of its product; only then is the
     * cap checked, so a refused main image still leaves the product without
     * a main image. An image of a product that does not exist is refused
     * by the database.
     */
    method AddImage(pid: nat, file: string, caption: string, isMain: bool, order: nat, now: nat)
        returns (r: Result<Image, SaveError>)
      requires Valid()
      modifies this
      ensures Valid()
      ensures categories == old(categories) && products == old(products) && views == old(views) && inquiries == old(inquiries)
      ensures var cleared := if isMain then ClearMain(old(images), pid) else old(images);
        && (r.Err? <==> CountOf(old(images), pid) >= MaxImages || !IsKey(|products|, pid))
        && (CountOf(old(images), pid) >= MaxImages ==> r == Err(TooManyImages))
        && (r.Err? ==> images == cleared)
        && (r.Ok? ==> r.value == Image(|old(images)| + 1, pid, file, caption, isMain, order, now)
                      && images == cleared + [r.value])
      ensures r.Ok? ==> CountOf(images, pid) == CountOf(old(images), pid) + 1 <= MaxImages
      ensures forall q :: q != pid ==> CountOf(images, q) == CountOf(old(images), q)
    {
      if isMain {
        ClearMainValid(images, |products|, pid);
        forall q ensures CountOf(ClearMain(images, pid), q) == CountOf(images, q) {
          ClearMainCounts(images, pid, q);
        }
        images := ClearMain(images, pid);
      }
      if CountOf(images, pid) >= MaxImages {
        r := Err(TooManyImages);
        return;
      }
      if !IsKey(|products|, pid) {
        r := Err(IntegrityError);
        return;
      }
      var m := Image(|images| + 1, pid, file, caption, isMain, order, now);
      AppendImageValid(images, |products|, m);
      forall q ensures CountOf(images + [m], q) == CountOf(images, q) + (if q == pid then 1 else 0) {
        CountOfAppend(images, m, q);
      }
      images := images + [m];
      r := Ok(m);
    }

    /**
     * Saving an image that is already stored: a main image still clears
     * the main flags of its product first, but the cap is not checked.
     */
    method SaveImage(m: Image) returns (r: Result<Image, SaveError>)
      requires Valid() && IsKey(|images|, m.id)
      modifies this
      ensures Valid()
      ensures categories == old(categories) && products == old(products) && views == old(views) && inquiries == old(inquiries)
      ensures r.Err? <==> !IsKey(|products|, m.product)
      ensures var cleared := if m.isMain then ClearMain(old(images), m.product) else old(images);
        && (r.Err? ==> images == cleared)
        && (r.Ok? ==> r.value == m && images == cleared[m.id - 1 := m])
    {
      if m.isMain {
        ClearMainValid(images, |products|, m.product);
        images := ClearMain(images, m.product);
      }
      if !IsKey(|products|, m.product) {
        r := Err(IntegrityError);
        return;
      }
      ReplaceImageValid(images, |products|, m.id - 1, m);
      images := images[m.id - 1 := m];
      r := Ok(m);
    }

    /**
     * `ProductView.objects.get_or_create(product, ip_address, session_key,
     * defaults={'user_agent': ...})`: a row is added only when no row has
     * that key, and an existing row keeps its user agent and time.
     */
    method RecordView(pid: nat, ip: string, session: string, userAgent: string, now: nat)
        returns (info: ViewInfo, created: bool)
      requires Valid() && IsKey(|products|, pid)
      modifies this
      ensures Valid()
      ensures categories == old(categories) && products == old(products) && images == old(images) && inquiries == old(inquiries)
      ensures created <==> ViewKey(pid, ip, session) !in old(views)
      ensures created ==> views == old(views)[ViewKey(pid, ip, session) := ViewInfo(userAgent, now)]
      ensures !created ==> views == old(views)
      ensures views[ViewKey(pid, ip, session)] == info
    {
      var key := ViewKey(pid, ip, session);
      if key in views {
        info := views[key];
        created := false;
      } else {
        info := ViewInfo(userAgent, now);
        views := views[key := info];
        created := true;
      }
    }

    /** Inserting an inquiry about a stored product. */
    method AddInquiry(pid: nat, name: string, phone: string, email: string, message: string, status: string, now: nat)
        returns (q: Inquiry)
      requires Valid() && IsKey(|products|, pid)
      modifies this
      ensures Valid()
      ensures categories == old(categories) && products == old(products) && images == old(images) && views == old(views)
      ensures q == Inquiry(|old(inquiries)| + 1, pid, name, phone, email, message, status, now)
      ensures inquiries == old(inquiries) + [q]
    {
      q := Inquiry(|inquiries| + 1, pid, name, phone, email, message, status, now);
      inquiries := inquiries + [q];
    }
  }
}
