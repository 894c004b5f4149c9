/**
 * `ProductCreateUpdateSerializer` of brokers/serializers.py: the fields a
 * client may write, `create` (the product, then its uploaded images in
 * order, the first one main) and `update` (the given fields set one by
 * one, then uploaded images appended while the product has room). Values
 * arrive as DRF's validated data; field parsing itself is not modelled.
 */
module Serializers {
  import opened Wrappers
  import opened Text
  import opened Categories
  import opened Products
  import opened Catalog

  // ---------------------------------------------------------------------
  // The writable fields

  /** The names in `Meta.fields` that map to product columns. */
  datatype FieldName =
    | Title | CategoryField | Brand | Model | Condition | Attributes | Price | Currency | IsNegotiable
    | LocationCity | LocationProvince | LocationDetail | ContactName | ContactPhone | ContactEmail
    | Description | MetaTitle | MetaDescription

  /** One entry of the validated data: a writable field and its value. */
  datatype Field =
    | SetTitle(title: string) | SetCategory(category: nat) | SetBrand(brand: string) | SetModel(model: string)
    | SetCondition(condition: string) | SetAttributes(attributes: map<string, Json>) | SetPrice(price: nat)
    | SetCurrency(currency: string) | SetNegotiable(negotiable: bool) | SetCity(city: string)
    | SetProvince(province: string) | SetLocationDetail(detail: string) | SetContactName(contactName: string)
    | SetContactPhone(phone: string) | SetContactEmail(email: string) | SetDescription(description: string)
    | SetMetaTitle(metaTitle: string) | SetMetaDescription(metaDescription: string)

  function NameOf(f: Field): FieldName {
    match f
    case SetTitle(_) => Title
    case SetCategory(_) => CategoryField
    case SetBrand(_) => Brand
    case SetModel(_) => Model
    case SetCondition(_) => Condition
    case SetAttributes(_) => Attributes
    case SetPrice(_) => Price
    case SetCurrency(_) => Currency
    case SetNegotiable(_) => IsNegotiable
    case SetCity(_) => LocationCity
    case SetProvince(_) => LocationProvince
    case SetLocationDetail(_) => LocationDetail
    case SetContactName(_) => ContactName
    case SetContactPhone(_) => ContactPhone
    case SetContactEmail(_) => ContactEmail
    case SetDescription(_) => Description
    case SetMetaTitle(_) => MetaTitle
    case SetMetaDescription(_) => MetaDescription
  }

  /** The current value of a writable field of `p`. */
  function Get(p: Product, n: FieldName): (f: Field)
    ensures NameOf(f) == n
  {
    match n
    case Title => SetTitle(p.title)
    case CategoryField => SetCategory(p.category)
    case Brand => SetBrand(p.brand)
    case Model => SetModel(p.model)
    case Condition => SetCondition(p.condition)
    case Attributes => SetAttributes(p.attributes)
    case Price => SetPrice(p.price)
    case Currency => SetCurrency(p.currency)
    case IsNegotiable => SetNegotiable(p.isNegotiable)
    case LocationCity => SetCity(p.locationCity)
    case LocationProvince => SetProvince(p.locationProvince)
    case LocationDetail => SetLocationDetail(p.locationDetail)
    case ContactName => SetContactName(p.contactName)
    case ContactPhone => SetContactPhone(p.contactPhone)
    case ContactEmail => SetContactEmail(p.contactEmail)
    case Description => SetDescription(p.description)
    case MetaTitle => SetMetaTitle(p.metaTitle)
    case MetaDescription => SetMetaDescription(p.metaDescription)
  }

  /** `setattr(instance, attr, value)`. */
  function Set(p: Product, f: Field): Product {
    match f
    case SetTitle(v) => p.(title := v)
    case SetCategory(v) => p.(category := v)
    case SetBrand(v) => p.(brand := v)
    case SetModel(v) => p.(model := v)
    case SetCondition(v) => p.(condition := v)
    case SetAttributes(v) => p.(attributes := v)
    case SetPrice(v) => p.(price := v)
    case SetCurrency(v) => p.(currency := v)
    case SetNegotiable(v) => p.(isNegotiable := v)
    case SetCity(v) => p.(locationCity := v)
    case SetProvince(v) => p.(locationProvince := v)
    case SetLocationDetail(v) => p.(locationDetail := v)
    case SetContactName(v) => p.(contactName := v)
    case SetContactPhone(v) => p.(contactPhone := v)
    case SetContactEmail(v) => p.(contactEmail := v)
    case SetDescription(v) => p.(description := v)
    case SetMetaTitle(v) => p.(metaTitle := v)
    case SetMetaDescription(v) => p.(metaDescription := v)
  }

  /** The columns no client can write: key, slug, seller, the three flags and the timestamps. */
  predicate SameProtected(p: Product, q: Product) {
    p.id == q.id && p.slug == q.slug && p.seller == q.seller && p.isActive == q.isActive
    && p.isSold == q.isSold && p.isFeatured == q.isFeatured && p.createdAt == q.createdAt && p.updatedAt == q.updatedAt
  }

  /** Setting a field reads back. */
  lemma SetReadsBack(p: Product, f: Field)
    ensures Get(Set(p, f), NameOf(f)) == f
  {
    match f
    case SetTitle(_) =>
    case SetCategory(_) =>
    case SetBrand(_) =>
    case SetModel(_) =>
    case SetCondition(_) =>
    case SetAttributes(_) =>
    case SetPrice(_) =>
    case SetCurrency(_) =>
    case SetNegotiable(_) =>
    case SetCity(_) =>
    case SetProvince(_) =>
    case SetLocationDetail(_) =>
    case SetContactName(_) =>
    case SetContactPhone(_) =>
    case SetContactEmail(_) =>
    case SetDescription(_) =>
    case SetMetaTitle(_) =>
    case SetMetaDescription(_) =>
  }

  /** Setting a field changes no protected column. */
  lemma SetKeepsProtected(p: Product, f: Field)
    ensures SameProtected(Set(p, f), p)
  {
    match f
    case SetTitle(_) =>
    case SetCategory(_) =>
    case SetBrand(_) =>
    case SetModel(_) =>
    case SetCondition(_) =>
    case SetAttributes(_) =>
    case SetPrice(_) =>
    case SetCurrency(_) =>
    case SetNegotiable(_) =>
    case SetCity(_) =>
    case SetProvince(_) =>
    case SetLocationDetail(_) =>
    case SetContactName(_) =>
    case SetContactPhone(_) =>
    case SetContactEmail(_) =>
    case SetDescription(_) =>
    case SetMetaTitle(_) =>
    case SetMetaDescription(_) =>
  }

  /** The fields of the first half of `Meta.fields`, up to `is_negotiable`. */
  predicate EarlyField(f: Field) {
    f.SetTitle? || f.SetCategory? || f.SetBrand? || f.SetModel? || f.SetCondition? || f.SetAttributes?
    || f.SetPrice? || f.SetCurrency? || f.SetNegotiable?
  }

  lemma SetEarlyLeavesOthers(p: Product, f: Field, n: FieldName)
    requires n != NameOf(f) && EarlyField(f)
    ensures Get(Set(p, f), n) == Get(p, n)
  {
    match n
    case Title =>
    case CategoryField =>
    case Brand =>
    case Model =>
    case Condition =>
    case Attributes =>
    case Price =>
    case Currency =>
    case IsNegotiable =>
    case LocationCity =>
    case LocationProvince =>
    case LocationDetail =>
    case ContactName =>
    case ContactPhone =>
    case ContactEmail =>
    case Description =>
    case MetaTitle =>
    case MetaDescription =>
  }

  lemma SetLateLeavesOthers(p: Product, f: Field, n: FieldName)
    requires n != NameOf(f) && !EarlyField(f)
    ensures Get(Set(p, f), n) == Get(p, n)
  {
    match n
    case Title =>
    case CategoryField =>
    case Brand =>
    case Model =>
    case Condition =>
    case Attributes =>
    case Price =>
    case Currency =>
    case IsNegotiable =>
    case LocationCity =>
    case LocationProvince =>
    case LocationDetail =>
    case ContactName =>
    case ContactPhone =>
    case ContactEmail =>
    case Description =>
    case MetaTitle =>
    case MetaDescription =>
  }

  /** Setting a field changes no other writable field. */
  lemma SetLeavesOthers(p: Product, f: Field, n: FieldName)
    requires n != NameOf(f)
    ensures Get(Set(p, f), n) == Get(p, n)
  {
    if EarlyField(f) {
      SetEarlyLeavesOthers(p, f, n);
    } else {
      SetLateLeavesOthers(p, f, n);
    }
  }

  /** The validated data set in turn, as the loop of `update` does. */
  function SetAll(p: Product, fs: seq<Field>): Product {
    if fs == [] then p else Set(SetAll(p, fs[..|fs| - 1]), fs[|fs| - 1])
  }

  /** A dictionary holds each key once. */
  predicate DistinctNames(fs: seq<Field>) {
    forall i, j :: 0 <= i < j < |fs| ==> NameOf(fs[i]) != NameOf(fs[j])
  }

  /** `update` stores each given value: it reads back afterwards. */
  lemma {:induction false} SetAllReadsBack(p: Product, fs: seq<Field>, f: Field)
    requires DistinctNames(fs) && f in fs
    ensures Get(SetAll(p, fs), NameOf(f)) == f
  {
    var init := fs[..|fs| - 1];
    var last := fs[|fs| - 1];
    var q := SetAll(p, init);
    if f == last {
      SetReadsBack(q, last);
    } else {
      assert fs == init + [last];
      var i :| 0 <= i < |init| && init[i] == f;
      assert NameOf(fs[i]) != NameOf(fs[|fs| - 1]);
      assert DistinctNames(init);
      SetAllReadsBack(p, init, f);
      SetLeavesOthers(q, last, NameOf(f));
    }
  }

  /** `update` leaves every writable field it is not given as it was. */
  lemma {:induction false} SetAllLeavesOthers(p: Product, fs: seq<Field>, n: FieldName)
    requires forall f :: f in fs ==> NameOf(f) != n
    ensures Get(SetAll(p, fs), n) == Get(p, n)
  {
    if fs != [] {
      var init := fs[..|fs| - 1];
      var last := fs[|fs| - 1];
      assert forall f :: f in init ==> f in fs;
      SetAllLeavesOthers(p, init, n);
      SetLeavesOthers(SetAll(p, init), last, n);
    }
  }

  /** Whatever fields `update` is given, no protected column changes. */
  lemma {:induction false} SetAllKeepsProtected(p: Product, fs: seq<Field>)
    ensures SameProtected(SetAll(p, fs), p)
  {
    if fs != [] {
      SetAllKeepsProtected(p, fs[..|fs| - 1]);
      SetKeepsProtected(SetAll(p, fs[..|fs| - 1]), fs[|fs| - 1]);
    }
  }

  /** The loop `for attr, value in validated_data.items(): setattr(instance, attr, value)`. */
  method ApplyFields(p: Product, fs: seq<Field>) returns (q: Product)
    ensures q == SetAll(p, fs)
  {
    q := p;
    for i := 0 to |fs|
      invariant q == SetAll(p, fs[..i])
    {
      assert fs[..i + 1][..i] == fs[..i];
      q := Set(q, fs[i]);
    }
    assert fs[..|fs|] == fs;
  }

  // ---------------------------------------------------------------------
  // Validation

  /** The choices of `Product.condition`. */
  predicate ConditionChoice(c: string) {
    c == "new" || c == "like_new" || c == "good" || c == "fair" || c == "poor"
  }

  /** The model fields with neither a default nor `blank=True`: required on create and on a full update. */
  predicate RequiredName(n: FieldName) {
    n in {Title, CategoryField, Condition, LocationCity, LocationProvince, Price, ContactName, ContactPhone, Description}
  }

  predicate Provides(fs: seq<Field>, n: FieldName) {
    exists f :: f in fs && NameOf(f) == n
  }

  /** The most images one request may upload (`max_length=10` of `uploaded_images`). */
  const MaxUploads: nat := 10

  /** `max_digits=15, decimal_places=2` of `price`: at most 13 whole digits, so fewer than 10^15 cents. */
  const PriceLimit: nat := 1_000_000_000_000_000

  /** `EmailField`'s default `max_length`. */
  const MaxEmailLength: nat := 254

  /**
   * The checks a `ModelSerializer` derives from one product column: the
   * column's `max_length`, no empty text for a column without
   * `blank=True`, a well-formed non-empty email, a known condition, an
   * existing category and a price that fits its digits.
   */
  predicate FieldValid(f: Field, cats: seq<Category>, isEmail: string -> bool) {
    match f
    case SetTitle(v) => v != "" && |v| <= 200
    case SetCategory(v) => Present(cats, v)
    case SetBrand(v) => |v| <= 100
    case SetModel(v) => |v| <= 100
    case SetCondition(v) => ConditionChoice(v)
    case SetAttributes(_) => true
    case SetPrice(v) => v < PriceLimit
    case SetCurrency(v) => v != "" && |v| <= 3
    case SetNegotiable(_) => true
    case SetCity(v) => v != "" && |v| <= 100
    case SetProvince(v) => v != "" && |v| <= 100
    case SetLocationDetail(_) => true
    case SetContactName(v) => v != "" && |v| <= 100
    case SetContactPhone(v) => v != "" && |v| <= 20
    case SetContactEmail(v) => |v| <= MaxEmailLength && (v == "" || isEmail(v))
    case SetDescription(v) => v != ""
    case SetMetaTitle(v) => |v| <= 200
    case SetMetaDescription(_) => true
  }

  /**
   * What the serializer accepts: each field once, every required field
   * given unless the update is partial, every given field valid for its
   * column, and at most ten uploads.
   */
  predicate Acceptable(fs: seq<Field>, uploads: seq<string>, partial: bool, cats: seq<Category>, isEmail: string -> bool) {
    DistinctNames(fs)
    && (!partial ==> forall n :: RequiredName(n) ==> Provides(fs, n))
    && (forall f :: f in fs ==> FieldValid(f, cats, isEmail))
    && |uploads| <= MaxUploads
  }

  // ---------------------------------------------------------------------
  // Images created from uploads

  /** The rows `create` and `update` add for `files`: keys and orders counted on, only a first main one when asked. */
  function Uploaded(pid: nat, files: seq<string>, firstKey: nat, firstOrder: nat, firstMain: bool, now: nat): (r: seq<Image>)
    ensures |r| == |files|
  {
    if files == [] then []
    else Uploaded(pid, files[..|files| - 1], firstKey, firstOrder, firstMain, now)
         + [Image(firstKey + |files| - 1, pid, files[|files| - 1], "", firstMain && |files| == 1, firstOrder + |files| - 1, now)]
  }

  /** Upload `k` of a batch becomes image `firstKey + k` of the product, with order `firstOrder + k`, main only when first and asked. */
  lemma {:induction false} UploadedAt(pid: nat, files: seq<string>, firstKey: nat, firstOrder: nat, firstMain: bool, now: nat)
    ensures forall k :: 0 <= k < |files| ==>
      Uploaded(pid, files, firstKey, firstOrder, firstMain, now)[k]
        == Image(firstKey + k, pid, files[k], "", firstMain && k == 0, firstOrder + k, now)
  {
    if files != [] {
      var init := files[..|files| - 1];
      UploadedAt(pid, init, firstKey, firstOrder, firstMain, now);
      forall k | 0 <= k < |init| ensures init[k] == files[k] { }
    }
  }

  lemma UploadedStep(pid: nat, files: seq<string>, i: nat, firstKey: nat, firstOrder: nat, firstMain: bool, now: nat)
    requires i < |files|
    ensures Uploaded(pid, files[..i + 1], firstKey, firstOrder, firstMain, now)
      == Uploaded(pid, files[..i], firstKey, firstOrder, firstMain, now)
         + [Image(firstKey + i, pid, files[i], "", firstMain && i == 0, firstOrder + i, now)]
  {
    assert files[..i + 1][..i] == files[..i];
  }

  /** Among the images of one upload batch, only the first can be main, and it is main when asked. */
  lemma UploadedMain(pid: nat, files: seq<string>, firstKey: nat, firstOrder: nat, firstMain: bool, now: nat)
    ensures forall m :: m in Uploaded(pid, files, firstKey, firstOrder, firstMain, now) && m.isMain ==>
      m == Uploaded(pid, files, firstKey, firstOrder, firstMain, now)[0]
    ensures files != [] ==> Uploaded(pid, files, firstKey, firstOrder, firstMain, now)[0].isMain == firstMain
  {
    UploadedAt(pid, files, firstKey, firstOrder, firstMain, now);
  }

  /** A batch whose first image is main is that image followed by a batch without a main one. */
  lemma UploadedFirst(pid: nat, files: seq<string>, firstKey: nat, now: nat)
    requires files != []
    ensures Uploaded(pid, files, firstKey, 0, true, now)
      == [Image(firstKey, pid, files[0], "", true, 0, now)] + Uploaded(pid, files[1..], firstKey + 1, 1, false, now)
  {
    var a := Uploaded(pid, files, firstKey, 0, true, now);
    var b := [Image(firstKey, pid, files[0], "", true, 0, now)] + Uploaded(pid, files[1..], firstKey + 1, 1, false, now);
    assert |a| == |b|;
    UploadedAt(pid, files, firstKey, 0, true, now);
    UploadedAt(pid, files[1..], firstKey + 1, 1, false, now);
    forall k | 0 <= k < |a| ensures a[k] == b[k] {
      if k > 0 {
        assert b[k] == Uploaded(pid, files[1..], firstKey + 1, 1, false, now)[k - 1];
      }
    }
  }

  /** The smaller of two numbers. */
  function Min(a: nat, b: nat): nat {
    if a <= b then a else b
  }

  /** How many more images a product with `existing` images may take. */
  function Room(existing: nat): nat {
    if existing < MaxImages then MaxImages - existing else 0
  }

  // ---------------------------------------------------------------------
  // create and update

  /** The product `Product.objects.create(**validated_data, seller=user)` saves: defaults, then the given fields. */
  function NewProduct(fs: seq<Field>, user: nat): Product {
    SetAll(Product(0, "", "", 0, user, "", "", "", map[], "", "", "", 0, true, "IDR", "", "", "", "",
                   true, false, false, "", "", 0, 0), fs)
  }

  /** Whatever the client sends, a new product is active, unsold, not featured, sold by the caller, and gets its slug on save. */
  lemma NewProductDefaults(fs: seq<Field>, user: nat)
    ensures var p := NewProduct(fs, user); p.seller == user && p.isActive && !p.isSold && !p.isFeatured && p.slug == ""
  {
    SetAllKeepsProtected(Product(0, "", "", 0, user, "", "", "", map[], "", "", "", 0, true, "IDR", "", "", "", "",
                             true, false, false, "", "", 0, 0), fs);
  }

  /** A create that names an existing category saves a product of that category. */
  lemma NewProductCategory(fs: seq<Field>, user: nat, cats: seq<Category>)
    requires DistinctNames(fs) && Provides(fs, CategoryField)
    requires forall f :: f in fs && f.SetCategory? ==> Present(cats, f.category)
    ensures Present(cats, NewProduct(fs, user).category)
  {
    var g :| g in fs && NameOf(g) == CategoryField;
    SetAllReadsBack(Product(0, "", "", 0, user, "", "", "", map[], "", "", "", 0, true, "IDR", "", "", "", "",
                            true, false, false, "", "", 0, 0), fs, g);
  }

  /** The row `Product.objects.create(**validated_data, seller=user)` inserts, under the next key and with a fresh slug. */
  method InsertNew(store: Store, fs: seq<Field>, user: nat, slugify: string -> string, isEmail: string -> bool, now: nat)
      returns (p: Product)
    requires store.Valid() && Acceptable(fs, [], false, store.categories, isEmail)
    modifies store
    ensures store.Valid()
    ensures store.categories == old(store.categories) && store.views == old(store.views) && store.inquiries == old(store.inquiries)
    ensures store.images == old(store.images)
    ensures store.products == old(store.products) + [p]
    ensures p == NewProduct(fs, user).(id := |old(store.products)| + 1, slug := p.slug, createdAt := now, updatedAt := now)
    ensures p.slug !in Slugs(old(store.products))
    ensures forall i :: 0 <= i < |store.images| ==> store.images[i].product != p.id
  {
    var draft := NewProduct(fs, user);
    NewProductDefaults(fs, user);
    NewProductCategory(fs, user, store.categories);
    TablesNoImagesOfNext(store.categories, store.products, store.images, store.views, store.inquiries, store.nextCategoryId);
    var r := store.InsertProduct(draft, slugify, now);
    p := r.value;
  }

  /**
   * `create`: insert the product, then one image per upload, in order,
   * with `order` its position and only the first one main. With at most
   * ten uploads no image is refused.
   */
  method Create(store: Store, fs: seq<Field>, uploads: seq<string>, user: nat, slugify: string -> string,
                isEmail: string -> bool, now: nat) returns (p: Product)
    requires store.Valid() && Acceptable(fs, uploads, false, store.categories, isEmail)
    modifies store
    ensures store.Valid()
    ensures store.categories == old(store.categories) && store.views == old(store.views) && store.inquiries == old(store.inquiries)
    ensures store.products == old(store.products) + [p]
    ensures p == NewProduct(fs, user).(id := |old(store.products)| + 1, slug := p.slug, createdAt := now, updatedAt := now)
    ensures p.slug !in Slugs(old(store.products))
    ensures store.images == old(store.images) + Uploaded(p.id, uploads, |old(store.images)| + 1, 0, true, now)
    ensures CountOf(store.images, p.id) == |uploads| <= MaxImages
  {
    p := InsertNew(store, fs, user, slugify, isEmail, now);
    AddFirstImages(store, p.id, uploads, now);
  }

  /** The first image of `create`: the main one, with order 0, which no limit refuses. */
  method AddMainImage(store: Store, pid: nat, file: string, now: nat)
    requires store.Valid() && IsKey(|store.products|, pid)
    requires forall i :: 0 <= i < |store.images| ==> store.images[i].product != pid
    modifies store
    ensures store.Valid()
    ensures store.categories == old(store.categories) && store.products == old(store.products)
    ensures store.views == old(store.views) && store.inquiries == old(store.inquiries)
    ensures store.images == old(store.images) + [Image(|old(store.images)| + 1, pid, file, "", true, 0, now)]
    ensures CountOf(store.images, pid) == 1
  {
    NoImagesOf(store.images, pid);
    var r := store.AddImage(pid, file, "", true, 0, now);
  }

  /** An upload that is not main, for a product below the limit: always stored. */
  method AddPlainImage(store: Store, pid: nat, file: string, order: nat, now: nat)
    requires store.Valid() && IsKey(|store.products|, pid) && CountOf(store.images, pid) < MaxImages
    modifies store
    ensures store.Valid()
    ensures store.categories == old(store.categories) && store.products == old(store.products)
    ensures store.views == old(store.views) && store.inquiries == old(store.inquiries)
    ensures store.images == old(store.images) + [Image(|old(store.images)| + 1, pid, file, "", false, order, now)]
    ensures CountOf(store.images, pid) == CountOf(old(store.images), pid) + 1
  {
    var r := store.AddImage(pid, file, "", false, order, now);
  }

  /** The images of `create` after the first: image `1 + j` of the batch gets order `1 + j` and is not main. */
  method AddOtherImages(store: Store, pid: nat, rest: seq<string>, now: nat)
    requires store.Valid() && IsKey(|store.products|, pid)
    requires CountOf(store.images, pid) == 1 && |rest| < MaxImages
    modifies store
    ensures store.Valid()
    ensures store.categories == old(store.categories) && store.products == old(store.products)
    ensures store.views == old(store.views) && store.inquiries == old(store.inquiries)
    ensures store.images == old(store.images) + Uploaded(pid, rest, |old(store.images)| + 1, 1, false, now)
    ensures CountOf(store.images, pid) == 1 + |rest|
  {
    ghost var base := store.images;
    for j := 0 to |rest|
      invariant store.Valid()
      invariant store.categories == old(store.categories) && store.products == old(store.products)
      invariant store.views == old(store.views) && store.inquiries == old(store.inquiries)
      invariant store.images == base + Uploaded(pid, rest[..j], |base| + 1, 1, false, now)
      invariant CountOf(store.images, pid) == 1 + j
    {
      UploadedStep(pid, rest, j, |base| + 1, 1, false, now);
      AddPlainImage(store, pid, rest[j], 1 + j, now);
    }
    assert rest[..|rest|] == rest;
  }

  /**
   * The image loop of `create` for a product that has no images yet:
   * image `k` gets order `k`, and only the first one is main.
   */
  method AddFirstImages(store: Store, pid: nat, uploads: seq<string>, now: nat)
    requires store.Valid() && IsKey(|store.products|, pid) && |uploads| <= MaxImages
    requires forall i :: 0 <= i < |store.images| ==> store.images[i].product != pid
    modifies store
    ensures store.Valid()
    ensures store.categories == old(store.categories) && store.products == old(store.products)
    ensures store.views == old(store.views) && store.inquiries == old(store.inquiries)
    ensures store.images == old(store.images) + Uploaded(pid, uploads, |old(store.images)| + 1, 0, true, now)
    ensures CountOf(store.images, pid) == |uploads|
  {
    ghost var base := store.images;
    if uploads == [] {
      NoImagesOf(store.images, pid);
      return;
    }
    ghost var first := Image(|base| + 1, pid, uploads[0], "", true, 0, now);
    AddMainImage(store, pid, uploads[0], now);
    AddOtherImages(store, pid, uploads[1..], now);
    ghost var others := Uploaded(pid, uploads[1..], |base| + 2, 1, false, now);
    assert store.images == (base + [first]) + others;
    UploadedFirst(pid, uploads, |base| + 1, now);
    assert (base + [first]) + others == base + ([first] + others);
  }

  /**
   * `update` after the fields are set and saved: each upload in turn is
   * added while the product had fewer than ten images before the batch
   * plus the ones of the batch before it, never as main; the rest are
   * dropped without an error.
   */
  method AddUploads(store: Store, pid: nat, uploads: seq<string>, now: nat) returns (added: nat)
    requires store.Valid() && IsKey(|store.products|, pid)
    modifies store
    ensures store.Valid()
    ensures store.categories == old(store.categories) && store.products == old(store.products)
    ensures store.views == old(store.views) && store.inquiries == old(store.inquiries)
    ensures added == Min(|uploads|, Room(CountOf(old(store.images), pid)))
    ensures store.images == old(store.images)
      + Uploaded(pid, uploads[..added], |old(store.images)| + 1, CountOf(old(store.images), pid), false, now)
    ensures CountOf(store.images, pid) == CountOf(old(store.images), pid) + added
  {
    var existing := CountOf(store.images, pid);
    ghost var base := store.images;
    added := 0;
    for i := 0 to |uploads|
      invariant store.Valid()
      invariant store.categories == old(store.categories) && store.products == old(store.products)
      invariant store.views == old(store.views) && store.inquiries == old(store.inquiries)
      invariant added == Min(i, Room(existing))
      invariant store.images == base + Uploaded(pid, uploads[..added], |base| + 1, existing, false, now)
      invariant CountOf(store.images, pid) == existing + added
    {
      if existing + i < MaxImages {
        UploadedStep(pid, uploads, i, |base| + 1, existing, false, now);
        AddPlainImage(store, pid, uploads[i], existing + i, now);
        added := added + 1;
      }
    }
  }

  /** An update that names an existing category, or none, leaves the product in an existing category. */
  lemma UpdatedCategory(p: Product, fs: seq<Field>, cats: seq<Category>)
    requires DistinctNames(fs) && Present(cats, p.category)
    requires forall f :: f in fs && f.SetCategory? ==> Present(cats, f.category)
    ensures Present(cats, SetAll(p, fs).category)
  {
    if Provides(fs, CategoryField) {
      var g :| g in fs && NameOf(g) == CategoryField;
      SetAllReadsBack(p, fs, g);
    } else {
      SetAllLeavesOthers(p, fs, CategoryField);
    }
  }

  /**
   * `update`: set the given fields one by one, save, then add the
   * uploads the product has room for.
   */
  method Update(store: Store, p: Product, fs: seq<Field>, uploads: seq<string>, slugify: string -> string,
                isEmail: string -> bool, now: nat) returns (q: Product)
    requires store.Valid() && p in store.products
    requires Acceptable(fs, uploads, true, store.categories, isEmail)
    modifies store
    ensures store.Valid()
    ensures store.categories == old(store.categories) && store.views == old(store.views) && store.inquiries == old(store.inquiries)
    ensures q == SetAll(p, fs).(slug := q.slug, updatedAt := now)
    ensures p.slug != "" ==> q.slug == p.slug
    ensures p.slug == "" ==> q.slug !in Slugs(old(store.products))
    ensures store.products == Overwrite(old(store.products), p.id, q)
    ensures var existing := CountOf(old(store.images), p.id);
      var added := Min(|uploads|, Room(existing));
      store.images == old(store.images) + Uploaded(p.id, uploads[..added], |old(store.images)| + 1, existing, false, now)
      && CountOf(store.images, p.id) == existing + added
  {
    KeyOfMember(store.products, p);
    var draft := ApplyFields(p, fs);
    SetAllKeepsProtected(p, fs);
    UpdatedCategory(p, fs, store.categories);
    OwnSlugNotOther(store.products, p.id - 1);
    var r := store.SaveProduct(draft, slugify, now);
    q := r.value;
    var added := AddUploads(store, p.id, uploads, now);
  }
}
