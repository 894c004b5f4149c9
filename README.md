# Brokers marketplace catalog — a verified Dafny model

This project models the catalog core of a Django marketplace for second-hand
goods. Sellers list products in a category tree and attach up to ten images to
each. Buyers browse, search and filter the listings, open a product page (each
opening is recorded once per client) and send inquiries. Sellers mark products
sold or available again.

- **Value entities are datatypes.**
  - `Users.User` and `Profiles.Profile`.
  - `Categories.Category`.
  - `Products.Product` and `Products.Image`.
  - `Catalog.Inquiry`, `Catalog.ViewKey` and `Catalog.ViewInfo`.
- **The database is the class `Catalog.Store`.** It holds:
  - the category table, kept in `sort_order, name` order;
  - the product, image and inquiry tables, each keyed by position (row `k` has key `k + 1`);
  - the view map keyed by (product, ip, session).

  `Store.Valid()` is the set of database constraints the methods preserve:
  - unique product slugs;
  - unique category ids, names and slugs;
  - an acyclic category forest;
  - foreign keys that resolve;
  - at most one main image per product.

  The ten-image cap is not part of `Store.Valid()`: like `ProductImage.save`, it is checked only when a new image is inserted (`Store.AddImage`), and re-saving an existing image under another product is not counted.
- **Model methods on rows.** `save` on a product, an image or a category becomes a `Store` method or a function on the row.
- **Views become methods.** The DRF view actions (`brokers/views.py`) are methods of module `Views` that act on a `Store`.
- **Serializers.** The writes of `ProductCreateUpdateSerializer` (`brokers/serializers.py`) are methods of module `Serializers`.
- **Read-only querysets are functions.** They live in `Queries`, each with a lemma stating which rows it keeps and in what order.

Modules, one per file:

| file | module | models |
|---|---|---|
| wrappers.dfy | Wrappers | `Option` / `Result` |
| text.dfy | Text | `str.strip`, `lower`, substring search, number formatting, code-point string order |
| sorting.dfy | Sorting | a stable sort by a lexicographic key, used for `order_by` |
| users.dfy | Users | users/models.py |
| profiles.dfy | Profiles | profiles/models.py |
| categories.dfy | Categories | brokers/models/category.py |
| products.dfy | Products | brokers/models/product.py, row-level parts |
| store.dfy | Catalog | the tables and every `save` that touches them |
| queries.dfy | Queries | the read side of brokers/views.py |
| serializers.dfy | Serializers | brokers/serializers.py |
| views.dfy | Views | the write side of brokers/views.py |

Conventions:
- **Prices** are a natural number of cents, because the field has two decimal places.
- **Timestamps** are a counter `now` that the caller supplies.
- **Library functions are parameters.** `slugify`, `urllib.parse.quote` and the e-mail validator are passed in as functions.
- **The current user** is `Option<nat>`, where `None` means anonymous.

Where the code and its documentation disagree, the model follows the code:
- **`filterset_fields` has no effect.** It is declared on the product view set, but no django-filter backend is installed, so it is not modelled as a filter.
- **`update` and `partial_update` have no owner check.** Any logged-in user may change any product; see "## Findings".
- **Inquiry status is client-settable.** `ProductInquirySerializer` lists `status` as writable, so a client can set it on creation.
- **Rupiah prices group with commas.** They are rounded to whole units with the `,` thousands separator (`Rp 28,000,000`), not with Indonesian dots.

## Model

| member | source | states |
|---|---|---|
| Text.Strip | users/models.py:33 | the result has no leading or trailing whitespace (Python's `str.isspace` set) and is no longer than the input |
| Text.StripOfPadded | users/models.py:33 | stripping whitespace-only padding around an unpadded string gives back exactly that string |
| Text.StripIdempotent | users/models.py:33 | stripping twice is the same as stripping once |
| Text.StripEmptyOnlyIfBlank | users/models.py:33 | stripping leaves the empty string only when the input was all whitespace |
| Text.ContainsIff | brokers/views.py:33-38 | the substring test `term in field` holds exactly when some position of the field starts an occurrence of the term |
| Text.BeforeFirst | brokers/views.py:120-122 | the result is a prefix of the input without the separator, and ends exactly at its first occurrence (or is the whole input) |
| Text.NatToStringRoundTrip | brokers/models/product.py:92 | the decimal spelling of a number reads back as that number |
| Text.NatToStringInjective | brokers/models/product.py:92 | different numbers have different decimal spellings |
| Text.Grouped | brokers/models/product.py:121 | the comma-grouped spelling starts with a digit and equals the plain spelling below 1000 |
| Text.GroupedAlphabet | brokers/models/product.py:121 | the comma-grouped spelling consists only of digits and commas |
| Text.GroupedRoundTrip | brokers/models/product.py:121 | dropping the commas from the grouped spelling reads back the number |
| Text.GroupedCommas | brokers/models/product.py:121 | a comma stands at a position exactly when it is every fourth place counted from the right, so digits come in threes |
| Users.FullName | users/models.py:30-33 | `full_name` is never padded with whitespace |
| Users.FullNameWithoutFirst | users/models.py:30-33 | with an empty first name the full name is the stripped last name |
| Users.FullNameOfCleanNames | users/models.py:30-33 | with two non-empty unpadded names the full name is `first + " " + last` |
| Users.FullNameEmpty | profiles/models.py:31-34 | the full name is empty exactly when both names are blank (the same expression is `Profile.full_name`) |
| Users.ShortNameBeginsFullName | users/models.py:35-37 | `get_short_name` is the first name, which begins the full name followed by a space |
| Users.FindByEmail | users/models.py:19-21 | login by e-mail finds a user with that e-mail, or reports that none has it |
| Users.Register | users/models.py:13 | registration fails exactly when the e-mail, username or id is already taken, and otherwise appends the user |
| Users.RegisterThenLogin | users/models.py:13-21 | after a successful registration the accounts stay unique, the new user logs in by e-mail, and every old user still does |
| Users.EmailIdentifies | users/models.py:27-28 | `__str__` (the e-mail) identifies exactly one account |
| Profiles.Str | profiles/models.py:28-29 | `__str__` is `"Profil "` followed by the username |
| Profiles.StrInjective | profiles/models.py:28-29 | two profiles print the same only when their usernames agree |
| Profiles.DisplayName | profiles/models.py:36-40 | the display name is the full name when that is non-empty and the username otherwise; it is empty only when both are |
| Profiles.DisplayNameOfNamedUser | profiles/models.py:36-40 | a user with two clean names is displayed as `first last` |
| Profiles.DisplayNameOfNamelessUser | profiles/models.py:36-40 | a user with no names is displayed by username |
| Profiles.AddProfile | profiles/models.py:11 | adding a profile fails exactly when the user already has one |
| Profiles.AddProfileKeepsOneToOne | profiles/models.py:11 | a successful add keeps at most one profile per user |
| Categories.Find | brokers/models/category.py:25 | the lookup by id returns a row with that id, and returns `None` exactly when there is none |
| Categories.Insert | brokers/models/category.py:45 | the inserted table has one more row and, as a multiset, is exactly the old rows plus the new one |
| Categories.InsertSorted | brokers/models/category.py:45 | insertion keeps the table in `sort_order, name` order |
| Categories.InsertWellFormed | brokers/models/category.py:17-25 | inserting a category with a fresh id, name and slug and an existing parent keeps the forest well formed, unique and sorted |
| Categories.FullPathStep | brokers/models/category.py:57-62 | a root's `full_path` is its name; a child's is the parent's path, `" > "`, and its name |
| Categories.FullPathEndsWithName | brokers/models/category.py:57-62 | every `full_path` ends with the category's own name |
| Categories.FullPathSeparators | brokers/models/category.py:57-62 | when names contain no `>`, the path has as many separators as the category has ancestors |
| Categories.StrIsFullPathIffShallow | brokers/models/category.py:47-50 | `__str__` equals `full_path` exactly for categories at depth 0 or 1 |
| Categories.ChildIdsMembers | brokers/models/category.py:66 | `children.all()` holds exactly the ids of the rows whose parent is the given category |
| Categories.GetAllChildren | brokers/models/category.py:64-69 | the loop returns the children first and then each child's own descendant list: the reference `Descendants` |
| Categories.DescendantsExactlyBelow | brokers/models/category.py:64-69 | on an acyclic tree the descendant list holds exactly the categories whose lineage strictly extends this one's |
| Categories.DescendantsDistinct | brokers/models/category.py:64-69 | on an acyclic tree no descendant is listed twice |
| Categories.ActiveCategories | brokers/views.py:17 | the category queryset keeps exactly the active rows |
| Categories.ActiveCategoriesSorted | brokers/views.py:17 | and keeps them in `sort_order, name` order |
| Categories.SlugOnSave | brokers/models/category.py:52-55 | `save` fills an empty slug with `slugify(name)`, keeps an existing one, and changes nothing else |
| Sorting.SortByKeySorted | brokers/views.py:63 | the result is ordered by the key |
| Sorting.SortByKeyPermutes | brokers/views.py:63 | the result is a permutation of the input |
| Sorting.TakeSorted | brokers/views.py:190 | a prefix of an ordered list is ordered |
| Products.SlugCandidateShape | brokers/models/product.py:89-92 | candidate `k` is `base` for `k = 0`, and otherwise `base`, `-`, and the digits of `k`, which read back `k`; suffixes never compound |
| Products.SlugCandidateInjective | brokers/models/product.py:89-92 | different counters give different candidates |
| Products.FirstFreeUnique | brokers/models/product.py:91-93 | there is only one first free counter |
| Products.GenerateSlug | brokers/models/product.py:88-94 | the loop ends with an unused slug and with the smallest counter whose candidate is unused |
| Products.AssignSlug | brokers/models/product.py:86-95 | a non-empty slug is kept; an empty one becomes the first free candidate of `slugify(title)`, and nothing else changes |
| Products.StripSeparators | brokers/models/product.py:100 | the result holds exactly the phone's characters other than `+`, `-` and space |
| Text.RemoveAllAppend | brokers/models/product.py:100 | `replace(c, '')` on a concatenation is the concatenation of the two removals, so order and count of the other characters are kept |
| Products.StripSeparatorsAppend | brokers/models/product.py:100 | removing the separators from a concatenation concatenates the two results |
| Products.StripSeparatorsChar | brokers/models/product.py:100 | a single separator is dropped and any other character kept; with the append lemma this fixes the result on every input |
| Products.StripSeparatorsJoin | brokers/models/product.py:100 | two clean groups joined by one separator strip to the two groups run together |
| Products.NormalizeSeparatedNumber | brokers/models/product.py:100-102 | a local number written as two clean groups around a separator dials as `62`, the first group without its `0`, then the second group |
| Products.NormalizePhone | brokers/models/product.py:100-102 | the normalised phone has no `+`, `-` or space and never starts with `0` |
| Products.NormalizeLocalNumber | brokers/models/product.py:101-102 | a clean number with a leading `0` gets `62` in place of that one `0` |
| Products.NormalizeInternationalNumber | brokers/models/product.py:100-102 | a clean number not starting with `0` is kept as it is |
| Products.NormalizePhoneIdempotent | brokers/models/product.py:100-102 | normalising twice is the same as normalising once |
| Products.NormalizeSampleNumber | brokers/models/product.py:100-102 | `081234567890` becomes `6281234567890` |
| Products.MessageNamesProduct | brokers/models/product.py:104-105 | the message is the greeting followed by the product's `__str__` name |
| Products.WhatsappLinkParts | brokers/models/product.py:97-110 | the link is `https://wa.me/`, the normalised phone up to the first `?`, and after `?text=` the quoted message |
| Products.RoundedUnits | brokers/models/product.py:121 | the whole-unit amount is within half a unit of the price, with ties going to the even amount |
| Products.RoundedUnitsUnique | brokers/models/product.py:121 | round-half-to-even is the only rounding with those two properties |
| Products.TwoDecimals | brokers/models/product.py:123 | a `,.2f` amount ends with a point and two digits |
| Products.TwoDecimalsRoundTrip | brokers/models/product.py:123 | dropping commas and point from a `,.2f` amount reads back the cents |
| Products.FormattedPriceReadsBack | brokers/models/product.py:117-127 | every price string is the currency's tag (`Rp `, `$`, the mis-encoded euro sign, or the code and a space) followed by an amount that reads back the price: rounded whole units without a point for IDR, exact cents with two decimals otherwise |
| Products.FormattedSamplePrice | brokers/models/product.py:121 | 28,000,000 rupiah prints as `Rp 28,000,000` |
| Products.MainImage | brokers/models/product.py:112-115 | there is a main image exactly when the product has images, and it is one of them |
| Products.FirstMain | brokers/models/product.py:115 | `filter(is_main=True).first()` is `None` exactly when no image is main, and otherwise is a main image |
| Products.MainImageIsFirstMain | brokers/models/product.py:113-115 | `main_image` is the first image flagged main in image order |
| Products.MainImageWithoutMain | brokers/models/product.py:115 | with no main flag set, `main_image` is the first image in image order |
| Products.SetAttribute | brokers/models/product.py:133-137 | `set_attribute` adds the key to the attribute keys and no other key |
| Products.GetAfterSet | brokers/models/product.py:129-137 | after `set_attribute(k, v)`, `get_attribute(k)` is `v`, every other key reads as before, and no other field changes |
| Catalog.KeyOfMember | brokers/models/product.py:30-74 | a stored product's id is its row key |
| Catalog.ClearMainCounts | brokers/models/product.py:160-161 | clearing the main flags changes no product's image count |
| Catalog.ClearMainValid | brokers/models/product.py:160-161 | clearing keeps the image table valid and leaves the product with no main image |
| Catalog.AppendImageValid | brokers/models/product.py:158-169 | appending a fresh image whose product has no other main image keeps the table valid |
| Catalog.TablesAppendProduct | brokers/models/product.py:32-33 | a new product with a fresh slug and an existing category keeps the database valid |
| Catalog.TablesAddCategory | brokers/models/category.py:17-18 | a new category with a fresh name and slug and an existing parent keeps the database valid |
| Catalog.TablesReplaceProduct | brokers/models/product.py:32-33 | overwriting a product with one whose slug no other row has keeps the database valid |
| Catalog.Store.constructor | brokers/models/product.py:30-74 | the empty database is valid |
| Catalog.Store.AddCategory | brokers/models/category.py:17-18 | the save fails with an integrity error exactly when the name or the filled-in slug is already used or the parent is missing (no suffix is tried); otherwise it inserts the category with the next id, keeping the table ordered |
| Catalog.Store.InsertProduct | brokers/models/product.py:86-95 | the insert fails exactly when a given slug is taken or the category is missing; otherwise it appends the product with the next id and a slug that is unused and the smallest free candidate when none was given |
| Catalog.Store.SaveProduct | brokers/models/product.py:86-95 | re-saving keeps a non-empty slug (failing if another row has it), gives an empty one a fresh slug, stamps `updated_at`, and overwrites exactly that row |
| Catalog.Store.AddImage | brokers/models/product.py:158-169 | main flags of the product are cleared first; the insert is refused when the product already has ten images, and even then the flags stay cleared; other products' counts never change |
| Catalog.Store.SaveImage | brokers/models/product.py:158-169 | re-saving an existing image is never counted against the cap and overwrites its own row after clearing siblings' main flags |
| Catalog.Store.RecordView | brokers/models/product.py:184 | a view row is created exactly when the (product, ip, session) triple is new; an existing row, user agent included, is left alone |
| Catalog.Store.AddInquiry | brokers/models/product.py:190-203 | the inquiry is appended with the next id, and nothing else changes |
| Queries.ShowSoldExactly | brokers/views.py:83-85 | sold products are shown exactly when `show_sold` lower-cased is `"true"` |
| Queries.PriceFilteredMembers | brokers/views.py:88-93 | the price filter keeps exactly the products within the given inclusive bounds |
| Queries.PriceFilteredNoBounds | brokers/views.py:88-93 | without bounds the price filter keeps everything, in order |
| Queries.ProductQuerysetSpec | brokers/views.py:63-95 | the product list holds exactly the active, suitably unsold, in-range products, featured first then newest first |
| Queries.InactiveNeverListed | brokers/views.py:63 | an inactive product is never listed, whatever the parameters |
| Queries.LookupSlug | brokers/views.py:65 | the lookup returns a product with that slug, or `None` exactly when there is none |
| Queries.GetProductSpec | brokers/views.py:65-95 | the detail lookup finds a listed product with that slug, and fails exactly when no product with it is listed |
| Queries.MatchesIgnoresCity | brokers/views.py:32-39 | the category search never looks at the city |
| Queries.MatchesTitle | brokers/views.py:32-39 | a case-insensitive occurrence of the term in the title is a match |
| Queries.ActiveCategoryBySlug | brokers/views.py:17-23 | the category route resolves to an active category with that slug, or to 404 exactly when there is none |
| Queries.CategoryQuerysetSpec | brokers/views.py:21-56 | a category's products are exactly its active unsold in-range matches, featured first then newest first |
| Queries.FeaturedSpec | brokers/views.py:183-193 | at most 20 active unsold featured products, newest first; a candidate left out means 20 newer ones were kept |
| Queries.MyProductsSpec | brokers/views.py:170-181 | the caller's products are exactly those they sell, whatever their flags, newest first |
| Queries.SellerInquiriesSpec | brokers/views.py:203-207 | a seller sees exactly the inquiries about their own products, newest first |
| Queries.ClientIpFirstHop | brokers/views.py:118-125 | with a forwarded header the client ip is the untrimmed text before its first comma |
| Queries.MainImageOfSpec | brokers/models/product.py:112-115 | a product's main image exists exactly when it has an image, and belongs to it |
| Queries.MainImageOfUniqueMain | brokers/models/product.py:112-115 | with at most one main image per product, that image is the main image |
| Queries.ViewCountRecorded | brokers/models/product.py:184 | recording a new triple raises that product's view count by one and no other count |
| Serializers.Get | brokers/serializers.py:72-77 | reading a writable field yields a field of that name |
| Serializers.SetReadsBack | brokers/serializers.py:98-99 | `setattr` of one field reads back that value |
| Serializers.SetLeavesOthers | brokers/serializers.py:98-99 | `setattr` of one field leaves every other writable field alone |
| Serializers.SetKeepsProtected | brokers/serializers.py:72-77 | `setattr` never touches slug, seller, id, flags or timestamps |
| Serializers.SetAllReadsBack | brokers/serializers.py:97-100 | after the update loop every provided field holds its provided value |
| Serializers.SetAllLeavesOthers | brokers/serializers.py:97-100 | a field not provided keeps its old value |
| Serializers.SetAllKeepsProtected | brokers/serializers.py:72-77 | no list of writable fields changes slug, seller, id, flags or timestamps |
| Serializers.ApplyFields | brokers/serializers.py:98-99 | the `setattr` loop computes the reference `SetAll` |
| Serializers.UploadedAt | brokers/serializers.py:84-90 | the k-th uploaded image has `order = firstOrder + k`, the k-th file, no caption, and is main only when first and the batch is main-led |
| Serializers.UploadedMain | brokers/serializers.py:84-90 | only the first image of a batch can be main |
| Serializers.NewProductDefaults | brokers/views.py:97-98 | a created product's seller is the caller; it is active, unsold, unfeatured, with an empty slug |
| Serializers.Create | brokers/serializers.py:79-92 | `create` appends the product and then one image per upload: order = index, only the first main, and at most ten in total |
| Serializers.AddFirstImages | brokers/serializers.py:84-90 | the create loop inserts exactly the upload batch with the first image main |
| Serializers.AddUploads | brokers/serializers.py:103-111 | `update` appends `min(n, max(0, 10 - existing))` uploads, ordered from `existing`, none main, silently dropping the rest |
| Serializers.Update | brokers/serializers.py:94-113 | `update` overwrites the provided fields, keeps the slug, stamps `updated_at`, overwrites only that row, then appends uploads up to the cap |
| Views.WriteGateSpec | brokers/views.py:127-135 | a write fails with 401 exactly when anonymous, 404 exactly when the scoped lookup fails, 403 exactly when the owner check fails, and otherwise yields the caller's listed product |
| Views.GateWithoutOwnerCheck | brokers/views.py:64 | without the owner check any logged-in user passes; with it a non-seller gets 403 |
| Views.RetiredNotFound | brokers/views.py:63-85 | once a product is inactive, the scoped lookup of its slug finds nothing |
| Views.RetiredNotFoundAnywhere | brokers/views.py:63-85 | and that holds for every combination of query parameters |
| Views.Retrieve | brokers/views.py:100-116 | a found product is returned with its images and view count; a view row is added exactly for a new (product, ip, session or `anonymous`) triple; a miss is a 404 that changes nothing |
| Views.Mark | brokers/views.py:127-157 | the seller's product gets `is_sold` / `is_active` set to the requested pair and only that row changes; others get 401/404/403 with nothing changed; a sold product is then not found under any parameters |
| Views.SetFlags | brokers/views.py:137-139 | the flag pair is written and only that row is overwritten |
| Views.Inquire | brokers/views.py:159-168 | an anonymous caller is refused with 401 first (the viewset's `IsAuthenticatedOrReadOnly`); for a logged-in caller a found product with valid data gets a stored inquiry, a missing product is 404, invalid data 400, and no refusal stores anything |
| Views.CreateProduct | brokers/views.py:97-98 | an anonymous create is 401; data that misses a required field, exceeds a column's `max_length` or digits, leaves a non-blank column empty, has a malformed e-mail, an unknown condition or category, or more than ten uploads is 400 with nothing changed; otherwise the caller's new active product and its images are stored, and categories, views and inquiries are left as they were |
| Views.SaveUpdate | brokers/serializers.py:94-113 | data passing the same per-column checks as a create (required fields only on a full update) overwrites the provided fields of that row and appends the uploads the ten-image cap leaves room for, leaving categories, views and inquiries as they were; anything else is 400 with nothing changed |
| Views.UpdateAsWritten | brokers/views.py:59-77 | the update route as written: any logged-in user reaches the serializer, so it never answers 403; invalid data is 400 with nothing changed; valid data overwrites the provided fields of that row and appends the uploads the cap leaves room for, with categories, views and inquiries left as they were |
| Views.NonSellerPassesUpdateGate | brokers/views.py:59-77 | a concrete non-seller passes the gate the update route uses, and is refused by the owner-checked one |
| Views.Update | brokers/views.py:127-135 | the corrected update route: only the seller can change a product; everyone else gets 401/404/403 and invalid data 400, each with nothing changed; the seller's valid data overwrites the provided fields and appends the uploads the cap leaves room for, with categories, views and inquiries left as they were |

## Left out

- HTTP, routing, pagination envelopes and serializer output shapes are not modelled. `ProductDetailSerializer` is reduced to the product, its images and its view count.
- The product list's DRF `SearchFilter` and `OrderingFilter` (`search`, `ordering` query parameters) are left out because their term splitting and parameter parsing are library behaviour. The `CategoryViewSet.products` search, which the view writes itself, is modelled.
- `filterset_fields` is left out because no filter backend reads it.
- Price query parameters arrive already parsed into cents. Malformed numbers, which Django would reject, are not modelled.
- Field validation by DRF is summarised by `Serializers.Acceptable` (through `Serializers.FieldValid`) and `Views.InquiryAcceptable`. They cover required fields, `max_length`, non-blank columns, the price's 15 digits, a well-formed e-mail, choices, an existing category and at most ten uploads. Field values arrive as validated data, so whitespace trimming and type coercion of input are not modelled; nor is a negative price, which prices in `nat` cents cannot express.
- Categories.CatLess: names are compared in code-point order (`Text.StrLess`); the database sorts `order_by('sort_order', 'name')` by its collation, which the model does not capture.
- Catalog.Store.RecordView: a view is keyed on the raw address text. `GenericIPAddressField` normalises IPv6 text (so `2001:DB8::1` and `2001:db8::1` are one row in the database); the model treats them as two (`Queries.ClientIp` passes the text through unchanged).
- `slugify`, `urllib.parse.quote` and the e-mail validator are uninterpreted parameters. `uuid4` and the upload path functions are left out, so a file is just a name.
- `Text.Lower` folds only ASCII letters. Python's `str.lower` covers all of Unicode.
- JSON attribute values are scalars only; nested objects and arrays are not modelled.
- Products.GetAttribute / Products.SetAttribute: the `attributes` column is modelled as a JSON object (`map<string, Json>`). The serializer's `JSONField` also accepts a top-level list, string or number; the `AttributeError` that `get_attribute` then raises, `set_attribute` resetting a falsy value to `{}`, and its `TypeError` on a truthy non-object are not modelled.
- `set_attribute` mutating the attributes dict in place is modelled as a function returning the updated product.
- Authentication, sessions and JWT are left out. The caller is an optional user id, and a missing session key is the empty string.
- The user table is not a `Store` field. `Users.Register` models the unique e-mail constraint on a list of users.
- Users are identified by a natural number instead of a UUID.
- `destroy` and cascading deletes are left out.
- Concurrency and transactions are left out; each method runs atomically.
- Categories are written only outside the API (admin screens, seeding script): `CategoryViewSet` is read-only. Their `save` is modelled by `Categories.SlugOnSave` inside `Catalog.Store.AddCategory`; re-saving an existing category is not modelled. `product_count` and the other category serializer fields are not modelled.
- Views.Mark: the router never dispatches an empty slug, so that case is not treated specially.
- Serializers.Create: the create loop is modelled as its first (main) image followed by the others, which is the same sequence of inserts.
- Products.RoundedUnits: fractional cents of a rupiah price are rounded half to even, which is what Python's `Decimal` does by default; the model does not cover other rounding contexts.

## Findings

| source | as written | input that shows it | evidently intended | confidence | as-written member | corrected member |
|---|---|---|---|---|---|---|
| brokers/views.py:59-77 | `update` / `partial_update` are guarded only by `IsAuthenticatedOrReadOnly`, with no seller check | product `phone` sold by user 1; user 2 sends `PATCH /products/phone/` and the change is saved | only the seller may update a product, as `mark_sold` / `mark_available` already check (brokers/views.py:131-135) | not executed | Views.UpdateAsWritten, Views.NonSellerPassesUpdateGate | Views.Update, Views.WriteGateSpec |
