/**
 * The product records of brokers/models/product.py: a product, its images,
 * and the string builders and selections the model computes from them
 * (`__str__`, the slug chosen on first save, the WhatsApp contact link,
 * the currency-prefixed price, the main image, the JSON attributes).
 * Prices are counted in cents (the field has two decimal places).
 */
module Products {
  import opened Wrappers
  import opened Text
  import opened Sorting

  /** A value of the `attributes` JSON object. */
  datatype Json = JNull | JBool(b: bool) | JNumber(n: int) | JString(s: string)

  datatype Product = Product(
    id: nat, title: string, slug: string, category: nat, seller: nat,
    brand: string, model: string, condition: string, attributes: map<string, Json>,
    locationCity: string, locationProvince: string, locationDetail: string,
    price: nat, isNegotiable: bool, currency: string,
    contactName: string, contactPhone: string, contactEmail: string,
    description: string, isActive: bool, isFeatured: bool, isSold: bool,
    metaTitle: string, metaDescription: string, createdAt: nat, updatedAt: nat)

  datatype Image = Image(id: nat, product: nat, file: string, caption: string,
                         isMain: bool, order: nat, createdAt: nat)

  // ---------------------------------------------------------------------
  // __str__

  /** `Product.__str__`: `brand model` when both are given, the title otherwise. */
  function Str(p: Product): string {
    if p.brand != "" && p.model != "" then p.brand + " " + p.model else p.title
  }

  // ---------------------------------------------------------------------
  // The slug chosen by `Product.save`

  /** The `k`-th slug tried for `base`: `base` itself, then `base-1`, `base-2`, ... */
  function SlugCandidate(base: string, k: nat): string {
    if k == 0 then base else base + "-" + NatToString(k)
  }

  /** Every candidate is `base` or `base` followed by `-` and a number: suffixes are never compounded. */
  lemma SlugCandidateShape(base: string, k: nat)
    ensures SlugCandidate(base, k)[..|base|] == base
    ensures k == 0 <==> |SlugCandidate(base, k)| == |base|
    ensures k > 0 ==> var s := SlugCandidate(base, k);
      s[|base|] == '-' && s[|base| + 1..] == NatToString(k) && DigitsValue(s[|base| + 1..]) == k
  {
    if k > 0 {
      var s := SlugCandidate(base, k);
      assert s == base + ("-" + NatToString(k));
      assert s[|base| + 1..] == NatToString(k);
      NatToStringRoundTrip(k);
    }
  }

  /** Distinct suffixes give distinct candidates. */
  lemma SlugCandidateInjective(base: string, j: nat, k: nat)
    requires SlugCandidate(base, j) == SlugCandidate(base, k)
    ensures j == k
  {
    SlugCandidateShape(base, j);
    SlugCandidateShape(base, k);
  }

  /** `k` is the smallest suffix whose candidate is free. */
  ghost predicate FirstFree(base: string, taken: set<string>, k: nat) {
    SlugCandidate(base, k) !in taken && forall j :: 0 <= j < k ==> SlugCandidate(base, j) in taken
  }

  /** At most one suffix is the first free one, so the loop's answer is determined. */
  lemma FirstFreeUnique(base: string, taken: set<string>, j: nat, k: nat)
    requires FirstFree(base, taken, j) && FirstFree(base, taken, k)
    ensures j == k
  {
  }

  lemma NotSeen(base: string, seen: set<string>, n: nat)
    requires forall s :: s in seen ==> exists j :: 0 <= j < n && s == SlugCandidate(base, j)
    ensures SlugCandidate(base, n) !in seen
  {
    forall s | s in seen ensures s != SlugCandidate(base, n) {
      var j :| 0 <= j < n && s == SlugCandidate(base, j);
      if s == SlugCandidate(base, n) {
        SlugCandidateInjective(base, j, n);
      }
    }
  }

  lemma SubsetCard<T>(a: set<T>, b: set<T>)
    requires a <= b
    ensures |a| <= |b|
  {
    assert b == a + (b - a);
  }

  /**
   * The loop of `Product.save` for a blank slug: try `base`, `base-1`,
   * `base-2`, ... and keep the first one no product uses. It ends because
   * the candidates are all different and only finitely many are taken.
   */
  method GenerateSlug(base: string, taken: set<string>) returns (slug: string)
    ensures slug !in taken
    ensures exists k :: slug == SlugCandidate(base, k) && FirstFree(base, taken, k)
  {
    slug := base;
    var counter := 1;
    ghost var seen: set<string> := {};
    while slug in taken
      invariant 1 <= counter
      invariant slug == SlugCandidate(base, counter - 1)
      invariant forall j :: 0 <= j < counter - 1 ==> SlugCandidate(base, j) in taken
      invariant seen <= taken && |seen| == counter - 1
      invariant forall s :: s in seen ==> exists j :: 0 <= j < counter - 1 && s == SlugCandidate(base, j)
      decreases |taken| - |seen|
    {
      NotSeen(base, seen, counter - 1);
      seen := seen + {slug};
      SubsetCard(seen, taken);
      slug := base + "-" + NatToString(counter);
      counter := counter + 1;
    }
    assert FirstFree(base, taken, counter - 1);
  }

  /**
   * `Product.save`: a blank slug becomes the first free candidate for the
   * slugified title; a slug already given is kept, so renaming a product
   * never changes its slug.
   */
  method AssignSlug(p: Product, taken: set<string>, slugify: string -> string) returns (q: Product)
    ensures p.slug != "" ==> q == p
    ensures p.slug == "" ==> q == p.(slug := q.slug) && q.slug !in taken
    ensures p.slug == "" ==> exists k :: q.slug == SlugCandidate(slugify(p.title), k) && FirstFree(slugify(p.title), taken, k)
  {
    if p.slug == "" {
      var s := GenerateSlug(slugify(p.title), taken);
      q := p.(slug := s);
    } else {
      q := p;
    }
  }

  // ---------------------------------------------------------------------
  // whatsapp_link

  /** The contact number with every `+`, `-` and space removed. */
  function StripSeparators(phone: string): (r: string)
    ensures '+' !in r && '-' !in r && ' ' !in r
    ensures forall c :: c in r <==> c in phone && c != '+' && c != '-' && c != ' '
  {
    RemoveAll(RemoveAll(RemoveAll(phone, '+'), '-'), ' ')
  }

  /** The number `whatsapp_link` dials: separators removed, a leading `0` turned into `62`. */
  function NormalizePhone(phone: string): (r: string)
    ensures '+' !in r && '-' !in r && ' ' !in r
    ensures r == [] || r[0] != '0'
  {
    var s := StripSeparators(phone);
    if s != [] && s[0] == '0' then
      var r := "62" + s[1..];
      assert forall c :: c in s[1..] ==> c in s;
      r
    else s
  }

  /** Separators are stripped piece by piece: order and count of the other characters are kept. */
  lemma StripSeparatorsAppend(a: string, b: string)
    ensures StripSeparators(a + b) == StripSeparators(a) + StripSeparators(b)
  {
    RemoveAllAppend(a, b, '+');
    RemoveAllAppend(RemoveAll(a, '+'), RemoveAll(b, '+'), '-');
    RemoveAllAppend(RemoveAll(RemoveAll(a, '+'), '-'), RemoveAll(RemoveAll(b, '+'), '-'), ' ');
  }

  /** One character is dropped when it is a separator and kept otherwise. */
  lemma StripSeparatorsChar(c: char)
    ensures StripSeparators([c]) == if c == '+' || c == '-' || c == ' ' then [] else [c]
  {
    assert [c][1..] == [];
  }

  /**
   * A local number written in two groups joined by a separator, such as
   * `0812-34567890`, dials as both groups run together, the leading `0`
   * turned into `62`.
   */
  lemma NormalizeSeparatedNumber(a: string, sep: char, b: string)
    requires a != [] && a[0] == '0'
    requires '+' !in a && '-' !in a && ' ' !in a && '+' !in b && '-' !in b && ' ' !in b
    requires sep == '+' || sep == '-' || sep == ' '
    ensures NormalizePhone(a + [sep] + b) == "62" + a[1..] + b
  {
    var d := a[1..] + b;
    assert a + b == "0" + d;
    StripSeparatorsJoin(a, sep, b);
    StripSeparatorsOfClean("0" + d);
    NormalizeLocalNumber(d);
  }

  lemma StripSeparatorsJoin(a: string, sep: char, b: string)
    requires '+' !in a && '-' !in a && ' ' !in a && '+' !in b && '-' !in b && ' ' !in b
    requires sep == '+' || sep == '-' || sep == ' '
    ensures StripSeparators(a + [sep] + b) == a + b
  {
    var x := a + [sep];
    StripSeparatorsChar(sep);
    StripSeparatorsOfClean(a);
    StripSeparatorsAppend(a, [sep]);
    assert StripSeparators(x) == a;
    StripSeparatorsOfClean(b);
    StripSeparatorsAppend(x, b);
  }

  lemma StripSeparatorsOfClean(s: string)
    requires '+' !in s && '-' !in s && ' ' !in s
    ensures StripSeparators(s) == s
  {
    RemoveAllAbsent(s, '+');
    RemoveAllAbsent(s, '-');
    RemoveAllAbsent(s, ' ');
  }

  /** A local number `0...` written without separators dials as `62...`, the rest as written. */
  lemma NormalizeLocalNumber(digits: string)
    requires '+' !in digits && '-' !in digits && ' ' !in digits
    ensures NormalizePhone("0" + digits) == "62" + digits
  {
    StripSeparatorsOfClean("0" + digits);
    assert ("0" + digits)[1..] == digits;
  }

  /** A number without separators and without a leading `0` is dialled as written. */
  lemma NormalizeInternationalNumber(s: string)
    requires '+' !in s && '-' !in s && ' ' !in s
    requires s == [] || s[0] != '0'
    ensures NormalizePhone(s) == s
  {
    StripSeparatorsOfClean(s);
  }

  /** Normalizing a normalized number changes nothing. */
  lemma NormalizePhoneIdempotent(phone: string)
    ensures NormalizePhone(NormalizePhone(phone)) == NormalizePhone(phone)
  {
    NormalizeInternationalNumber(NormalizePhone(phone));
  }

  /** The sample seller's number. */
  lemma NormalizeSampleNumber(phone: string)
    requires phone == "081234567890"
    ensures NormalizePhone(phone) == "6281234567890"
  {
    var local := "81234567890";
    assert phone == "0" + local;
    NormalizeLocalNumber(local);
    assert "62" + local == "6281234567890";
  }

  const WaPrefix: string := "https://wa.me/"
  const Greeting: string := "Halo, saya tertarik dengan "
  const PriceLead: string := " yang Anda jual seharga "

  /** The text sent with the link: the product's name as `__str__` gives it, then its price. */
  function Message(p: Product): string {
    Greeting + Str(p) + PriceLead + FormattedPrice(p.currency, p.price)
  }

  /** The message names the product exactly as `__str__` does, right after the greeting. */
  lemma MessageNamesProduct(p: Product)
    ensures Message(p)[..|Greeting|] == Greeting
    ensures Message(p)[|Greeting|..|Greeting| + |Str(p)|] == Str(p)
  {
    var m := Message(p);
    assert m == Greeting + (Str(p) + (PriceLead + FormattedPrice(p.currency, p.price)));
  }

  /** `Product.whatsapp_link`, with the URL quoting function left as a parameter. */
  function WhatsappLink(p: Product, quote: string -> string): string {
    WaPrefix + NormalizePhone(p.contactPhone) + "?text=" + quote(Message(p))
  }

  /**
   * The link can be read back: after the fixed prefix comes the dialled
   * number, up to the first `?` (the number never holds one when the
   * stored number does not), and then the quoted message.
   */
  lemma WhatsappLinkParts(p: Product, quote: string -> string)
    requires '?' !in p.contactPhone
    ensures var link := WhatsappLink(p, quote);
      link[..|WaPrefix|] == WaPrefix &&
      BeforeFirst(link[|WaPrefix|..], '?') == NormalizePhone(p.contactPhone) &&
      link[|WaPrefix| + |NormalizePhone(p.contactPhone)| + 6..] == quote(Message(p))
  {
    var phone := NormalizePhone(p.contactPhone);
    var tail := "?text=" + quote(Message(p));
    NormalizePhoneChars(p.contactPhone);
    assert '?' !in phone;
    assert WhatsappLink(p, quote) == WaPrefix + (phone + tail);
    Halves(WaPrefix, phone + tail);
    Halves(phone, tail);
    BeforeFirstOfPrefix(phone, tail, '?');
  }

  lemma Halves(a: string, b: string)
    ensures (a + b)[..|a|] == a && (a + b)[|a|..] == b
  {
  }

  /** The dialled number holds only characters of the stored number and the `62` put in front. */
  lemma NormalizePhoneChars(phone: string)
    ensures forall c :: c in NormalizePhone(phone) ==> c in phone || c == '6' || c == '2'
  {
    var s := StripSeparators(phone);
    if s != [] && s[0] == '0' {
      assert forall c :: c in s[1..] ==> c in s;
    }
  }

  lemma {:induction false} BeforeFirstOfPrefix(a: string, b: string, c: char)
    requires c !in a && b != [] && b[0] == c
    ensures BeforeFirst(a + b, c) == a
  {
    if a == [] {
      assert a + b == b;
    } else {
      assert (a + b)[0] == a[0];
      assert (a + b)[1..] == a[1..] + b;
      BeforeFirstOfPrefix(a[1..], b, c);
    }
  }

  // ---------------------------------------------------------------------
  // formatted_price

  /**
   * The whole-unit amount `format(price, ',.0f')` shows: the nearest whole
   * number of units, ties going to the even one (`Decimal`'s default rounding).
   */
  function RoundedUnits(cents: nat): (u: nat)
    ensures -50 <= u * 100 - cents <= 50
    ensures (u * 100 - cents == 50 || u * 100 - cents == -50) ==> u % 2 == 0
  {
    var q, r := cents / 100, cents % 100;
    if r > 50 || (r == 50 && q % 2 == 1) then q + 1 else q
  }

  /** Round-half-even is the only rounding with those two properties. */
  lemma RoundedUnitsUnique(cents: nat, v: nat)
    requires -50 <= v * 100 - cents <= 50
    requires (v * 100 - cents == 50 || v * 100 - cents == -50) ==> v % 2 == 0
    ensures v == RoundedUnits(cents)
  {
    var u := RoundedUnits(cents);
    assert -100 <= (v - u) * 100 <= 100;
  }

  /** `format(price, ',.2f')`: grouped whole units, a point, two digits of cents. */
  function TwoDecimals(cents: nat): (s: string)
    ensures |s| >= 4 && s[|s| - 3] == '.' && IsDigit(s[|s| - 2]) && IsDigit(s[|s| - 1])
  {
    Grouped(cents / 100) + "." + Pad2(cents % 100)
  }

  /** Dropping the commas and the point from a two-decimal amount reads back the cents. */
  lemma TwoDecimalsRoundTrip(cents: nat)
    ensures DigitsValue(DigitsOnly(TwoDecimals(cents))) == cents
  {
    var hi, lo := Grouped(cents / 100), Pad2(cents % 100);
    DigitsOnlyAppend(hi + ".", lo);
    DigitsOnlyAppend(hi, ".");
    DigitsOnlyOfDigits(lo);
    assert DigitsOnly(".") == [];
    assert DigitsOnly(hi + "." + lo) == DigitsOnly(hi) + lo;
    DigitsValueAppend(DigitsOnly(hi), lo);
    GroupedRoundTrip(cents / 100);
    Pad2Value(cents % 100);
    assert Pow10(2) == 100;
  }

  /** The euro sign as the source file spells it: its UTF-8 bytes read as Windows-1252. */
  const EuroMisencoded: string := "\U{E2}\U{201A}\U{AC}"

  /** `Product.formatted_price`. */
  function FormattedPrice(currency: string, price: nat): string {
    if currency == "IDR" then "Rp " + Grouped(RoundedUnits(price))
    else if currency == "USD" then "$" + TwoDecimals(price)
    else if currency == "EUR" then EuroMisencoded + TwoDecimals(price)
    else currency + " " + TwoDecimals(price)
  }

  /** The prefix `formatted_price` puts before the amount. */
  function PriceTag(currency: string): string {
    if currency == "IDR" then "Rp " else if currency == "USD" then "$"
    else if currency == "EUR" then EuroMisencoded else currency + " "
  }

  /**
   * Every price string is the currency's tag followed by an amount whose
   * digits read back the price: whole units rounded half to even, with no
   * decimal point, for rupiah; the exact cents, with two decimals, otherwise.
   */
  lemma FormattedPriceReadsBack(currency: string, price: nat)
    ensures var s, tag := FormattedPrice(currency, price), PriceTag(currency);
      tag <= s &&
      (currency == "IDR" ==> '.' !in s[|tag|..] && DigitsValue(DigitsOnly(s[|tag|..])) == RoundedUnits(price)) &&
      (currency != "IDR" ==> s[|s| - 3] == '.' && DigitsValue(DigitsOnly(s[|tag|..])) == price)
  {
    var s, tag := FormattedPrice(currency, price), PriceTag(currency);
    if currency == "IDR" {
      var g := Grouped(RoundedUnits(price));
      assert s[|tag|..] == g;
      GroupedAlphabet(RoundedUnits(price));
      GroupedRoundTrip(RoundedUnits(price));
      assert forall k :: 0 <= k < |g| ==> g[k] != '.';
    } else {
      assert s == tag + TwoDecimals(price);
      assert s[|tag|..] == TwoDecimals(price);
      TwoDecimalsRoundTrip(price);
    }
  }

  /** The sample listing's price: 28 million rupiah. */
  lemma FormattedSamplePrice()
    ensures FormattedPrice("IDR", 2800000000) == "Rp 28,000,000"
  {
    assert RoundedUnits(2800000000) == 28000000;
    assert Pad3(0) == "000";
    assert Grouped(28) == "28";
    assert Grouped(28000) == "28,000";
  }

  // ---------------------------------------------------------------------
  // main_image

  /** The key of `ProductImage.Meta.ordering`: by `order`, main images first, then oldest first. */
  function ImageKey(i: Image): seq<int> {
    [i.order, if i.isMain then 0 else 1, i.createdAt]
  }

  /**
   * `Product.main_image` over the product's images in their default
   * ordering: the first main image, or else the first image, or none.
   */
  function MainImage(imgs: seq<Image>): (r: Option<Image>)
    ensures r.Some? <==> imgs != []
    ensures r.Some? ==> r.value in imgs
  {
    match FirstMain(imgs)
    case Some(m) => Some(m)
    case None => if imgs == [] then None else Some(imgs[0])
  }

  /** The first main image, if any. */
  function FirstMain(imgs: seq<Image>): (r: Option<Image>)
    ensures r.None? <==> forall i :: i in imgs ==> !i.isMain
    ensures r.Some? ==> r.value in imgs && r.value.isMain
  {
    if imgs == [] then None else if imgs[0].isMain then Some(imgs[0]) else FirstMain(imgs[1..])
  }

  /** When an image is main, `main_image` is a main image and every image before it is not. */
  lemma {:induction false} MainImageIsFirstMain(imgs: seq<Image>, k: nat)
    requires k < |imgs| && imgs[k].isMain
    requires forall j :: 0 <= j < k ==> !imgs[j].isMain
    ensures MainImage(imgs) == Some(imgs[k])
  {
    if k > 0 {
      MainImageIsFirstMain(imgs[1..], k - 1);
    }
  }

  /** When no image is main, `main_image` is the first image. */
  lemma MainImageWithoutMain(imgs: seq<Image>)
    requires imgs != [] && forall i :: i in imgs ==> !i.isMain
    ensures MainImage(imgs) == Some(imgs[0])
  {
  }

  // ---------------------------------------------------------------------
  // get_attribute and set_attribute

  /** `Product.get_attribute(key, default)`: `attributes.get(key, default)`. */
  function GetAttribute(p: Product, key: string, default: Json): Json {
    if key in p.attributes then p.attributes[key] else default
  }

  /** `Product.set_attribute(key, value)` on a copy of the instance. */
  function SetAttribute(p: Product, key: string, value: Json): (q: Product)
    ensures q.attributes.Keys == p.attributes.Keys + {key}
  {
    p.(attributes := p.attributes[key := value])
  }

  /** A set attribute reads back; every other key and every other field is as before. */
  lemma GetAfterSet(p: Product, key: string, value: Json, other: string, default: Json)
    ensures GetAttribute(SetAttribute(p, key, value), key, default) == value
    ensures other != key ==> GetAttribute(SetAttribute(p, key, value), other, default) == GetAttribute(p, other, default)
    ensures SetAttribute(p, key, value).(attributes := p.attributes) == p
  {
  }
}
