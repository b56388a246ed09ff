/**
 * The trade-a-plane controller: each listing page becomes a record with the
 * raw price text and a digits-only `price`, the seller's `info` list as a
 * nested object, and the description boxes. A record is kept unless it has
 * no price digits or its raw price text holds a word such as "call".
 */
module TradeAPlane {
  import opened Wrappers
  import opened Text
  import opened Json
  import opened Pipeline

  /** One `#info-list-seller li`: the text of its `label`, if any, and its whole text. */
  datatype InfoItem = InfoItem(labelText: Option<string>, text: string)

  /** What the scraper reads from a listing page. */
  datatype TapPage = TapPage(
    ready: bool,                   // loaded, and `#header` appeared
    location: string,              // window.location.href
    header: Option<string>,        // #header
    priceText: Option<string>,     // #main_info .price
    mainImage: Option<string>,     // src of .pgwSlideshow .main-slide-image img
    gallery: seq<string>,          // src of each .ps-list img
    sellerName: Option<string>,    // .sellerName a
    phoneHref: Option<string>,     // href attribute of .seller-phone-top a
    contactName: Option<string>,   // #seller-info-area b
    info: seq<InfoItem>,
    boxes: map<string, string>     // innerText of `#id pre`, by id, for the boxes present
  )

  const NoPrice: string := "NO_PRICE"

  // ---------------------------------------------------------------- price

  /** `priceText.replace(/[^0-9]/g, "")`, or "NO_PRICE" when no digit is left. */
  function PriceOf(priceText: string): (price: string)
    ensures price == NoPrice || (price != [] && forall i :: 0 <= i < |price| ==> IsDigit(price[i]))
    ensures price == NoPrice <==> Digits(priceText) == []
    ensures price != NoPrice ==> price == Digits(priceText)
  {
    var numeric := Digits(priceText);
    assert !IsDigit(NoPrice[0]);
    if |numeric| > 0 then numeric else NoPrice
  }

  /** A price written with digits only is kept as it is. */
  lemma PriceOfDigits(s: string)
    requires s != [] && forall i :: 0 <= i < |s| ==> IsDigit(s[i])
    ensures PriceOf(s) == s
  {
  }

  /** Separators between groups of digits, such as the commas of "1,250,000", are dropped. */
  lemma PriceOfGrouped(a: string, sep: string, b: string)
    requires a + b != []
    requires forall i :: 0 <= i < |a| ==> IsDigit(a[i])
    requires forall i :: 0 <= i < |b| ==> IsDigit(b[i])
    requires forall i :: 0 <= i < |sep| ==> !IsDigit(sep[i])
    ensures PriceOf(a + sep + b) == a + b
  {
    DigitsConcat(a + sep, b);
    DigitsConcat(a, sep);
    DigitsNone(sep);
    assert Digits(a) + [] == a;
  }

  /** `document.querySelector(...)?.innerText || ""`. */
  function PriceText(p: TapPage): string {
    if Truthy(p.priceText) then p.priceText.value else ""
  }

  // ---------------------------------------------------------------- fields

  /**
   * One `li`'s `json.info[key] = value`: the cleaned label, and the cleaned text
   * of the item with the first occurrence of that label removed; kept when both
   * are non-empty.
   */
  function InfoEntry(item: InfoItem): (e: Option<(string, Value)>)
    ensures e.Some? ==> e.value.0 != [] && IsClean(e.value.0) && e.value.1.Str? && e.value.1.s != [] && IsClean(e.value.1.s)
    ensures e.Some? <==> Truthy(Clean(item.labelText)) && Truthy(Clean(Some(ReplaceFirst(item.text, Clean(item.labelText).value, ""))))
    ensures e.Some? ==> e.value == (Clean(item.labelText).value, Str(Clean(Some(ReplaceFirst(item.text, Clean(item.labelText).value, ""))).value))
  {
    var key := Clean(item.labelText);
    if !Truthy(key) then None
    else
      var value := Clean(Some(ReplaceFirst(item.text, key.value, "")));
      if Truthy(value) then Some((key.value, Str(value.value))) else None
  }

  /** `json.info`, filled by the `forEach` over the items. */
  function Info(items: seq<InfoItem>): Record {
    Put(map[], Entries(items, InfoEntry))
  }

  /** Every stored info entry has a non-empty key and a non-empty value, both cleaned. */
  lemma InfoStored(items: seq<InfoItem>, key: string)
    requires key in Info(items)
    ensures key != [] && IsClean(key)
    ensures Info(items)[key].Str? && Info(items)[key].s != [] && IsClean(Info(items)[key].s)
  {
    RowOrigin(map[], items, InfoEntry, key);
  }

  /** `extractBox(id)`: the box's trimmed text, or null. */
  function Box(p: TapPage, id: string): Value {
    OfText(TrimOrNull(if id in p.boxes then Some(p.boxes[id]) else None))
  }

  /** Every field of the object built in the page except the two price fields. */
  function OtherFields(p: TapPage): (r: Record)
    ensures "price" !in r && "price_raw" !in r
  {
    map[
      "url" := Str(p.location),
      "title" := OfText(Clean(p.header)),
      "main_image" := OfText(OrNull(p.mainImage)),
      "gallery_images" := List(p.gallery),
      "seller" := OfText(OrNull(Clean(p.sellerName))),
      "phone" := OfText(OrNull(p.phoneHref)),
      "contact_name" := OfText(Clean(p.contactName)),
      "info" := Obj(Info(p.info)),
      "general_specs" := Box(p, "general_specs"),
      "detailed_description" := Box(p, "detailed_desc"),
      "avionics_equipment" := Box(p, "avionics_equipment"),
      "airframe" := Box(p, "airframe"),
      "engines_mods" := Box(p, "engines_mods"),
      "interior_exterior" := Box(p, "interior_exterior"),
      "remarks" := Box(p, "remarks")]
  }

  /**
   * The object built in the page. Every key is assigned once, so the order of
   * the assignments does not change the object.
   */
  function TapRecord(p: TapPage): Record {
    var priceText := PriceText(p);
    OtherFields(p)["price_raw" := OfText(Clean(Some(priceText)))]["price" := Str(PriceOf(priceText))]
  }

  /** `scrapeListing`: null when the page does not load or shows no header. */
  function Scrape(p: TapPage): Option<Record> {
    if p.ready then Some(TapRecord(p)) else None
  }

  /** The two price fields are new keys: every other field is as `OtherFields` set it. */
  lemma RecordFields(p: TapPage)
    ensures TapRecord(p).Keys == OtherFields(p).Keys + {"price_raw", "price"}
    ensures forall k :: k in OtherFields(p) ==> TapRecord(p)[k] == OtherFields(p)[k]
  {
    var priceText := PriceText(p);
    PricesAdded(OtherFields(p), OfText(Clean(Some(priceText))), Str(PriceOf(priceText)));
  }

  lemma PricesAdded(m: Record, raw: Value, price: Value)
    requires "price" !in m && "price_raw" !in m
    ensures m["price_raw" := raw]["price" := price].Keys == m.Keys + {"price_raw", "price"}
    ensures forall k :: k in m ==> m["price_raw" := raw]["price" := price][k] == m[k]
  {
  }

  /** The price of every scraped record is "NO_PRICE" or the digits of the price text. */
  lemma RecordPrice(p: TapPage)
    ensures "price" in TapRecord(p) && TapRecord(p)["price"] == Str(PriceOf(PriceText(p)))
    ensures "price_raw" in TapRecord(p)
    ensures TapRecord(p)["price_raw"] == Null <==> PriceText(p) == []
  {
  }

  // ---------------------------------------------------------------- acceptance

  const InvalidPriceWords: seq<string> := ["make offer", "contact seller", "call", "inquire", "not listed", "n/a"]

  /** `scraped.price_raw?.toLowerCase() || ""`. */
  function LowerRaw(r: Record): string {
    if "price_raw" in r && r["price_raw"].Str? then Lower(r["price_raw"].s) else ""
  }

  /** `invalidPriceWords.some((w) => price.includes(w))`. */
  predicate ContainsInvalid(price: string) {
    exists i :: 0 <= i < |InvalidPriceWords| && Contains(price, InvalidPriceWords[i])
  }

  /** The controller's test: a price with digits, and no invalid word in the raw text. */
  predicate Accept(r: Record) {
    !("price" in r && r["price"] == Str(NoPrice)) && !ContainsInvalid(LowerRaw(r))
  }

  lemma NothingInEmpty(p: string)
    requires p != []
    ensures !Contains("", p)
  {
    assert !StartsWith("", p);
  }

  /** A missing raw price reads as "", which holds no invalid word. */
  lemma NullRawNeverInvalid(r: Record)
    requires "price_raw" !in r || r["price_raw"] == Null
    ensures !ContainsInvalid(LowerRaw(r))
  {
    forall i | 0 <= i < |InvalidPriceWords| ensures !Contains("", InvalidPriceWords[i]) {
      NothingInEmpty(InvalidPriceWords[i]);
    }
  }

  /** A kept record's price is a non-empty run of digits, and its raw text holds no invalid word. */
  lemma AcceptedPrice(p: TapPage)
    requires Accept(TapRecord(p))
    ensures TapRecord(p)["price"].Str? && TapRecord(p)["price"].s != []
    ensures forall i :: 0 <= i < |TapRecord(p)["price"].s| ==> IsDigit(TapRecord(p)["price"].s[i])
    ensures forall w :: w in InvalidPriceWords ==> !Contains(LowerRaw(TapRecord(p)), w)
  {
    RecordPrice(p);
  }

  // ---------------------------------------------------------------- the controller loop

  function Visitor(visit: string -> TapPage): string -> Option<Record> {
    url => Scrape(visit(url))
  }

  /**
   * `scrapeTradeAPlaneController` without the browser, the delay and the output
   * file: the links are given, and `visit` stands for loading one.
   */
  method ScrapeTradeAPlane(links: seq<string>, visit: string -> TapPage) returns (results: seq<Record>)
    ensures results == Kept(links, Visitor(visit), Accept)
    ensures |results| <= |links|
    ensures forall r: Record :: r in results ==> Accept(r)
  {
    results := RunSite(links, Visitor(visit), Accept);
    KeptLength(links, Visitor(visit), Accept);
    KeptAccepted(links, Visitor(visit), Accept);
  }
}
