/**
 * The globalair controller: each listing page becomes a record with the
 * seller block, one field per specification row, the converted price (or
 * "NO_PRICE" when there is none or it says "please call"), the card and mobile
 * sections as lists of lines, and the filtered gallery. A record is kept
 * unless its price is "NO_PRICE".
 */
module GlobalAir {
  import opened Wrappers
  import opened Text
  import opened Json
  import opened Pipeline

  /** The element around `.seller-name`: how many `br` it holds and its `innerText`. */
  datatype SellerBlock = SellerBlock(brCount: nat, text: string)

  /** A `.col-md-6 .row`: the text of its first and second child, when present. */
  datatype GaRow = GaRow(keyCell: Option<string>, valueCell: Option<string>)

  /** A `.card-header` and the `.card-body` of its parent, when there is one. */
  datatype Card = Card(header: string, body: Option<string>)

  /** A `.mobileLHDtl` block: its `h4`, when present, and the text of each `div` inside. */
  datatype MobileBlock = MobileBlock(heading: Option<string>, divs: seq<string>)

  /** What the scraper reads from a listing page. */
  datatype GaPage = GaPage(
    ready: bool,                    // loaded, and `.card-header h3` appeared
    location: string,               // window.location.href
    titleText: Option<string>,      // .card-header h3
    sellerLink: Option<string>,     // .seller-name a
    contactText: Option<string>,    // textContent of the element after .seller-name
    sellerBlock: Option<SellerBlock>,
    rows: seq<GaRow>,
    convertedPrice: Option<string>, // #convertedPrice
    details: Option<string>,        // #divaddetails
    cards: seq<Card>,
    mobile: seq<MobileBlock>,
    firstImage: Option<string>,     // src of the first `img.lazyload, img[src]`
    imageSrcs: seq<string>,         // src of every img
    businessPhone: Option<string>   // data-businessphone of the contact button
  )

  const NoPrice: string := "NO_PRICE"

  // ---------------------------------------------------------------- seller block

  /** The lines of the seller block after the first two (seller and contact), joined with ", ". */
  function LocationLines(text: string): seq<string> {
    var lines := Split(text, "\n");
    if |lines| <= 2 then [] else lines[2..]
  }

  /** `json.location`: null unless the seller block holds a `br`. */
  function Location(block: Option<SellerBlock>): (loc: Option<string>)
    ensures loc.Some? ==> block.Some? && block.value.brCount > 0 && IsClean(loc.value)
  {
    if block.Some? && block.value.brCount > 0 then Clean(Some(Join(LocationLines(block.value.text), ", ")))
    else None
  }

  /** The lines after the first two of a text joined from lines without line breaks. */
  lemma LinesAfterTwo(seller: string, contact: string, address: seq<string>)
    requires '\n' !in seller && '\n' !in contact
    requires forall k :: 0 <= k < |address| ==> '\n' !in address[k]
    ensures LocationLines(Join([seller, contact] + address, "\n")) == address
  {
    var parts := [seller, contact] + address;
    forall k | 0 <= k < |parts| ensures "\n"[0] !in parts[k] {
      if k >= 2 {
        assert parts[k] == address[k - 2];
      }
    }
    JoinThenSplit(parts, "\n");
    assert parts[2..] == address;
  }

  /**
   * A seller block written as a seller line, a contact line and address lines
   * gives the address lines joined with ", ", cleaned.
   */
  lemma LocationOfBlock(seller: string, contact: string, address: seq<string>, brCount: nat)
    requires brCount > 0
    requires '\n' !in seller && '\n' !in contact
    requires forall k :: 0 <= k < |address| ==> '\n' !in address[k]
    ensures Location(Some(SellerBlock(brCount, Join([seller, contact] + address, "\n")))) ==
      Clean(Some(Join(address, ", ")))
  {
    LinesAfterTwo(seller, contact, address);
  }

  /** A seller block of at most two lines holds no location. */
  lemma ShortBlockHasNoLocation(block: SellerBlock)
    requires |Split(block.text, "\n")| <= 2
    ensures Location(Some(block)) == None
  {
  }

  // ---------------------------------------------------------------- rows

  /** One row's `json[key] = value`: the cleaned first child without its first ':', and the cleaned second. */
  function RowEntry(row: GaRow): (e: Option<(string, Value)>)
    ensures e.Some? <==> row.keyCell.Some? && Truthy(Clean(Some(ReplaceFirst(row.keyCell.value, ":", "")))) && Truthy(Clean(row.valueCell))
    ensures e.Some? ==> e.value.0 != [] && IsClean(e.value.0) && e.value.1.Str? && e.value.1.s != [] && IsClean(e.value.1.s)
    ensures e.Some? ==> e.value == (Clean(Some(ReplaceFirst(row.keyCell.value, ":", ""))).value, Str(Clean(row.valueCell).value))
  {
    var key := if row.keyCell.Some? then Clean(Some(ReplaceFirst(row.keyCell.value, ":", ""))) else None;
    var value := Clean(row.valueCell);
    if Truthy(key) && Truthy(value) then Some((key.value, Str(value.value))) else None
  }

  // ---------------------------------------------------------------- price

  /** `convertedPrice || "NO_PRICE"`, then "NO_PRICE" again when it says "please call". */
  function PriceOf(converted: Option<string>): (price: string)
    ensures price == NoPrice || (Truthy(Clean(converted)) && price == Clean(converted).value && !Contains(Lower(price), "please call"))
    ensures Truthy(Clean(converted)) && !Contains(Lower(Clean(converted).value), "please call") ==> price == Clean(converted).value
  {
    var c := Clean(converted);
    var price := if Truthy(c) then c.value else NoPrice;
    if Contains(Lower(price), "please call") then NoPrice else price
  }

  /** A price other than "NO_PRICE" is the cleaned converted price, and it does not say "please call". */
  lemma RealPrice(converted: Option<string>)
    requires PriceOf(converted) != NoPrice
    ensures Truthy(Clean(converted)) && PriceOf(converted) == Clean(converted).value
    ensures !Contains(Lower(Clean(converted).value), "please call")
  {
  }

  lemma PleaseCallMeansNoPrice(converted: Option<string>)
    requires Truthy(Clean(converted)) && Contains(Lower(Clean(converted).value), "please call")
    ensures PriceOf(converted) == NoPrice
  {
  }

  // ---------------------------------------------------------------- card sections

  /** `Array.prototype.findIndex`: the first index whose element satisfies `f`. */
  function Find<T>(xs: seq<T>, f: T -> bool): (i: Option<nat>)
    ensures i.Some? ==> i.value < |xs| && f(xs[i.value])
    ensures i.Some? ==> forall j :: 0 <= j < i.value ==> !f(xs[j])
    ensures i.None? ==> forall j :: 0 <= j < |xs| ==> !f(xs[j])
    decreases |xs|
  {
    if xs == [] then None
    else if f(xs[0]) then Some(0)
    else
      assert forall j :: 1 <= j < |xs| ==> xs[1..][j - 1] == xs[j];
      match Find(xs[1..], f)
      case None => None
      case Some(i) => Some(i + 1)
  }


  /** The card's header, trimmed and lower-cased, includes the title lower-cased. */
  predicate Titles(card: Card, title: string) {
    Contains(Lower(Trim(card.header)), Lower(title))
  }

  /** `[...cards].find(...)`: the first card whose header includes the title. */
  function FindCard(cards: seq<Card>, title: string): (i: Option<nat>)
    ensures i.Some? ==> i.value < |cards| && Titles(cards[i.value], title)
    ensures i.Some? ==> forall j :: 0 <= j < i.value ==> !Titles(cards[j], title)
    ensures i.None? ==> forall j :: 0 <= j < |cards| ==> !Titles(cards[j], title)
  {
    Find(cards, c => Titles(c, title))
  }

  /** `extractSection(title)`: the cleaned, non-empty lines of the first matching card's body. */
  function ExtractSection(cards: seq<Card>, title: string): (lines: seq<string>)
    ensures forall k :: 0 <= k < |lines| ==> lines[k] != [] && IsClean(lines[k])
    ensures FindCard(cards, title).None? ==> lines == []
  {
    match FindCard(cards, title)
    case None => []
    case Some(i) =>
      match cards[i].body
      case None => []
      case Some(body) => CleanPieces(Split(body, "\n"))
  }

  /**
   * The section is the first card whose header includes the title: its body's
   * lines, cleaned, with blank ones dropped, or none when it has no body.
   */
  lemma SectionOfCard(cards: seq<Card>, title: string, i: nat)
    requires i < |cards| && Titles(cards[i], title)
    requires forall j :: 0 <= j < i ==> !Titles(cards[j], title)
    ensures cards[i].body.None? ==> ExtractSection(cards, title) == []
    ensures cards[i].body.Some? ==> ExtractSection(cards, title) == CleanPieces(Split(cards[i].body.value, "\n"))
  {
    assert FindCard(cards, title) == Some(i);
  }

  // ---------------------------------------------------------------- mobile sections

  /** The `h4` of the block, trimmed and lower-cased, is the title lower-cased. */
  predicate Heads(block: MobileBlock, title: string) {
    block.heading.Some? && Lower(Trim(block.heading.value)) == Lower(title)
  }

  /** `[...blocks].find(...)`: the first block headed by the title. */
  function FindBlock(blocks: seq<MobileBlock>, title: string): (i: Option<nat>)
    ensures i.Some? ==> i.value < |blocks| && Heads(blocks[i.value], title)
    ensures i.Some? ==> forall j :: 0 <= j < i.value ==> !Heads(blocks[j], title)
    ensures i.None? ==> forall j :: 0 <= j < |blocks| ==> !Heads(blocks[j], title)
  {
    Find(blocks, b => Heads(b, title))
  }

  /** `t.split("<br>").join("\n").split("\n").map(clean)` then `filter(Boolean)`, for one text block. */
  function BlockLines(t: string): (lines: seq<string>)
    ensures forall k :: 0 <= k < |lines| ==> lines[k] != [] && IsClean(lines[k])
  {
    CleanPieces(Split(Join(Split(t, "<br>"), "\n"), "\n"))
  }

  /** The `flatMap` over the text blocks. */
  function FlatLines(blocks: seq<string>): (lines: seq<string>)
    ensures forall k :: 0 <= k < |lines| ==> lines[k] != [] && IsClean(lines[k])
    decreases |blocks|
  {
    if blocks == [] then [] else BlockLines(blocks[0]) + FlatLines(blocks[1..])
  }

  /** Two pieces joined by `<br>` give the lines of the first, then those of the second. */
  lemma BlockLinesBr(a: string, b: string)
    ensures BlockLines(a + "<br>" + b) == BlockLines(a) + BlockLines(b)
  {
    FirstCharOnce("<br>");
    var x, y := Split(a, "<br>"), Split(b, "<br>");
    SplitConcat(a, "<br>", b);
    JoinAppend(x, y, "\n");
    CleanLinesConcat(Join(x, "\n"), Join(y, "\n"));
  }

  /** Without `<br>`, a block's lines are its newline-separated lines, cleaned, blank ones dropped. */
  lemma BlockLinesPlain(t: string)
    requires !Contains(t, "<br>")
    ensures BlockLines(t) == CleanPieces(Split(t, "\n"))
  {
    assert Split(t, "<br>") == [t];
    assert Join([t], "\n") == t;
  }

  /** The lines of a list of blocks are those of each block, in order. */
  lemma {:induction false} FlatLinesConcat(a: seq<string>, b: seq<string>)
    ensures FlatLines(a + b) == FlatLines(a) + FlatLines(b)
    decreases |a|
  {
    if a == [] {
      assert a + b == b;
    } else {
      assert (a + b)[0] == a[0] && (a + b)[1..] == a[1..] + b;
      FlatLinesConcat(a[1..], b);
      AppendAssoc(BlockLines(a[0]), FlatLines(a[1..]), FlatLines(b));
    }
  }

  /** One block contributes its own lines. */
  lemma FlatLinesOne(t: string)
    ensures FlatLines([t]) == BlockLines(t)
  {
    assert [t][1..] == [];
  }

  /** `extractMobileSection(title)`. */
  function ExtractMobileSection(blocks: seq<MobileBlock>, title: string): (lines: seq<string>)
    ensures forall k :: 0 <= k < |lines| ==> lines[k] != [] && IsClean(lines[k])
    ensures FindBlock(blocks, title).None? ==> lines == []
  {
    match FindBlock(blocks, title)
    case None => []
    case Some(i) => FlatLines(CleanPieces(blocks[i].divs))
  }

  /** The section is the first block headed by the title: the lines of its non-empty cleaned text blocks. */
  lemma MobileSectionOfBlock(blocks: seq<MobileBlock>, title: string, i: nat)
    requires i < |blocks| && Heads(blocks[i], title)
    requires forall j :: 0 <= j < i ==> !Heads(blocks[j], title)
    ensures ExtractMobileSection(blocks, title) == FlatLines(CleanPieces(blocks[i].divs))
  {
    assert FindBlock(blocks, title) == Some(i);
  }

  /**
   * A text block has been cleaned, so it holds no line break: the detour through
   * "\n" changes nothing, and its lines are its `<br>`-separated pieces, cleaned.
   */
  lemma BlockLinesAreBrPieces(t: string)
    requires IsClean(t)
    ensures BlockLines(t) == CleanPieces(Split(t, "<br>"))
  {
    var pieces := Split(t, "<br>");
    assert '\n' !in t by {
      forall i | 0 <= i < |t| ensures t[i] != '\n' {
        if IsWs(t[i]) {
          assert t[i] == ' ';
        }
      }
    }
    SplitAvoids(t, "<br>", '\n');
    JoinThenSplit(pieces, "\n");
  }

  // ---------------------------------------------------------------- gallery

  /** The gallery's filter: a non-empty src that is no logo, icon or placeholder. */
  predicate IsGalleryImage(src: string) {
    src != [] && !Contains(src, "logo") && !Contains(src, "icon") && !Contains(src, "placeholder")
  }

  function Gallery(srcs: seq<string>): (r: seq<string>)
    ensures forall k :: 0 <= k < |r| ==> IsGalleryImage(r[k])
    ensures forall s :: s in r <==> s in srcs && IsGalleryImage(s)
    ensures |srcs| == 1 ==> r == if IsGalleryImage(srcs[0]) then srcs else []
    decreases |srcs|
  {
    if srcs == [] then []
    else
      var init := Gallery(srcs[..|srcs| - 1]);
      var last := srcs[|srcs| - 1];
      assert srcs == srcs[..|srcs| - 1] + [last];
      init + (if IsGalleryImage(last) then [last] else [])
  }

  /** The filter distributes over concatenation, so it keeps the passing srcs in order, repeats included. */
  lemma {:induction false} GalleryConcat(a: seq<string>, b: seq<string>)
    ensures Gallery(a + b) == Gallery(a) + Gallery(b)
    decreases |b|
  {
    if b == [] {
      assert a + b == a;
    } else {
      var b' := b[..|b| - 1];
      var last := b[|b| - 1];
      LastOfConcat(a, b);
      GalleryConcat(a, b');
    }
  }

  lemma LastOfConcat<T>(a: seq<T>, b: seq<T>)
    requires b != []
    ensures (a + b)[..|a + b| - 1] == a + b[..|b| - 1] && (a + b)[|a + b| - 1] == b[|b| - 1]
  {
  }

  // ---------------------------------------------------------------- the record

  /** The fields set before the rows. */
  function Head(p: GaPage): Record {
    map[
      "url" := Str(p.location),
      "title" := OfText(Clean(p.titleText)),
      "seller" := OfText(Clean(p.sellerLink)),
      "contact_name" := OfText(Clean(p.contactText)),
      "location" := OfText(Location(p.sellerBlock))]
  }

  /** The names assigned after the rows, in order; each overrides a row of the same name. */
  const TailNames: seq<string> := ["price", "long_description", "airframe", "engines", "interior",
    "exterior", "avionics", "main_image", "gallery_images", "phone", "whatsapp"]

  function TailValues(p: GaPage): (vs: seq<Value>)
    ensures |vs| == |TailNames|
  {
    [Str(PriceOf(p.convertedPrice)),
     OfText(Clean(p.details)),
     List(ExtractSection(p.cards, "Airframe")),
     List(ExtractSection(p.cards, "Engine")),
     List(ExtractMobileSection(p.mobile, "Interior Details")),
     List(ExtractMobileSection(p.mobile, "Exterior Details")),
     List(ExtractMobileSection(p.mobile, "Avionics")),
     OfText(p.firstImage),
     List(Gallery(p.imageSrcs)),
     OfText(p.businessPhone),
     Null]
  }

  function Tail(p: GaPage): seq<(string, Value)> {
    Named(TailValues(p))
  }

  /** Each value paired with the name it is assigned to. */
  function Named(vs: seq<Value>): seq<(string, Value)>
    requires |vs| == |TailNames|
  {
    seq(|TailNames|, i requires 0 <= i < |TailNames| => (TailNames[i], vs[i]))
  }

  /** The object the page returns; the `delete json.Price` guard always holds, so "Price" is always removed. */
  function GaRecord(p: GaPage): Record {
    Finish(p, Put(Head(p), Entries(p.rows, RowEntry)))
  }

  /** What follows the rows: the assignments of `Tail`, then `delete json.Price`. */
  function Finish(p: GaPage, json: Record): Record {
    Put(json, Tail(p)) - {"Price"}
  }

  /** `scrapeListing`: null when the page does not load or shows no title. */
  function Scrape(p: GaPage): Option<Record> {
    if p.ready then Some(GaRecord(p)) else None
  }

  /** No assignment after the first names "price" again. */
  lemma PriceNamedOnce()
    ensures forall j :: 0 < j < |TailNames| ==> TailNames[j] != "price"
  {
    var n := TailNames;
    assert |n[1]| == 16 && |n[2]| == 8 && |n[3]| == 7 && |n[4]| == 8 && |n[5]| == 8;
    assert |n[6]| == 8 && |n[7]| == 10 && |n[8]| == 14 && |n[10]| == 8;
    assert n[9][1] == 'h';
  }

  /** Whatever the rows left in the record, the assignments after them fix "price" and "whatsapp". */
  lemma TailSets(p: GaPage, json: Record)
    ensures "price" in Put(json, Tail(p)) && Put(json, Tail(p))["price"] == Str(PriceOf(p.convertedPrice))
    ensures "whatsapp" in Put(json, Tail(p)) && Put(json, Tail(p))["whatsapp"] == Null
  {
    var vs := TailValues(p);
    assert vs[0] == Str(PriceOf(p.convertedPrice)) && vs[10] == Null;
    NamedSets(vs, json);
  }

  /** The first named value ends up under "price", the last under "whatsapp". */
  lemma NamedSets(vs: seq<Value>, json: Record)
    requires |vs| == |TailNames|
    ensures "price" in Put(json, Named(vs)) && Put(json, Named(vs))["price"] == vs[0]
    ensures "whatsapp" in Put(json, Named(vs)) && Put(json, Named(vs))["whatsapp"] == vs[10]
  {
    var t := Named(vs);
    PriceNamedOnce();
    assert forall j :: 0 < j < |t| ==> t[j].0 == TailNames[j];
    assert t[0] == ("price", vs[0]) && t[10] == ("whatsapp", vs[10]);
    PutLast(json, t, 0);
    PutLast(json, t, 10);
  }

  /** A name not assigned after the rows keeps what the rows left. */
  lemma NamedOther(vs: seq<Value>, json: Record, k: string)
    requires |vs| == |TailNames| && k !in TailNames
    ensures k in Put(json, Named(vs)) <==> k in json
    ensures k in json ==> Put(json, Named(vs))[k] == json[k]
  {
    var t := Named(vs);
    assert forall j :: 0 <= j < |t| ==> t[j].0 == TailNames[j];
    PutOther(json, t, k);
  }

  /** After the deletion "price" and "whatsapp" keep what the assignments set, and "Price" is gone. */
  lemma TailFixes(p: GaPage, json: Record)
    ensures "price" in Finish(p, json) && Finish(p, json)["price"] == Str(PriceOf(p.convertedPrice))
    ensures "whatsapp" in Finish(p, json) && Finish(p, json)["whatsapp"] == Null
    ensures "Price" !in Finish(p, json)
  {
    TailSets(p, json);
    var full := Put(json, Tail(p));
    Deleted(full, "Price", "price");
    Deleted(full, "Price", "whatsapp");
  }

  /** The names assigned after the rows are distinct, and none of them is "Price". */
  lemma TailNamesDistinct()
    ensures forall i, j :: 0 <= i < j < |TailNames| ==> TailNames[i] != TailNames[j]
    ensures "Price" !in TailNames
  {
    var n := TailNames;
    assert |n| == 11;
    assert |n[0]| == 5 && |n[1]| == 16 && |n[2]| == 8 && |n[3]| == 7 && |n[4]| == 8 && |n[5]| == 8;
    assert |n[6]| == 8 && |n[7]| == 10 && |n[8]| == 14 && |n[9]| == 5 && |n[10]| == 8;
    assert n[0][0] == 'p' && n[0][1] == 'r' && n[9][0] == 'p' && n[9][1] == 'h';
    assert n[2][0] == 'a' && n[2][1] == 'i' && n[6][0] == 'a' && n[6][1] == 'v';
    assert n[4][0] == 'i' && n[5][0] == 'e' && n[10][0] == 'w';
    assert "Price"[0] == 'P';
  }

  /** Whatever the rows set, each name assigned after them ends with the value assigned to it. */
  lemma RecordField(p: GaPage, j: nat)
    requires j < |TailNames|
    ensures TailNames[j] in GaRecord(p) && GaRecord(p)[TailNames[j]] == TailValues(p)[j]
  {
    NamedField(TailValues(p), Put(Head(p), Entries(p.rows, RowEntry)), j);
  }

  /** The `j`-th named value survives the later assignments and the deletion. */
  lemma NamedField(vs: seq<Value>, json: Record, j: nat)
    requires |vs| == |TailNames| && j < |TailNames|
    ensures TailNames[j] in Put(json, Named(vs)) - {"Price"} && (Put(json, Named(vs)) - {"Price"})[TailNames[j]] == vs[j]
  {
    var t := Named(vs);
    TailNamesDistinct();
    assert forall k :: 0 <= k < |t| ==> t[k].0 == TailNames[k];
    assert t[j] == (TailNames[j], vs[j]);
    PutLast(json, t, j);
    Deleted(Put(json, t), "Price", TailNames[j]);
  }

  /** Deleting one key keeps every other key and its value. */
  lemma Deleted(m: Record, gone: string, k: string)
    requires k in m && k != gone
    ensures k in m - {gone} && (m - {gone})[k] == m[k]
    ensures gone !in m - {gone}
  {
  }

  /** The price field always holds the normalised converted price, and "Price" never survives. */
  lemma RecordPrice(p: GaPage)
    ensures "price" in GaRecord(p) && GaRecord(p)["price"] == Str(PriceOf(p.convertedPrice))
    ensures "Price" !in GaRecord(p)
    ensures "whatsapp" in GaRecord(p) && GaRecord(p)["whatsapp"] == Null
  {
    TailFixes(p, Put(Head(p), Entries(p.rows, RowEntry)));
  }

  /**
   * Every field other than the fixed ones comes from a specification row whose
   * cleaned key and cleaned value are both non-empty; a row never survives
   * under a name assigned after the rows.
   */
  lemma RowFieldOrigin(p: GaPage, k: string)
    requires k in GaRecord(p) && k !in TailNames && k !in Head(p)
    ensures exists i :: 0 <= i < |p.rows| && RowEntry(p.rows[i]) == Some((k, GaRecord(p)[k]))
    ensures k != [] && IsClean(k) && GaRecord(p)[k].Str? && GaRecord(p)[k].s != []
  {
    var json := Put(Head(p), Entries(p.rows, RowEntry));
    NamedOther(TailValues(p), json, k);
    Deleted(Put(json, Tail(p)), "Price", k);
    RowOrigin(Head(p), p.rows, RowEntry, k);
    var i :| 0 <= i < |p.rows| && RowEntry(p.rows[i]) == Some((k, json[k]));
  }

  // ---------------------------------------------------------------- acceptance

  /** `if (scraped.price === "NO_PRICE") continue;` */
  predicate Accept(r: Record) {
    !("price" in r && r["price"] == Str(NoPrice))
  }

  lemma AcceptIsPrice(r: Record, price: string)
    requires "price" in r && r["price"] == Str(price)
    ensures Accept(r) <==> price != NoPrice
  {
  }

  /** A kept record's price is the cleaned converted price, which does not say "please call". */
  lemma AcceptedPrice(p: GaPage)
    requires Accept(GaRecord(p))
    ensures Truthy(Clean(p.convertedPrice))
    ensures "price" in GaRecord(p) && GaRecord(p)["price"] == Str(Clean(p.convertedPrice).value)
    ensures !Contains(Lower(Clean(p.convertedPrice).value), "please call")
  {
    RecordPrice(p);
    AcceptIsPrice(GaRecord(p), PriceOf(p.convertedPrice));
    RealPrice(p.convertedPrice);
  }

  // ---------------------------------------------------------------- the controller loop

  function Visitor(visit: string -> GaPage): string -> Option<Record> {
    url => Scrape(visit(url))
  }

  /**
   * `scrapeGlobalAirController` without the browser, the delay and the output
   * file: the links are given, and `visit` stands for loading one.
   */
  method ScrapeGlobalAir(links: seq<string>, visit: string -> GaPage) returns (results: seq<Record>)
    ensures results == Kept(links, Visitor(visit), Accept)
    ensures |results| <= |links|
    ensures forall r: Record :: r in results ==> Accept(r)
  {
    results := RunSite(links, Visitor(visit), Accept);
    KeptLength(links, Visitor(visit), Accept);
    KeptAccepted(links, Visitor(visit), Accept);
  }
}
