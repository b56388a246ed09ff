/**
 * The helitrader crawler. The controller and the standalone script run the
 * same code: read two sitemaps, combine their URLs without repeats, and let
 * the workers scrape every listing page. A page is dropped when its title
 * says "not found" or its price is empty or asks the buyer to make contact.
 *
 * A listing page is given as what the scraper reads from its DOM.
 */
module Helitrader {
  import opened Wrappers
  import opened Text
  import opened Json
  import opened Links
  import opened Pipeline
  import opened Crawl

  /** One `.general-spec-card`: the text of its label and value cells, when present. */
  datatype SpecCard = SpecCard(name: Option<string>, text: Option<string>)

  /** What the scraper reads from a listing page. */
  datatype HeliPage = HeliPage(
    location: string,            // window.location.href
    h1: Option<string>,          // None: the page did not load or has no h1
    priceText: Option<string>,   // #price-m
    description: Option<string>, // div.row p
    cards: seq<SpecCard>,
    lists: map<string, string>,  // innerText of each element present, by id
    images: seq<string>          // src of each .carousel-item img
  )

  // ---------------------------------------------------------------- page rules

  /** The title test: the lower-cased, trimmed `h1` mentions "not found". */
  predicate IsRemovedTitle(h1: string) {
    Contains(Lower(Trim(h1)), "not found")
  }

  /**
   * One spec card's contribution to `getSpecs`: the label trimmed and
   * lower-cased, the value trimmed, kept when both are non-empty and the value
   * does not just repeat the label.
   */
  function SpecEntry(card: SpecCard): (e: Option<(string, Value)>)
    ensures e.Some? ==> card.name.Some? && card.text.Some?
    ensures e.Some? ==> e.value.0 == Lower(Trim(card.name.value)) && e.value.1 == Str(Trim(card.text.value))
    ensures e.Some? ==> e.value.0 != [] && Trim(card.text.value) != [] && Lower(Trim(card.text.value)) != e.value.0
    ensures (card.name.Some? && card.text.Some? && Lower(Trim(card.name.value)) != [] &&
             Trim(card.text.value) != [] && Lower(Trim(card.text.value)) != Lower(Trim(card.name.value))) ==> e.Some?
  {
    match (card.name, card.text)
    case (Some(l), Some(v)) =>
      var key := Lower(Trim(l));
      var text := Trim(v);
      if key != [] && text != [] && Lower(text) != key then Some((key, Str(text))) else None
    case _ => None
  }

  /** The object `getSpecs` returns. */
  function Specs(cards: seq<SpecCard>): Record {
    Put(map[], Entries(cards, SpecEntry))
  }

  /** `getSpecs`: `out[label] = value` for each card that passes, in card order. */
  method GetSpecs(cards: seq<SpecCard>) returns (out: Record)
    ensures out == Specs(cards)
  {
    out := ForEachAssign(map[], cards, SpecEntry);
  }

  /** Every stored spec has a non-empty label and a non-empty value that differs from it, case aside. */
  lemma SpecsStored(cards: seq<SpecCard>, key: string)
    requires key in Specs(cards)
    ensures key != []
    ensures Specs(cards)[key].Str? && Specs(cards)[key].s != [] && IsTrimmed(Specs(cards)[key].s)
    ensures Lower(Specs(cards)[key].s) != key
  {
    var pairs := Entries(cards, SpecEntry);
    PutOrigin(map[], pairs, key);
    var i :| 0 <= i < |cards| && SpecEntry(cards[i]) == Some((key, Specs(cards)[key]));
  }

  /** `t.replace(/^- /, "")`. */
  function StripDash(t: string): string {
    if StartsWith(t, "- ") then t[2..] else t
  }

  /** The items of a list element's text: lines without a leading `- `, trimmed, blank ones dropped. */
  function ListItems(text: string): (items: seq<string>)
    ensures |items| <= |Split(text, "\n")|
    ensures forall k :: 0 <= k < |items| ==> items[k] != [] && IsTrimmed(items[k])
  {
    var cleaned := ListLines(Split(text, "\n"));
    DropEmptyTrimmed(cleaned);
    DropEmpty(cleaned)
  }

  /** One line of a list: without a leading `- `, trimmed. */
  function ListLine(line: string): string {
    Trim(StripDash(line))
  }

  /** `lines.map(...)`: each line without its leading `- `, trimmed. */
  function ListLines(lines: seq<string>): (r: seq<string>)
    ensures |r| == |lines|
    ensures forall k :: 0 <= k < |r| ==> r[k] == ListLine(lines[k]) && IsTrimmed(r[k])
  {
    seq(|lines|, i requires 0 <= i < |lines| => ListLine(lines[i]))
  }

  /** A list holding one line gives that line without its `- `, trimmed, or nothing when that is blank. */
  lemma ListItemsLine(line: string)
    requires '\n' !in line
    ensures ListItems(line) == if ListLine(line) == [] then [] else [ListLine(line)]
  {
    CharAbsent(line, '\n');
    var lines := Split(line, "\n");
    assert lines == [line];
    var cleaned := ListLines(lines);
    assert |cleaned| == 1 && cleaned[0] == ListLine(line);
  }

  /** The items of two blocks of lines joined by a newline are those of the first block, then of the second. */
  lemma ListItemsConcat(a: string, b: string)
    ensures ListItems(a + "\n" + b) == ListItems(a) + ListItems(b)
  {
    FirstCharOnce("\n");
    SplitConcat(a, "\n", b);
    var la, lb := Split(a, "\n"), Split(b, "\n");
    ListLinesConcat(la, lb);
    DropEmptyConcat(ListLines(la), ListLines(lb));
  }

  lemma ListLinesConcat(a: seq<string>, b: seq<string>)
    ensures ListLines(a + b) == ListLines(a) + ListLines(b)
  {
    assert forall k :: 0 <= k < |a| ==> (a + b)[k] == a[k];
    assert forall k :: |a| <= k < |a| + |b| ==> (a + b)[k] == b[k - |a|];
  }

  /** Empty list text has no items. */
  lemma EmptyListText()
    ensures ListItems([]) == []
  {
    assert IndexOf([], "\n") == None;
    var lines := Split([], "\n");
    assert lines == [[]];
    assert ListLine([]) == [];
  }

  /** The lines of a bulleted list: `- ` before each item. */
  function Bulleted(items: seq<string>): (lines: seq<string>)
    ensures |lines| == |items|
  {
    seq(|items|, i requires 0 <= i < |items| => "- " + items[i])
  }

  /** A bulleted list, one `- item` per line, reads back as its items. */
  lemma {:induction false} ListItemsOfBullets(items: seq<string>)
    requires forall k :: 0 <= k < |items| ==> items[k] != [] && IsTrimmed(items[k]) && '\n' !in items[k]
    ensures ListItems(Join(Bulleted(items), "\n")) == items
    decreases |items|
  {
    var bullets := Bulleted(items);
    if items == [] {
      assert Join(bullets, "\n") == [];
      EmptyListText();
    } else {
      var b := BulletedHead(items);
      TrimKeepsTrimmed(items[0]);
      ListItemsLine(b);
      if |items| > 1 {
        var rest := Join(bullets[1..], "\n");
        assert Join(bullets, "\n") == b + "\n" + rest;
        ListItemsOfBullets(items[1..]);
        BulletsCons(b, rest, items);
      }
    }
  }

  lemma BulletsCons(b: string, rest: string, items: seq<string>)
    requires items != [] && ListItems(b) == [items[0]] && ListItems(rest) == items[1..]
    ensures ListItems(b + "\n" + rest) == items
  {
    ListItemsConcat(b, rest);
    HeadTail(items);
  }

  /** The first bulleted line, whose `- ` the list reader strips; the other lines bullet the other items. */
  lemma BulletedHead(items: seq<string>) returns (b: string)
    requires items != [] && '\n' !in items[0]
    ensures b == Bulleted(items)[0] && '\n' !in b && StripDash(b) == items[0]
    ensures Bulleted(items)[1..] == Bulleted(items[1..])
  {
    b := Bulleted(items)[0];
    assert b == "- " + items[0];
    assert StartsWith(b, "- ");
  }

  /** `getList(id)`: no element, no items. */
  function GetList(page: HeliPage, id: string): (items: seq<string>)
    ensures id !in page.lists ==> items == []
    ensures id in page.lists ==> items == ListItems(page.lists[id])
  {
    if id in page.lists then ListItems(page.lists[id]) else []
  }

  /** The list fields of a record, each read from the element with id `dt-` + its name. */
  const ListNames: seq<string> := ["avionics", "equipment", "interior", "exterior", "engine_1",
    "inspection_details", "damage_history", "remarks", "disclaimer"]

  /** The fields set before the specs: url, title, price and description. */
  function Head(page: HeliPage): Record {
    map["url" := Str(page.location),
        "title" := OfText(TrimOrNull(page.h1)),
        "price" := OfText(TrimOrNull(page.priceText)),
        "description" := OfText(TrimOrNull(page.description))]
  }

  /** The fields set after the specs: the nine lists, then the images. */
  function Tail(page: HeliPage): seq<(string, Value)> {
    seq(|ListNames|, i requires 0 <= i < |ListNames| => (ListNames[i], List(GetList(page, "dt-" + ListNames[i]))))
      + [("images", List(page.images))]
  }

  /**
   * The object literal built in the page: the head fields, then `...getSpecs()`,
   * then the lists and images. A later property of the literal overrides an
   * earlier one with the same name, so a spec card labelled "price" replaces
   * the price read from `#price-m`.
   */
  function PageRecord(page: HeliPage): Record {
    Put(Put(Head(page), Entries(page.cards, SpecEntry)), Tail(page))
  }

  /** The price test: a non-empty string price that does not mention "contact", case aside. */
  predicate PriceOk(r: Record) {
    FieldTruthy(r, "price") && r["price"].Str? && !Contains(Lower(r["price"].s), "contact")
  }

  /** `scrapePage`: null on a page that failed, on a removed listing and on a contact-only price. */
  function ScrapePage(page: HeliPage): (r: Option<Record>)
    ensures r.Some? ==> page.h1.Some? && !IsRemovedTitle(page.h1.value) && PriceOk(r.value)
    ensures r.Some? ==> r.value == PageRecord(page)
    ensures page.h1.Some? && !IsRemovedTitle(page.h1.value) && PriceOk(PageRecord(page)) ==> r.Some?
  {
    match page.h1
    case None => None
    case Some(t) =>
      if IsRemovedTitle(t) then None
      else
        var data := PageRecord(page);
        if !PriceOk(data) then None else Some(data)
  }

  /** The names `Tail` sets, in order. */
  const TailNames: seq<string> := ListNames + ["images"]

  lemma TailNamesDistinct()
    ensures forall i, j :: 0 <= i < j < |TailNames| ==> TailNames[i] != TailNames[j]
  {
    var n := TailNames;
    assert |n| == 10;
    assert |n[0]| == 8 && |n[1]| == 9 && |n[2]| == 8 && |n[3]| == 8 && |n[4]| == 8;
    assert |n[5]| == 18 && |n[6]| == 14 && |n[7]| == 7 && |n[8]| == 10 && |n[9]| == 6;
    assert n[0][0] == 'a' && n[2][0] == 'i' && n[3][0] == 'e' && n[4][0] == 'e';
    assert n[3][1] == 'x' && n[4][1] == 'n';
  }

  lemma TailShape(page: HeliPage)
    ensures |Tail(page)| == |TailNames|
    ensures forall j :: 0 <= j < |TailNames| ==> Tail(page)[j].0 == TailNames[j]
  {
  }

  /** The field set by the `i`-th tail assignment keeps its value: no later assignment names it. */
  lemma TailField(page: HeliPage, i: nat)
    requires i < |TailNames|
    ensures TailNames[i] in PageRecord(page) && PageRecord(page)[TailNames[i]] == Tail(page)[i].1
  {
    TailShape(page);
    TailNamesDistinct();
    PutLast(Put(Head(page), Entries(page.cards, SpecEntry)), Tail(page), i);
  }

  /** A kept record carries every list field and the images, whatever the spec cards say. */
  lemma RecordLists(page: HeliPage)
    ensures forall i :: 0 <= i < |ListNames| ==>
      ListNames[i] in PageRecord(page) && PageRecord(page)[ListNames[i]] == List(GetList(page, "dt-" + ListNames[i]))
    ensures "images" in PageRecord(page) && PageRecord(page)["images"] == List(page.images)
  {
    forall i | 0 <= i < |ListNames|
      ensures ListNames[i] in PageRecord(page) && PageRecord(page)[ListNames[i]] == List(GetList(page, "dt-" + ListNames[i]))
    {
      TailField(page, i);
    }
    TailField(page, 9);
  }

  /** A spec card cannot override a field unless its label is that field's name. */
  lemma RecordUrl(page: HeliPage)
    requires forall i :: 0 <= i < |page.cards| ==> SpecEntry(page.cards[i]).None? || SpecEntry(page.cards[i]).value.0 != "url"
    ensures "url" in PageRecord(page) && PageRecord(page)["url"] == Str(page.location)
  {
    NoRowAssigns(Head(page), page.cards, SpecEntry, "url");
    TailKeepsUrl(page, Put(Head(page), Entries(page.cards, SpecEntry)));
  }

  /** The assignments after the specs leave "url" as the specs left it. */
  lemma TailKeepsUrl(page: HeliPage, json: Record)
    requires "url" in json
    ensures "url" in Put(json, Tail(page)) && Put(json, Tail(page))["url"] == json["url"]
  {
    UrlNotInTail(page);
    PutOther(json, Tail(page), "url");
  }

  /** No assignment after the specs names "url": every tail name is longer than three characters. */
  lemma UrlNotInTail(page: HeliPage)
    ensures forall j :: 0 <= j < |Tail(page)| ==> Tail(page)[j].0 != "url"
  {
    TailShape(page);
    var n := TailNames;
    assert |n[0]| == 8 && |n[1]| == 9 && |n[2]| == 8 && |n[3]| == 8 && |n[4]| == 8;
    assert |n[5]| == 18 && |n[6]| == 14 && |n[7]| == 7 && |n[8]| == 10 && |n[9]| == 6;
  }

  // ---------------------------------------------------------------- the crawl

  /** `[...new Set([...urls1, ...urls2])]` over the two sitemaps' `<loc>` entries. */
  function AllUrls(xml1: string, xml2: string): (urls: seq<string>)
    ensures Distinct(urls)
    ensures forall u :: u in urls <==> u in Locs(xml1) || u in Locs(xml2)
    ensures |urls| <= |Locs(xml1)| + |Locs(xml2)|
  {
    CombinedList(Locs(xml1), Locs(xml2));
    Dedup(Locs(xml1) + Locs(xml2))
  }

  /** What a worker does with a claimed URL: open it (`visit`) and scrape the page. */
  function Visitor(visit: string -> HeliPage): string -> Option<Record> {
    url => ScrapePage(visit(url))
  }

  /**
   * `scrapeHelitraderController` / `scrapeAllListings` without the network,
   * the browser and the output file: the two sitemap texts are given, `visit`
   * stands for loading a URL, and the records are returned.
   */
  method ScrapeAllListings(xml1: string, xml2: string, visit: string -> HeliPage) returns (results: seq<Record>)
    ensures results == Kept(AllUrls(xml1, xml2), Visitor(visit), KeepAll)
    ensures |results| <= |AllUrls(xml1, xml2)|
  {
    var allUrls := Dedup(Locs(xml1) + Locs(xml2));
    var queue := new WorkQueue(allUrls);
    var scrape := Visitor(visit);
    for i := 0 to MaxConcurrent
      invariant queue.Valid() && queue.allUrls == allUrls && queue.inFlight == {}
      invariant i == 0 ==> queue.index == 0 && queue.results == []
      invariant i > 0 ==> queue.index == |allUrls| && queue.results == Kept(allUrls, scrape, KeepAll)
    {
      if i == 0 {
        assert allUrls[0..] == allUrls;
      } else {
        assert allUrls[|allUrls|..] == [];
      }
      queue.Work(scrape);
    }
    results := queue.results;
    KeptLength(allUrls, scrape, KeepAll);
  }

  /** Record `r` is what `visit(u)` yields: a loaded page whose title does not say "not found". */
  predicate ScrapedFrom(r: Record, u: string, visit: string -> HeliPage) {
    visit(u).h1.Some? && !IsRemovedTitle(visit(u).h1.value) && r == PageRecord(visit(u))
  }

  /** Every record the crawl keeps comes from a listed URL whose page passed both skip rules. */
  lemma CrawlKeepsListedPages(xml1: string, xml2: string, visit: string -> HeliPage)
    ensures forall r :: r in Kept(AllUrls(xml1, xml2), Visitor(visit), KeepAll) ==>
      PriceOk(r) && exists u :: (u in Locs(xml1) || u in Locs(xml2)) && ScrapedFrom(r, u, visit)
  {
    var urls := AllUrls(xml1, xml2);
    KeptAccepted(urls, Visitor(visit), KeepAll);
    forall r | r in Kept(urls, Visitor(visit), KeepAll)
      ensures PriceOk(r) && exists u :: (u in Locs(xml1) || u in Locs(xml2)) && ScrapedFrom(r, u, visit)
    {
      var i :| 0 <= i < |urls| && Visitor(visit)(urls[i]) == Some(r);
      assert ScrapePage(visit(urls[i])) == Some(r);
      assert urls[i] in urls && ScrapedFrom(r, urls[i], visit);
    }
  }
}
