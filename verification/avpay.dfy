/**
 * The avpay.aero controller: each listing page becomes a record of cleaned
 * texts, one field per specification row, a `price` taken from the
 * "Price:" row, and the equipment sections cut out of the description's
 * HTML. A record is kept only when its price is a number.
 */
module AvPay {
  import opened Wrappers
  import opened Text
  import opened Json
  import opened Pipeline

  /** One `.wcpt-item-row`: the texts of its `.wcpt-text`, its link and its `.wcpt-custom-field`. */
  datatype AvRow = AvRow(key: Option<string>, link: Option<string>, field: Option<string>)

  /** `#tab-description`: its `innerText` and its `innerHTML`. */
  datatype DescBlock = DescBlock(text: string, html: string)

  /** What the scraper reads from a listing page. */
  datatype AvPage = AvPage(
    ready: bool,                      // loaded, and one of the title selectors appeared
    location: string,                 // window.location.href
    productTitle: Option<string>,     // h1.product_title
    entryTitle: Option<string>,       // h1.entry-title
    h1: Option<string>,               // h1
    shortDescription: Option<string>,
    mainImage: Option<string>,        // src of .fl-photo-content img
    galleryLinks: seq<string>,        // href of each .uabb-photo-gallery-item a
    storeName: Option<string>,
    customField: Option<string>,
    tel: Option<string>,              // href of a[href^='tel:']
    whatsapp: Option<string>,         // href of a[href*='wa.me']
    rows: seq<AvRow>,
    description: Option<DescBlock>
  )

  // ---------------------------------------------------------------- fields

  /** The fields set before the rows. `main_image` is undefined, hence absent, when there is no photo. */
  function Head(p: AvPage): (head: Record)
    ensures PriceRow !in head && "price" !in head
  {
    var m := map[
      "url" := Str(p.location),
      "title" := OfText(OrElse(OrElse(Clean(p.productTitle), Clean(p.entryTitle)), Clean(p.h1))),
      "short_description" := OfText(Clean(p.shortDescription)),
      "gallery_images" := List(p.galleryLinks),
      "seller" := OfText(Clean(p.storeName)),
      "contact_name" := OfText(Clean(p.customField)),
      "phone" := OfText(OrNull(p.tel)),
      "whatsapp" := OfText(OrNull(p.whatsapp))];
    if p.mainImage.Some? then m["main_image" := Str(p.mainImage.value)] else m
  }

  /** One row's `json[key] = value`: the cleaned key and value, when both are non-empty. */
  function RowEntry(row: AvRow): (e: Option<(string, Value)>)
    ensures e.Some? <==> Truthy(Clean(row.key)) && Truthy(Clean(OrElse(row.link, row.field)))
    ensures e.Some? ==> e.value.0 != [] && IsClean(e.value.0) && e.value.1.Str? && e.value.1.s != [] && IsClean(e.value.1.s)
    ensures e.Some? ==> e.value == (Clean(row.key).value, Str(Clean(OrElse(row.link, row.field)).value))
  {
    var key := Clean(row.key);
    var value := Clean(OrElse(row.link, row.field));
    if Truthy(key) && Truthy(value) then Some((key.value, Str(value.value))) else None
  }

  const PriceRow: string := "Price:"
  const NoPrice: string := "NO_PRICE"

  /** `json.price = json["Price:"] || "NO_PRICE"; delete json["Price:"];` */
  function WithPrice(json: Record): (r: Record)
    ensures PriceRow !in r && "price" in r
    ensures FieldTruthy(json, PriceRow) ==> r["price"] == json[PriceRow]
    ensures !FieldTruthy(json, PriceRow) ==> r["price"] == Str(NoPrice)
    ensures forall k :: k != PriceRow && k != "price" ==> (k in r <==> k in json) && (k in json ==> r[k] == json[k])
  {
    var price := if FieldTruthy(json, PriceRow) then json[PriceRow] else Str(NoPrice);
    json["price" := price] - {PriceRow}
  }

  // ---------------------------------------------------------------- description sections

  /** Where the tag opened by a `<` at the head of `s` ends: the first `>` after at least one other character. */
  function TagEnd(s: string): Option<nat>
    requires s != [] && s[0] == '<'
  {
    match IndexOf(s[1..], ">")
    case Some(j) => if j >= 1 then Some(1 + j) else None
    case None => None
  }

  /** `t.replace(/<[^>]+>/g, "")`: every `<`, at least one character other than `>`, then `>`, removed. */
  function StripTags(s: string): (r: string)
    ensures forall c :: c in r ==> c in s
    ensures s != [] && s[0] != '<' ==> r != [] && r[0] == s[0]
    decreases |s|
  {
    if s == [] then []
    else if s[0] == '<' && TagEnd(s).Some? then StripTags(s[TagEnd(s).value + 1..])
    else [s[0]] + StripTags(s[1..])
  }

  /** No tag is left: a `<` is followed by no `>` at all, or by a `>` at once. */
  predicate NoTag(r: string) {
    forall i :: 0 <= i < |r| && r[i] == '<' ==> '>' !in r[i + 1..] || (i + 1 < |r| && r[i + 1] == '>')
  }

  /** What stripping leaves contains no tag. */
  lemma {:induction false} StripTagsNoTag(s: string)
    ensures NoTag(StripTags(s))
    decreases |s|
  {
    if s != [] {
      if s[0] == '<' && TagEnd(s).Some? {
        StripTagsNoTag(s[TagEnd(s).value + 1..]);
      } else {
        var rest := StripTags(s[1..]);
        StripTagsNoTag(s[1..]);
        var r := StripTags(s);
        assert r == [s[0]] + rest;
        forall i | 0 <= i < |r| && r[i] == '<' ensures '>' !in r[i + 1..] || (i + 1 < |r| && r[i + 1] == '>') {
          if i > 0 {
            assert r[i] == rest[i - 1] && r[i + 1..] == rest[i..];
          } else if IndexOf(s[1..], ">").None? {
            var t := s[1..];
            forall j | 0 <= j < |t| ensures t[j] != '>' {
              assert t[j..][..1] == [t[j]];
            }
            assert r[1..] == rest;
          } else {
            assert s[1..][..1] == ">";
            assert s[1] == '>';
          }
        }
      }
    }
  }

  lemma {:induction false} StripTagsPlain(s: string)
    requires '<' !in s
    ensures StripTags(s) == s
    decreases |s|
  {
    if s != [] {
      StripTagsPlain(s[1..]);
    }
  }

  /** A tag after text free of `<` is removed, and the text before it is kept. */
  lemma StripTagsTag(p: string, t: string, q: string)
    requires '<' !in p && t != [] && '>' !in t
    ensures StripTags(p + "<" + t + ">" + q) == p + StripTags(q)
  {
    var u := "<" + t + ">" + q;
    assert p + "<" + t + ">" + q == p + u;
    StripTagsAfterPlain(p, u);
    StripTagAtStart(t, q);
  }

  lemma StripTagAtStart(t: string, q: string)
    requires t != [] && '>' !in t
    ensures StripTags("<" + t + ">" + q) == StripTags(q)
  {
    var s := "<" + t + ">" + q;
    assert s[1..] == t + ">" + q;
    IndexOfAfter(t, ">", q);
    assert TagEnd(s) == Some(1 + |t|);
    assert s[1 + |t| + 1..] == q;
  }

  /** Text free of `<` passes through untouched, whatever follows it. */
  lemma {:induction false} StripTagsAfterPlain(p: string, u: string)
    requires '<' !in p
    ensures StripTags(p + u) == p + StripTags(u)
    decreases |p|
  {
    if p == [] {
      assert p + u == u;
    } else {
      var s := p + u;
      TailOfConcat(p, u);
      StripTagsKeepsHead(s);
      StripTagsAfterPlain(p[1..], u);
      AppendAssoc([p[0]], p[1..], StripTags(u));
      HeadTail(p);
    }
  }

  /** A `<` that no `>` follows opens no tag, so it is kept. */
  lemma StripTagsUnclosed(p: string, q: string)
    requires '<' !in p && '>' !in q
    ensures StripTags(p + "<" + q) == p + "<" + StripTags(q)
  {
    var u := "<" + q;
    assert p + "<" + q == p + u;
    StripTagsAfterPlain(p, u);
    UnclosedAtStart(q);
  }

  lemma UnclosedAtStart(q: string)
    requires '>' !in q
    ensures StripTags("<" + q) == "<" + StripTags(q)
  {
    var u := "<" + q;
    IndexOfAfter(q, ">", []);
    assert u[1..] == q;
    assert TagEnd(u).None?;
  }

  /** `<>` holds no character between its brackets, so it is no tag and is kept. */
  lemma StripTagsEmptyBrackets(p: string, q: string)
    requires '<' !in p
    ensures StripTags(p + "<>" + q) == p + "<>" + StripTags(q)
  {
    var u := "<>" + q;
    assert p + "<>" + q == p + u;
    StripTagsAfterPlain(p, u);
    EmptyBracketsAtStart(q);
  }

  lemma EmptyBracketsAtStart(q: string)
    ensures StripTags("<>" + q) == "<>" + StripTags(q)
  {
    var u := "<>" + q;
    assert u[1..][..1] == ">";
    assert TagEnd(u).None?;
    StripTagsKeepsHead(u[1..]);
    assert u[1..][1..] == q;
  }

  lemma TailOfConcat(p: string, u: string)
    requires p != []
    ensures (p + u)[0] == p[0] && (p + u)[1..] == p[1..] + u
  {
  }

  lemma StripTagsKeepsHead(s: string)
    requires s != [] && s[0] != '<'
    ensures StripTags(s) == [s[0]] + StripTags(s[1..])
  {
  }

  /** `parts.map(t => t.replace(/<[^>]+>/g, ""))`. */
  function StripAll(parts: seq<string>): (r: seq<string>)
    ensures |r| == |parts| && forall k :: 0 <= k < |r| ==> r[k] == StripTags(parts[k])
  {
    seq(|parts|, i requires 0 <= i < |parts| => StripTags(parts[i]))
  }

  lemma StripAllConcat(a: seq<string>, b: seq<string>)
    ensures StripAll(a + b) == StripAll(a) + StripAll(b)
  {
    assert forall k :: 0 <= k < |a| ==> (a + b)[k] == a[k];
    assert forall k :: |a| <= k < |a| + |b| ==> (a + b)[k] == b[k - |a|];
  }

  /** The items of a section body: split on `<br>`, tags removed, cleaned, empty ones dropped. */
  function SectionItems(body: string): (items: seq<string>)
    ensures forall k :: 0 <= k < |items| ==> items[k] != [] && IsClean(items[k])
  {
    CleanPieces(StripAll(Split(body, "<br>")))
  }

  /** A body with no `<br>` is one line: its text without tags, cleaned, or nothing when that is blank. */
  lemma SectionItemsLine(line: string)
    requires !Contains(line, "<br>")
    ensures SectionItems(line) == if CleanText(StripTags(line)) == [] then [] else [CleanText(StripTags(line))]
  {
    assert Split(line, "<br>") == [line];
    var stripped := StripAll([line]);
    assert |stripped| == 1 && stripped[0] == StripTags(line);
  }

  /** The lines of two pieces joined by `<br>` are those of the first piece, then of the second. */
  lemma SectionItemsConcat(a: string, b: string)
    ensures SectionItems(a + "<br>" + b) == SectionItems(a) + SectionItems(b)
  {
    FirstCharOnce("<br>");
    SplitConcat(a, "<br>", b);
    var pa, pb := Split(a, "<br>"), Split(b, "<br>");
    StripAllConcat(pa, pb);
    CleanPiecesConcat(StripAll(pa), StripAll(pb));
  }

  /**
   * `html.match(new RegExp(header + "([\\s\\S]*?)(?:<strong>|$)", "i"))[1]`:
   * the text after the first occurrence of `header`, ignoring case, up to the
   * next `<strong>` or the end.
   */
  function Capture(html: string, header: string): (body: Option<string>)
    ensures body.Some? ==> Contains(Lower(html), Lower(header))
    ensures body.Some? ==> !Contains(Lower(body.value), "<strong>")
  {
    match IndexOf(Lower(html), Lower(header))
    case None => None
    case Some(i) => Some(UpToStrong(html[i + |header|..]))
  }

  /** The lazy `([\s\S]*?)(?:<strong>|$)`: the text up to the first `<strong>`, ignoring case, or all of it. */
  function UpToStrong(rest: string): (r: string)
    ensures |r| <= |rest| && r == rest[..|r|]
    ensures !Contains(Lower(r), "<strong>")
    ensures r == rest || StartsWith(Lower(rest[|r|..]), "<strong>")
  {
    match IndexOf(Lower(rest), "<strong>")
    case None => rest
    case Some(j) =>
      assert Lower(rest[..j]) == Lower(rest)[..j];
      assert Lower(rest[j..]) == Lower(rest)[j..];
      NoOccurrenceBefore(Lower(rest), j, "<strong>");
      rest[..j]
  }

  /** The opening of a section: `<strong>`, the title, `</strong><br>`. */
  function Header(title: string): string {
    "<strong>" + title + "</strong><br>"
  }

  /**
   * The capture runs from the first occurrence of the header to the next
   * `<strong>`, or to the end when there is none.
   */
  lemma CaptureFirst(html: string, h: string, i: nat, body: string, post: string)
    requires IndexOf(Lower(html), Lower(h)) == Some(i)
    requires i + |h| <= |html| && html[i + |h|..] == body + post
    requires !Contains(Lower(body), "<strong>")
    requires post == [] || StartsWith(Lower(post), "<strong>")
    ensures Capture(html, h) == Some(body)
  {
    CaptureAt(html, h, i);
    UpToStrongSeam(body, post);
  }

  lemma CaptureAt(html: string, h: string, i: nat)
    requires IndexOf(Lower(html), Lower(h)) == Some(i)
    ensures Capture(html, h) == Some(UpToStrong(html[i + |h|..]))
  {
  }

  /** The capture stops at the seam between a body free of `<strong>` and what opens with one. */
  lemma UpToStrongSeam(body: string, post: string)
    requires !Contains(Lower(body), "<strong>")
    requires post == [] || StartsWith(Lower(post), "<strong>")
    ensures UpToStrong(body + post) == body
  {
    StrongEnds(body, post);
    if post != [] {
      assert (body + post)[..|body|] == body;
    } else {
      assert body + post == body;
    }
  }

  /** In a body free of `<strong>` followed by text that is empty or opens with one, the first `<strong>` is at the seam. */
  lemma StrongEnds(body: string, post: string)
    requires !Contains(Lower(body), "<strong>")
    requires post == [] || StartsWith(Lower(post), "<strong>")
    ensures post == [] ==> IndexOf(Lower(body + post), "<strong>") == None
    ensures post != [] ==> IndexOf(Lower(body + post), "<strong>") == Some(|body|)
  {
    if post == [] {
      assert body + post == body;
    } else {
      var lp := Lower(post);
      var strong: string := "<strong>";
      var after := lp[|strong|..];
      assert Lower(body + post) == Lower(body) + strong + after by {
        LowerConcat(body, post);
        assert lp == strong + after;
      }
      StrongBorderless();
      FirstAfter(Lower(body), strong, after);
    }
  }

  lemma StrongBorderless()
    ensures Borderless("<strong>")
  {
    FirstCharOnce("<strong>");
  }

  /** `extractSection(title)` as written: the title is looked for as it is in the HTML. */
  function ExtractSectionAsWritten(block: Option<DescBlock>, title: string): (items: seq<string>)
    ensures block.None? ==> items == []
    ensures forall k :: 0 <= k < |items| ==> items[k] != [] && IsClean(items[k])
  {
    if block.None? then []
    else
      match Capture(block.value.html, Header(title))
      case None => []
      case Some(body) => SectionItems(body)
  }

  /**
   * As written, a section is found where the HTML holds the header with the
   * title exactly as given (case aside): its lines are those of the text up to
   * the next `<strong>`, or to the end.
   */
  lemma SectionFoundAsWritten(text: string, html: string, title: string, i: nat, body: string, post: string)
    requires IndexOf(Lower(html), Lower(Header(title))) == Some(i)
    requires i + |Header(title)| <= |html| && html[i + |Header(title)|..] == body + post
    requires !Contains(Lower(body), "<strong>")
    requires post == [] || StartsWith(Lower(post), "<strong>")
    ensures ExtractSectionAsWritten(Some(DescBlock(text, html)), title) == SectionItems(body)
  {
    CaptureFirst(html, Header(title), i, body, post);
  }

  /**
   * How `innerHTML` writes the characters of a text node: `&`, `<`, `>` and the
   * no-break space become `&amp;`, `&lt;`, `&gt;` and `&nbsp;`.
   */
  function EscapeText(s: string): (r: string)
    ensures EntitiesOnly(r)
    ensures r == [] || r[|r| - 1] != '&'
    decreases |s|
  {
    if s == [] then []
    else
      var c := s[0];
      var head := if c == '&' then "&amp;" else if c == '<' then "&lt;" else if c == '>' then "&gt;"
        else if c == '\U{00A0}' then "&nbsp;" else [c];
      var rest := EscapeText(s[1..]);
      EntitiesOnlyConcat(head, rest);
      head + rest
  }

  predicate IsLetter(c: char) {
    'a' <= c <= 'z' || 'A' <= c <= 'Z'
  }

  /** Every `&` starts an entity name: it is followed by a letter. This holds of the text nodes `innerHTML` serialises. */
  predicate EntitiesOnly(h: string) {
    forall i :: 0 <= i < |h| && h[i] == '&' ==> i + 1 < |h| && IsLetter(h[i + 1])
  }

  lemma EntitiesOnlyConcat(a: string, b: string)
    requires EntitiesOnly(a) && EntitiesOnly(b)
    requires a == [] || a[|a| - 1] != '&'
    ensures EntitiesOnly(a + b)
  {
    var h := a + b;
    forall i | 0 <= i < |h| && h[i] == '&' ensures i + 1 < |h| && IsLetter(h[i + 1]) {
      if i < |a| {
        assert h[i] == a[i];
        assert i + 1 < |a|;
        assert h[i + 1] == a[i + 1];
      } else {
        assert h[i] == b[i - |a|];
        assert h[i + 1] == b[i - |a| + 1];
      }
    }
  }

  /** `extractSection(title)`, corrected: the section whose header carries the title as `innerHTML` writes it. */
  function ExtractSection(block: Option<DescBlock>, title: string): (items: seq<string>)
    ensures block.None? ==> items == []
    ensures forall k :: 0 <= k < |items| ==> items[k] != [] && IsClean(items[k])
  {
    ExtractSectionAsWritten(block, EscapeText(title))
  }

  /** Text with none of the characters `innerHTML` escapes is written as it is. */
  lemma {:induction false} EscapePlain(s: string)
    requires forall i :: 0 <= i < |s| ==> s[i] != '&' && s[i] != '<' && s[i] != '>' && s[i] != '\U{00A0}'
    ensures EscapeText(s) == s
    decreases |s|
  {
    if s != [] {
      EscapePlain(s[1..]);
      HeadTail(s);
    }
  }

  /** For a title without `&`, `<`, `>` or a no-break space, the code as written and the corrected one agree. */
  lemma PlainTitleAgrees(block: Option<DescBlock>, title: string)
    requires forall i :: 0 <= i < |title| ==> title[i] != '&' && title[i] != '<' && title[i] != '>' && title[i] != '\U{00A0}'
    ensures ExtractSectionAsWritten(block, title) == ExtractSection(block, title)
  {
    EscapePlain(title);
  }

  lemma LowerConcat(a: string, b: string)
    ensures Lower(a + b) == Lower(a) + Lower(b)
  {
  }

  /**
   * A title with an `&` followed by something other than a letter (as in
   * "Rotors & Controls") never matches HTML in which every `&` starts an entity,
   * which is all HTML that `innerHTML` produces: that section always comes out
   * empty.
   */
  lemma AmpersandTitleNeverMatches(html: string, title: string, k: nat)
    requires EntitiesOnly(html)
    requires k + 1 < |title| && title[k] == '&' && !IsLetter(title[k + 1])
    ensures Capture(html, Header(title)).None?
  {
    var h := Header(title);
    var lh := Lower(html);
    var a := 8 + k;
    assert h[a] == '&' && h[a + 1] == title[k + 1];
    forall i | 0 <= i && i + |h| <= |lh| ensures !StartsWith(lh[i..], Lower(h)) {
      if html[i + a] == '&' {
        assert IsLetter(html[i + a + 1]);
        assert lh[i..][a + 1] != Lower(h)[a + 1];
      } else {
        assert lh[i..][a] != Lower(h)[a];
      }
    }
  }

  /**
   * As written, the section of a title holding `" & "` is lost: a description
   * that opens with that section, written out the way `innerHTML` writes it,
   * yields no items.
   */
  lemma AmpersandSectionLost(text: string, title: string, k: nat, body: string)
    requires k + 1 < |title| && title[k] == '&' && title[k + 1] == ' '
    requires EntitiesOnly(body)
    ensures ExtractSectionAsWritten(Some(DescBlock(text, Header(EscapeText(title)) + body)), title) == []
  {
    var h := Header(EscapeText(title));
    HeaderEntities(EscapeText(title));
    EntitiesOnlyConcat(h, body);
    AmpersandTitleNeverMatches(h + body, title, k);
  }

  /** Corrected, the same description yields the section's items, for any title. */
  lemma EscapedSectionFound(text: string, title: string, body: string)
    requires !Contains(Lower(body), "<strong>")
    ensures ExtractSection(Some(DescBlock(text, Header(EscapeText(title)) + body)), title) == SectionItems(body)
  {
    CaptureAtStart(Header(EscapeText(title)), body);
  }

  /** A header written by `innerHTML` keeps every `&` at the start of an entity. */
  lemma HeaderEntities(escaped: string)
    requires EntitiesOnly(escaped) && (escaped == [] || escaped[|escaped| - 1] != '&')
    ensures EntitiesOnly(Header(escaped)) && Header(escaped)[|Header(escaped)| - 1] != '&'
  {
    var open: string := "<strong>";
    var close: string := "</strong><br>";
    assert EntitiesOnly(open) && EntitiesOnly(close) by {
      assert '&' !in open && '&' !in close;
    }
    EntitiesOnlyConcat(open, escaped);
    assert (open + escaped) != [] && (open + escaped)[|open + escaped| - 1] != '&';
    EntitiesOnlyConcat(open + escaped, close);
    assert Header(escaped) == open + escaped + close;
  }

  /** A description that opens with the header captures everything after it, up to the next `<strong>`. */
  lemma CaptureAtStart(h: string, body: string)
    requires !Contains(Lower(body), "<strong>")
    ensures Capture(h + body, h) == Some(body)
  {
    var html := h + body;
    LowerConcat(h, body);
    assert Lower(html)[..|h|] == Lower(h);
    assert IndexOf(Lower(html), Lower(h)) == Some(0);
    assert html[|h|..] == body;
  }

  const SectionTitles: seq<string> := ["Airframe", "Rotors & Controls", "Powerplant & Fuel System",
    "Transmission Drive & Hydraulic System", "Electrical System", "Avionics", "Interior", "Exterior"]
  const SectionFields: seq<string> := ["airframe", "rotors_controls", "powerplant_fuel_system",
    "transmission_hydraulic", "electrical_system", "avionics", "interior", "exterior"]

  /** The fields set after the price: the trimmed description text, then the eight sections. */
  function Tail(p: AvPage): seq<(string, Value)> {
    [("long_description", OfText(TrimOrNull(if p.description.Some? then Some(p.description.value.text) else None)))]
      + seq(|SectionFields|, i requires 0 <= i < |SectionFields| =>
          (SectionFields[i], List(ExtractSectionAsWritten(p.description, SectionTitles[i]))))
  }

  /** The object built in the page, in assignment order. */
  function AvRecord(p: AvPage): Record {
    PricedThen(Put(Head(p), Entries(p.rows, RowEntry)), Tail(p))
  }

  lemma SectionFieldsDistinct(a: nat, b: nat)
    requires a < b < |SectionFields|
    ensures SectionFields[a] != SectionFields[b]
  {
    var x, y := SectionFields[a], SectionFields[b];
    if |x| == |y| {
      assert x[0] != y[0] || x[1] != y[1];
    }
  }

  /** Each section field of the record holds the lines of the section with that title. */
  lemma SectionField(p: AvPage, i: nat)
    requires i < |SectionFields|
    ensures SectionFields[i] in AvRecord(p)
    ensures AvRecord(p)[SectionFields[i]] == List(ExtractSectionAsWritten(p.description, SectionTitles[i]))
  {
    var t := Tail(p);
    assert t[i + 1].0 == SectionFields[i];
    forall j | i + 1 < j < |t| ensures t[j].0 != t[i + 1].0 {
      assert t[j].0 == SectionFields[j - 1];
      SectionFieldsDistinct(i, j - 1);
    }
    PutLast(WithPrice(Put(Head(p), Entries(p.rows, RowEntry))), t, i + 1);
  }

  /**
   * As written, the three sections whose titles hold `" & "` are always empty
   * in the record, whatever the description says, since `innerHTML` writes
   * every `&` as the start of an entity.
   */
  lemma AmpersandFieldsEmpty(p: AvPage)
    requires p.description.Some? && EntitiesOnly(p.description.value.html)
    ensures "rotors_controls" in AvRecord(p) && AvRecord(p)["rotors_controls"] == List([])
    ensures "powerplant_fuel_system" in AvRecord(p) && AvRecord(p)["powerplant_fuel_system"] == List([])
    ensures "transmission_hydraulic" in AvRecord(p) && AvRecord(p)["transmission_hydraulic"] == List([])
  {
    AmpersandTitles();
    AmpersandFieldEmpty(p, 1, 7);
    AmpersandFieldEmpty(p, 2, 11);
    AmpersandFieldEmpty(p, 3, 19);
  }

  /** Where the `" & "` of the three titles lies, and the fields they fill. */
  lemma AmpersandTitles()
    ensures SectionTitles[1][7] == '&' && SectionTitles[1][8] == ' ' && SectionFields[1] == "rotors_controls"
    ensures SectionTitles[2][11] == '&' && SectionTitles[2][12] == ' ' && SectionFields[2] == "powerplant_fuel_system"
    ensures SectionTitles[3][19] == '&' && SectionTitles[3][20] == ' ' && SectionFields[3] == "transmission_hydraulic"
  {
  }

  lemma AmpersandFieldEmpty(p: AvPage, i: nat, k: nat)
    requires i < |SectionFields| && k + 1 < |SectionTitles[i]|
    requires SectionTitles[i][k] == '&' && !IsLetter(SectionTitles[i][k + 1])
    requires p.description.Some? && EntitiesOnly(p.description.value.html)
    ensures SectionFields[i] in AvRecord(p) && AvRecord(p)[SectionFields[i]] == List([])
  {
    AmpersandTitleNeverMatches(p.description.value.html, SectionTitles[i], k);
    SectionField(p, i);
  }

  /** `scrapeListing`: null when the page does not load or shows no title. */
  function Scrape(p: AvPage): Option<Record> {
    if p.ready then Some(AvRecord(p)) else None
  }

  // ---------------------------------------------------------------- price rule

  /** The lower-cased prices that are skipped by name. */
  predicate IsSentinel(lower: string) {
    lower == "no_price" || lower == "enquire" || lower == "make offer" || lower == "contact seller"
  }

  /** `/^\d[\d,\.]*$/`: a digit, then only digits, commas and periods. */
  predicate IsNumericPrice(s: string) {
    |s| >= 1 && IsDigit(s[0]) && forall i :: 1 <= i < |s| ==> IsDigit(s[i]) || s[i] == ',' || s[i] == '.'
  }

  /** The controller's test on a scraped record: not a sentinel, and numeric. */
  predicate Accept(r: Record) {
    "price" in r && r["price"].Str? && !IsSentinel(Lower(r["price"].s)) && IsNumericPrice(r["price"].s)
  }

  /** No sentinel passes the numeric pattern: they all start with a letter. */
  lemma SentinelsFailPattern(s: string)
    requires IsSentinel(Lower(s))
    ensures !IsNumericPrice(s)
  {
    assert Lower(s)[0] == LowerChar(s[0]);
  }

  /** So the sentinel test never decides anything: a record is kept exactly when its price is numeric. */
  lemma AcceptIsPattern(r: Record)
    ensures Accept(r) <==> "price" in r && r["price"].Str? && IsNumericPrice(r["price"].s)
  {
    if "price" in r && r["price"].Str? && IsSentinel(Lower(r["price"].s)) {
      SentinelsFailPattern(r["price"].s);
    }
  }

  // ---------------------------------------------------------------- price normalisation

  lemma FieldLengths(i: nat)
    requires i < |SectionFields|
    ensures |SectionFields[i]| >= 8
  {
  }

  lemma TailKeys(p: AvPage)
    ensures forall j :: 0 <= j < |Tail(p)| ==> Tail(p)[j].0 != "price" && Tail(p)[j].0 != PriceRow
  {
    var t := Tail(p);
    forall j | 0 <= j < |t| ensures t[j].0 != "price" && t[j].0 != PriceRow {
      if j > 0 {
        assert t[j].0 == SectionFields[j - 1];
        FieldLengths(j - 1);
      }
    }
  }

  /** A row stores the "Price:" field. */
  predicate StoresPrice(row: AvRow) {
    RowEntry(row).Some? && RowEntry(row).value.0 == PriceRow
  }

  /** The price step, then fields that leave `price` and "Price:" alone. */
  function PricedThen(json: Record, tail: seq<(string, Value)>): Record {
    Put(WithPrice(json), tail)
  }

  lemma PricedThenKeeps(json: Record, tail: seq<(string, Value)>)
    requires forall j :: 0 <= j < |tail| ==> tail[j].0 != "price" && tail[j].0 != PriceRow
    ensures PriceRow !in PricedThen(json, tail)
    ensures "price" in PricedThen(json, tail)
    ensures FieldTruthy(json, PriceRow) ==> PricedThen(json, tail)["price"] == json[PriceRow]
    ensures !FieldTruthy(json, PriceRow) ==> PricedThen(json, tail)["price"] == Str(NoPrice)
  {
    PutOther(WithPrice(json), tail, "price");
    PutOther(WithPrice(json), tail, PriceRow);
  }

  /**
   * `price` is never empty, and the "Price:" field is gone. With no "Price:" row
   * stored, `price` is "NO_PRICE".
   */
  lemma PriceNormalised(p: AvPage)
    ensures PriceRow !in AvRecord(p)
    ensures "price" in AvRecord(p) && AvRecord(p)["price"].Str? && AvRecord(p)["price"].s != []
    ensures (forall i :: 0 <= i < |p.rows| ==> !StoresPrice(p.rows[i])) ==> AvRecord(p)["price"] == Str(NoPrice)
  {
    TailKeys(p);
    RowsThenPriced(Head(p), p.rows, Tail(p));
  }

  /** `PriceNormalised` for any head without "Price:" and any tail that leaves both price keys alone. */
  lemma RowsThenPriced(head: Record, rows: seq<AvRow>, tail: seq<(string, Value)>)
    requires PriceRow !in head
    requires forall j :: 0 <= j < |tail| ==> tail[j].0 != "price" && tail[j].0 != PriceRow
    ensures PriceRow !in PricedThen(Put(head, Entries(rows, RowEntry)), tail)
    ensures "price" in PricedThen(Put(head, Entries(rows, RowEntry)), tail)
    ensures PricedThen(Put(head, Entries(rows, RowEntry)), tail)["price"].Str?
    ensures PricedThen(Put(head, Entries(rows, RowEntry)), tail)["price"].s != []
    ensures (forall i :: 0 <= i < |rows| ==> !StoresPrice(rows[i])) ==>
      PricedThen(Put(head, Entries(rows, RowEntry)), tail)["price"] == Str(NoPrice)
  {
    var json := Put(head, Entries(rows, RowEntry));
    PricedThenKeeps(json, tail);
    if PriceRow in json {
      RowOrigin(head, rows, RowEntry, PriceRow);
    }
    if forall i :: 0 <= i < |rows| ==> !StoresPrice(rows[i]) {
      NoRowAssigns(head, rows, RowEntry, PriceRow);
    }
  }

  /** `price` is the value of the last "Price:" row stored. */
  lemma PriceFromLastRow(p: AvPage, i: nat)
    requires i < |p.rows| && StoresPrice(p.rows[i])
    requires forall j :: i < j < |p.rows| ==> !StoresPrice(p.rows[j])
    ensures "price" in AvRecord(p) && AvRecord(p)["price"] == RowEntry(p.rows[i]).value.1
  {
    TailKeys(p);
    var json := Put(Head(p), Entries(p.rows, RowEntry));
    PricedThenKeeps(json, Tail(p));
    LastRowWins(Head(p), p.rows, RowEntry, i);
  }

  // ---------------------------------------------------------------- the controller loop

  /** Opening a link and scraping it. */
  function Visitor(visit: string -> AvPage): string -> Option<Record> {
    url => Scrape(visit(url))
  }

  /**
   * `scrapeAvPayAeroController` without the browser, the delay and the output
   * file: the links are given, and `visit` stands for loading one.
   */
  method ScrapeAvPayAero(links: seq<string>, visit: string -> AvPage) returns (results: seq<Record>)
    ensures results == Kept(links, Visitor(visit), Accept)
    ensures |results| <= |links|
    ensures forall r: Record :: r in results ==> "price" in r && r["price"].Str? && IsNumericPrice(r["price"].s)
  {
    results := RunSite(links, Visitor(visit), Accept);
    KeptLength(links, Visitor(visit), Accept);
    KeptAccepted(links, Visitor(visit), Accept);
  }
}
