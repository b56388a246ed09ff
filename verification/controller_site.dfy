/**
 * The stand-alone controller-site script: each listing page becomes a record
 * with the first run of digits and commas of the retail price, the location,
 * one field per specification label (a bulleted value becomes a list) and the
 * images. The script has no error handling: a page that fails to load, or a
 * specification value element with empty text, ends the run before anything
 * is written.
 */
module ControllerSite {
  import opened Wrappers
  import opened Text
  import opened Json
  import opened Pipeline

  /** A `.detail__specs-label` and, when there is one at the same position, its `.detail__specs-value`. */
  datatype SpecCell = SpecCell(labelText: string, valueText: Option<string>)

  /** The labels and values inside the element after one `h3.detail__specs-heading`. */
  datatype SpecWrapper = SpecWrapper(labels: seq<string>, values: seq<string>)

  /** What the script reads from a listing page. */
  datatype CsPage = CsPage(
    ready: bool,                    // loaded, and the title appeared in time
    location: string,               // window.location.href
    titleText: Option<string>,      // h1.detail__title
    retailPrice: Option<string>,    // .listing-prices__retail-price
    machineLocation: Option<string>,// .detail__machine-location a
    sections: seq<Option<SpecWrapper>>,  // the next sibling of each heading, if any
    imageSrcs: seq<string>          // src of each .mc-items img
  )

  // ---------------------------------------------------------------- price

  predicate IsPriceChar(c: char) {
    IsDigit(c) || c == ','
  }

  /** The longest prefix of `s` made of digits and commas. */
  function RunFrom(s: string): (r: string)
    ensures |r| <= |s| && r == s[..|r|]
    ensures forall k :: 0 <= k < |r| ==> IsPriceChar(r[k])
    ensures |r| == |s| || !IsPriceChar(s[|r|])
    decreases |s|
  {
    if s != [] && IsPriceChar(s[0]) then [s[0]] + RunFrom(s[1..]) else []
  }

  /** Where `/[\d,]+/` matches: the first digit or comma. */
  function MatchAt(s: string): (i: Option<nat>)
    ensures i.Some? ==> i.value < |s| && IsPriceChar(s[i.value])
    ensures i.Some? ==> forall k :: 0 <= k < i.value ==> !IsPriceChar(s[k])
    ensures i.None? ==> forall k :: 0 <= k < |s| ==> !IsPriceChar(s[k])
    decreases |s|
  {
    if s == [] then None
    else if IsPriceChar(s[0]) then Some(0)
    else
      match MatchAt(s[1..])
      case None => None
      case Some(i) => Some(i + 1)
  }

  /** `priceRaw.match(/[\d,]+/)?.[0]`: the leftmost, longest run of digits and commas. */
  function PriceMatch(s: string): (m: Option<string>)
    ensures m.None? <==> forall k :: 0 <= k < |s| ==> !IsPriceChar(s[k])
    ensures m.Some? ==> m.value != [] && forall k :: 0 <= k < |m.value| ==> IsPriceChar(m.value[k])
  {
    match MatchAt(s)
    case None => None
    case Some(i) => Some(RunFrom(s[i..]))
  }

  /** The match starts at the first digit or comma, is a piece of the text, and cannot be extended. */
  lemma PriceMatchIsLeftmostLongest(s: string)
    requires PriceMatch(s).Some?
    ensures var i := MatchAt(s).value; var m := PriceMatch(s).value;
      i + |m| <= |s| && s[i..i + |m|] == m &&
      (forall k :: 0 <= k < i ==> !IsPriceChar(s[k])) &&
      (i + |m| == |s| || !IsPriceChar(s[i + |m|]))
  {
    var i := MatchAt(s).value;
    var m := RunFrom(s[i..]);
    assert s[i..][..|m|] == s[i..i + |m|];
    if i + |m| < |s| {
      assert s[i..][|m|] == s[i + |m|];
    }
  }

  /** A price written with digits and commas only is matched whole. */
  lemma PlainPriceMatchedWhole(s: string)
    requires s != [] && forall k :: 0 <= k < |s| ==> IsPriceChar(s[k])
    ensures PriceMatch(s) == Some(s)
  {
    assert MatchAt(s) == Some(0);
    assert s[0..] == s;
    var r := RunFrom(s);
    assert |r| == |s|;
    assert r == s[..|s|] == s;
  }

  // ---------------------------------------------------------------- specification values

  /** `value.includes("o ")` followed by the split, as written. */
  function SpecValueAsWritten(value: string): (v: Value)
    ensures !Contains(value, "o ") ==> v == Str(value)
    ensures Contains(value, "o ") ==> v.List? && forall k :: 0 <= k < |v.items| ==> v.items[k] != [] && IsClean(v.items[k])
  {
    if Contains(value, "o ") then List(CleanPieces(Split(value, "o "))) else Str(value)
  }

  /**
   * As written, a value holding "o " becomes the list of the cleaned,
   * non-empty pieces between its occurrences of "o ": the piece before the
   * first one, then the pieces of the rest.
   */
  lemma SpecValueSplit(a: string, b: string)
    requires !Contains(a, "o ")
    ensures SpecValueAsWritten(a + "o " + b) == List(CleanPieces([a]) + CleanPieces(Split(b, "o ")))
  {
    var s := a + "o " + b;
    assert s[|a|..][..2] == "o ";
    ContainsAt(s, |a|, "o ");
    FirstCharOnce("o ");
    SplitAround(a, "o ", b);
    CleanPiecesConcat([a], Split(b, "o "));
  }

  /** The value holds a bullet marker: an "o " at its start or after a space. */
  predicate IsBulleted(value: string) {
    StartsWith(value, "o ") || Contains(value, " o ")
  }

  /** The items of a bulleted value: the pieces between markers, cleaned, empty ones dropped. */
  function BulletItems(value: string): (items: seq<string>)
    ensures forall k :: 0 <= k < |items| ==> items[k] != [] && IsClean(items[k])
  {
    CleanPieces(Split(" " + value, " o "))
  }

  /** The bullet conversion as intended: only a value with a bullet marker becomes a list. */
  function SpecValue(value: string): Value {
    if IsBulleted(value) then List(BulletItems(value)) else Str(value)
  }

  /** A value in which "o " only ever ends a word is kept whole. */
  lemma WordEndingInOKeptWhole(value: string)
    requires forall j :: 0 <= j < |value| && StartsWith(value[j..], "o ") ==> j > 0 && value[j - 1] != ' '
    ensures SpecValue(value) == Str(value)
  {
    assert !StartsWith(value[0..], "o ") by {
      assert value[0..] == value;
    }
    assert value[0..] == value;
    forall j | 0 <= j && j + 3 <= |value| ensures !StartsWith(value[j..], " o ") {
      assert value[j..][0] == value[j];
      assert value[j + 1..][..2] == value[j..][1..3];
    }
  }

  /** Corrected, "Turbo Prop" has no bullet marker and stays one string. */
  lemma TurboPropKeptWhole()
    ensures SpecValue("Turbo Prop") == Str("Turbo Prop")
  {
    var v := "Turbo Prop";
    forall j | 0 <= j < |v| && StartsWith(v[j..], "o ") ensures j > 0 && v[j - 1] != ' ' {
      MarkerAt(v, j);
      if j < 4 {} else if j == 4 {} else if j < 8 {} else if j == 8 {} else {}
    }
    WordEndingInOKeptWhole(v);
  }

  lemma MarkerAt(v: string, j: nat)
    requires j < |v| && StartsWith(v[j..], "o ")
    ensures j + 1 < |v| && v[j] == 'o' && v[j + 1] == ' '
  {
    assert v[j..][..2] == "o ";
    assert v[j..][0] == v[j] && v[j..][1] == v[j + 1];
  }

  /** As written, "Turbo Prop" holds "o " and is cut into the list ["Turb", "Prop"]. */
  lemma TurboPropSplitAsWritten()
    ensures SpecValueAsWritten("Turbo Prop") == List(["Turb", "Prop"])
  {
    var turb, prop := "Turb", "Prop";
    assert "Turbo Prop" == turb + "o " + prop;
    forall i | 0 <= i < 4 ensures !IsWs(turb[i]) && turb[i] != 'o' && !IsWs(prop[i]) {
      if i == 0 {} else if i == 1 {} else if i == 2 {} else {}
    }
    WordsSplitAsWritten(turb, prop);
  }

  /** As written, two words with "o " between them, the first without an "o", give the two words. */
  lemma WordsSplitAsWritten(a: string, b: string)
    requires a != [] && b != []
    requires forall i :: 0 <= i < |a| ==> !IsWs(a[i]) && a[i] != 'o'
    requires forall i :: 0 <= i < |b| ==> !IsWs(b[i])
    ensures SpecValueAsWritten(a + "o " + b) == List([a, b])
  {
    NoMarkerInWord(a, 0);
    SpecValueSplit(a, b);
    PiecesOfTwoWords(a, b);
  }

  lemma PiecesOfTwoWords(a: string, b: string)
    requires a != [] && b != []
    requires forall i :: 0 <= i < |a| ==> !IsWs(a[i])
    requires forall i :: 0 <= i < |b| ==> !IsWs(b[i])
    ensures CleanPieces([a]) + CleanPieces(Split(b, "o ")) == [a, b]
  {
    NoMarkerInWord(b, 1);
    OneWord(a);
    OneWord(b);
    PairOf(CleanPieces([a]), CleanPieces(Split(b, "o ")), a, b);
  }

  lemma PairOf<T>(x: seq<T>, y: seq<T>, a: T, b: T)
    requires x == [a] && y == [b]
    ensures x + y == [a, b]
  {
  }

  /** A word missing one character of "o " does not contain it, and is a single piece. */
  lemma NoMarkerInWord(w: string, k: nat)
    requires k < 2 && "o "[k] !in w
    ensures !Contains(w, "o ") && Split(w, "o ") == [w]
  {
    PatternCharAbsent(w, "o ", k);
  }

  /** A word without whitespace is clean, and is kept as it is. */
  lemma OneWord(w: string)
    requires w != [] && forall i :: 0 <= i < |w| ==> !IsWs(w[i])
    ensures CleanPieces([w]) == [w]
  {
    assert IsClean(w);
    CleanPieceKept(w);
  }

  /** Corrected, a value in bullet form becomes its items: "o GPS o Radio" gives ["GPS", "Radio"]. */
  lemma BulletListItems()
    ensures SpecValue("o GPS o Radio") == List(["GPS", "Radio"])
  {
    var gps, radio := "GPS", "Radio";
    assert "o GPS o Radio" == "o " + gps + " o " + radio;
    forall i | 0 <= i < 5 ensures (i < 3 ==> !IsWs(gps[i])) && !IsWs(radio[i]) {
      if i == 0 {} else if i == 1 {} else if i == 2 {} else if i == 3 {} else {}
    }
    var words := [gps, radio];
    assert words == [gps] + [radio];
    JoinCons(gps, [radio], " o ");
    assert "o GPS o Radio" == "o " + Join(words, " o ");
    BulletedList(words);
  }

  /** Corrected, a value written as "o " before each word, words separated by " o ", becomes exactly those words. */
  lemma BulletedList(words: seq<string>)
    requires words != []
    requires forall k :: 0 <= k < |words| ==> words[k] != [] && NoWs(words[k])
    ensures SpecValue("o " + Join(words, " o ")) == List(words)
  {
    MarkedAtStart(Join(words, " o "));
    BulletItemsOfList(words);
  }

  lemma BulletItemsOfList(words: seq<string>)
    requires words != []
    requires forall k :: 0 <= k < |words| ==> words[k] != [] && NoWs(words[k])
    ensures BulletItems("o " + Join(words, " o ")) == words
  {
    var j := Join(words, " o ");
    MarkedAtStart(j);
    LeadingSeparator(" o ", j);
    SplitBulletJoin(words);
    DropBlankHead(words);
    WordsKept(words);
  }

  /** A value starting with "o " is bulleted, and a space before it starts it with " o ". */
  lemma MarkedAtStart(j: string)
    ensures IsBulleted("o " + j)
    ensures " " + ("o " + j) == " o " + j
  {
    assert ("o " + j)[..2] == "o ";
  }

  predicate NoWs(w: string) {
    forall i :: 0 <= i < |w| ==> !IsWs(w[i])
  }

  /** A text that starts with the separator splits into an empty piece, then the pieces of the rest. */
  lemma LeadingSeparator(sep: string, t: string)
    requires sep != []
    ensures Split(sep + t, sep) == [[]] + Split(t, sep)
  {
    var s := sep + t;
    assert s[0..][..|sep|] == sep;
    IndexOfFirst(s, sep, 0);
    SplitCons(s, sep);
    assert s[|sep|..] == t;
  }

  /** Words without whitespace, joined with " o ", split back into those words. */
  lemma {:induction false} SplitBulletJoin(words: seq<string>)
    requires words != []
    requires forall k :: 0 <= k < |words| ==> NoWs(words[k])
    ensures Split(Join(words, " o "), " o ") == words
    decreases |words|
  {
    var w := words[0];
    assert NoWs(w);
    if |words| == 1 {
      assert Join(words, " o ") == w;
      PatternCharAbsent(w, " o ", 0);
    } else {
      var rest := words[1..];
      HeadTail(words);
      JoinCons(w, rest, " o ");
      NoSpaceNoSeparator(w, " o ", Join(rest, " o "));
      SplitBulletJoin(rest);
    }
  }

  /** Non-empty words without whitespace are all kept by the clean-and-filter step. */
  lemma {:induction false} WordsKept(words: seq<string>)
    requires forall k :: 0 <= k < |words| ==> words[k] != [] && NoWs(words[k])
    ensures CleanPieces(words) == words
    decreases |words|
  {
    if words != [] {
      var w := words[0];
      HeadTail(words);
      CleanPiecesCons(w, words[1..]);
      OneWord(w);
      WordsKept(words[1..]);
    }
  }

  lemma DropBlankHead(x: seq<string>)
    ensures CleanPieces([[]] + x) == CleanPieces(x)
  {
    CleanPiecesCons([], x);
    assert CleanText([]) == [];
  }

  /** A word without whitespace, then " o ", splits there first. */
  lemma NoSpaceNoSeparator(a: string, sep: string, b: string)
    requires sep == " o " && forall i :: 0 <= i < |a| ==> !IsWs(a[i])
    ensures Split(a + sep + b, sep) == [a] + Split(b, sep)
  {
    var t := a + sep + b;
    assert t[|a|..][..3] == sep;
    forall j | 0 <= j < |a| ensures !StartsWith(t[j..], sep) {
      assert t[j..][..|sep|][0] == a[j];
    }
    assert FirstAt(t, sep, |a|);
    IndexOfFirst(t, sep, |a|);
    assert t[..|a|] == a && t[|a| + 3..] == b;
  }

  // ---------------------------------------------------------------- specification entries

  /** The cells of one wrapper: each label with the value at its index, if any. */
  function Cells(w: SpecWrapper): (cells: seq<SpecCell>)
    ensures |cells| == |w.labels|
    ensures forall i :: 0 <= i < |cells| ==> cells[i].labelText == w.labels[i]
    ensures forall i :: 0 <= i < |cells| ==> cells[i].valueText == if i < |w.values| then Some(w.values[i]) else None
  {
    seq(|w.labels|, i requires 0 <= i < |w.labels| =>
      SpecCell(w.labels[i], if i < |w.values| then Some(w.values[i]) else None))
  }

  /** The cells of every heading that has a wrapper, heading by heading. */
  function AllCells(sections: seq<Option<SpecWrapper>>): seq<SpecCell>
    decreases |sections|
  {
    if sections == [] then []
    else (match sections[0] case None => [] case Some(w) => Cells(w)) + AllCells(sections[1..])
  }

  /** The cell is not skipped: its cleaned label is non-empty and it has a value element. */
  predicate Used(c: SpecCell) {
    Truthy(Clean(Some(c.labelText))) && c.valueText.Some?
  }

  /** `clean(valueEl.innerText)` is null for an empty text, and `value.includes` then throws. */
  predicate Throws(c: SpecCell) {
    Used(c) && c.valueText.value == []
  }

  /** One cell's `json[label] = value`; `None` for a skipped cell (a throwing cell never gets here). */
  function SpecEntry(c: SpecCell): (e: Option<(string, Value)>)
    ensures e.Some? <==> Used(c) && !Throws(c)
    ensures e.Some? ==> e.value.0 == Clean(Some(c.labelText)).value && e.value.0 != [] && IsClean(e.value.0)
    ensures e.Some? ==> e.value.1 == SpecValueAsWritten(Clean(c.valueText).value)
  {
    if Used(c) && !Throws(c) then
      Some((Clean(Some(c.labelText)).value, SpecValueAsWritten(Clean(c.valueText).value)))
    else None
  }

  // ---------------------------------------------------------------- the record

  /** The fields set before the specifications; `price` only when there is price text. */
  function Head(p: CsPage): (head: Record)
    ensures "images" !in head
    ensures "price" in head <==> Truthy(Clean(p.retailPrice))
  {
    var raw := Clean(p.retailPrice);
    var m := map[
      "url" := Str(p.location),
      "title" := OfText(Clean(p.titleText)),
      "location" := OfText(Clean(p.machineLocation))];
    if Truthy(raw) then m["price" := OfText(PriceMatch(raw.value))] else m
  }

  function CsRecord(p: CsPage): Record {
    Assemble(Head(p), AllCells(p.sections), List(DropEmpty(p.imageSrcs)))
  }

  /** The head, then one assignment per used cell, then `images`. */
  function Assemble(head: Record, cells: seq<SpecCell>, images: Value): Record {
    Put(head, Entries(cells, SpecEntry))["images" := images]
  }

  /** A key other than `images` that no cell assigns is in the record exactly as in the head. */
  lemma AssembleKeeps(head: Record, cells: seq<SpecCell>, images: Value, key: string)
    requires key != "images"
    requires forall k :: 0 <= k < |cells| ==> SpecEntry(cells[k]).None? || SpecEntry(cells[k]).value.0 != key
    ensures key in Assemble(head, cells, images) <==> key in head
    ensures key in head ==> Assemble(head, cells, images)[key] == head[key]
  {
    NoRowAssigns(head, cells, SpecEntry, key);
  }

  /** `scrapeListing`: `None` when it throws, which nothing catches. */
  function Scrape(p: CsPage): Option<Record> {
    if !p.ready || exists k :: 0 <= k < |AllCells(p.sections)| && Throws(AllCells(p.sections)[k]) then None
    else Some(CsRecord(p))
  }

  /** The images field is the non-empty srcs, whatever the specifications say. */
  lemma RecordImages(p: CsPage)
    ensures "images" in CsRecord(p) && CsRecord(p)["images"] == List(DropEmpty(p.imageSrcs))
    ensures forall k :: 0 <= k < |CsRecord(p)["images"].items| ==> CsRecord(p)["images"].items[k] != []
  {
  }

  /** Without price text and without a specification labelled "price", the record has no price. */
  lemma NoPriceText(p: CsPage)
    requires !Truthy(Clean(p.retailPrice))
    requires forall k :: 0 <= k < |AllCells(p.sections)| ==>
      SpecEntry(AllCells(p.sections)[k]).None? || SpecEntry(AllCells(p.sections)[k]).value.0 != "price"
    ensures "price" !in CsRecord(p)
  {
    assert "price" !in Head(p);
    AssembleKeeps(Head(p), AllCells(p.sections), List(DropEmpty(p.imageSrcs)), "price");
  }

  /** Without a specification labelled "price", the price is the match in the cleaned price text. */
  lemma RecordPrice(p: CsPage)
    requires Truthy(Clean(p.retailPrice))
    requires forall k :: 0 <= k < |AllCells(p.sections)| ==>
      SpecEntry(AllCells(p.sections)[k]).None? || SpecEntry(AllCells(p.sections)[k]).value.0 != "price"
    ensures "price" in CsRecord(p) && CsRecord(p)["price"] == OfText(PriceMatch(Clean(p.retailPrice).value))
  {
    assert "price" in Head(p) && Head(p)["price"] == OfText(PriceMatch(Clean(p.retailPrice).value));
    AssembleKeeps(Head(p), AllCells(p.sections), List(DropEmpty(p.imageSrcs)), "price");
  }

  /** Every field other than the fixed ones comes from a used specification cell. */
  lemma SpecFieldOrigin(p: CsPage, k: string)
    requires k in CsRecord(p) && k !in Head(p) && k != "images"
    ensures exists i :: (0 <= i < |AllCells(p.sections)| && Used(AllCells(p.sections)[i]) &&
      SpecEntry(AllCells(p.sections)[i]) == Some((k, CsRecord(p)[k])))
  {
    RowOrigin(Head(p), AllCells(p.sections), SpecEntry, k);
  }

  // ---------------------------------------------------------------- the run

  /** `if (res?.price) results.push(res)`. */
  predicate HasPrice(r: Record) {
    FieldTruthy(r, "price")
  }

  function Visitor(visit: string -> CsPage): string -> Option<Record> {
    url => Scrape(visit(url))
  }

  /** Some page of the run throws. */
  predicate Crashes(links: seq<string>, scrape: string -> Option<Record>) {
    exists i :: 0 <= i < |links| && scrape(links[i]).None?
  }

  /**
   * `run()` without the browser, the delay and the file: `None` when a page
   * throws, which ends the script before the file is written; otherwise the
   * records with a truthy price, in link order.
   */
  method Run(links: seq<string>, scrape: string -> Option<Record>) returns (written: Option<seq<Record>>)
    ensures written.None? <==> Crashes(links, scrape)
    ensures written.Some? ==> written.value == Kept(links, scrape, HasPrice)
    ensures written.Some? ==> |written.value| <= |links| && forall r: Record :: r in written.value ==> HasPrice(r)
  {
    var results: seq<Record> := [];
    for i := 0 to |links|
      invariant results == Kept(links[..i], scrape, HasPrice)
      invariant forall j :: 0 <= j < i ==> scrape(links[j]).Some?
    {
      var res := scrape(links[i]);
      if res.None? {
        assert 0 <= i < |links| && scrape(links[i]).None?;
        return None;
      }
      RunStep(links, i, scrape);
      if HasPrice(res.value) {
        results := results + [res.value];
      }
    }
    assert links[..|links|] == links;
    RunCompletes(links, scrape);
    written := Some(results);
  }

  /** A page that does not throw adds its record when it has a price. */
  lemma RunStep(links: seq<string>, i: nat, scrape: string -> Option<Record>)
    requires i < |links| && scrape(links[i]).Some?
    ensures Kept(links[..i + 1], scrape, HasPrice) ==
      Kept(links[..i], scrape, HasPrice) + if HasPrice(scrape(links[i]).value) then [scrape(links[i]).value] else []
  {
    KeptSnoc(links, i, scrape, HasPrice);
  }

  /** A run in which no page throws writes at most one record per link, each with a price. */
  lemma RunCompletes(links: seq<string>, scrape: string -> Option<Record>)
    requires forall j :: 0 <= j < |links| ==> scrape(links[j]).Some?
    ensures !Crashes(links, scrape)
    ensures |Kept(links, scrape, HasPrice)| <= |links|
    ensures forall r: Record :: r in Kept(links, scrape, HasPrice) ==> HasPrice(r)
  {
    KeptLength(links, scrape, HasPrice);
    KeptAccepted(links, scrape, HasPrice);
  }

  /** The script over its link list, each link loaded by `visit`. */
  method ScrapeControllerSite(links: seq<string>, visit: string -> CsPage) returns (written: Option<seq<Record>>)
    ensures written.None? <==> exists i :: 0 <= i < |links| && Scrape(visit(links[i])).None?
    ensures written.Some? ==> written.value == Kept(links, Visitor(visit), HasPrice)
  {
    written := Run(links, Visitor(visit));
  }
}
