# Aircraft listing scrapers, modelled in Dafny

The system is a set of Node.js scrapers that collect aircraft-for-sale listings from five web sites. The sites are helitrader, avpay aero, trade-a-plane, globalair and a "controller" site. The scrapers write the listings to JSON files, and a small merger combines those files. This project models the logic that surrounds the browser calls:

- **Merger.** It scans the `.json` files of a folder, skips files whose content is not an array, and keeps the first record for each truthy `url`.
- **Link sources.**
  - Link files: split into lines, trimmed, blank lines dropped.
  - Sitemap `<loc>` captures, taken lazily and within one line.
  - Order-preserving deduplication through a `Set`.
  - The 20–30 second politeness delay.
- **Helitrader crawl.** A shared `index` cursor and a `results` array, which the concurrent workers advance and fill.
- **Per-site page records.** Each site turns its DOM reads into a record. This covers the sites' `clean` helper, key/value row filters, section and list splitters, and price normalisation.
- **Per-site acceptance rules.** Each site has a loop that pushes the accepted records in link order.

A DOM read is modelled as a string input, or `None` when the element is missing. A scraped record is a map from field name to a JSON value: string, null, list of strings or nested object. A key that is absent from the map stands for an `undefined` property.

- **State-changing code becomes methods.** These are the merge loop, the `forEach` loops that assign `json[key] = value`, the site loops and the crawl cursor. The cursor is a class with `Claim`, `Report` and `Work`.
- **Each method is proved against a function.**
- **The expression-level code becomes functions with lemmas.**

Where the code does something its authors evidently did not intend (see "## Findings"), the records follow the code as written. `AvPay.Tail` extracts the description sections with `AvPay.ExtractSectionAsWritten`, and `ControllerSite.SpecEntry` converts values with `ControllerSite.SpecValueAsWritten`. The corrected definitions, `AvPay.ExtractSection` and `ControllerSite.SpecValue`, sit beside them with the intended behaviour proved about them.

Modules:

| module | models |
|---|---|
| `Text` | `trim`, `toLowerCase`, `includes`, `indexOf`, `split`/`join` with a string separator, `replace` with a string pattern, and the `clean` helper every controller defines |
| `Json` | the record type and the `json[key] = value` loops (`Put`, `Entries`, `ForEachAssign`) |
| `Pipeline` | the per-site loop: scrape, skip a null, apply the site's rule, push |
| `Links` | `loadLinks`, the delay, `getSitemapLinks` and the `Set` deduplication |
| `Merge` | `merge.js` |
| `Crawl` | the shared worker cursor of the helitrader crawlers |
| `Helitrader` | `controllers/helitrader.controller.js` and `scrape-helitraders.js`, whose modelled code is the same |
| `AvPay`, `TradeAPlane`, `GlobalAir`, `ControllerSite` | the other four site scrapers |

## Model

| member | source | states |
|---|---|---|
| Text.Trim | helpers/scrape.js:17 | `trim` keeps the infix between the leading and the trailing whitespace, and the result has no whitespace at either end |
| Text.IndexOf | controllers/avpayaero.controller.js:113 | `indexOf` is the first position where the pattern occurs, and there is no earlier occurrence |
| Text.Contains | controllers/tradeAPlane.controller.js:149 | `includes` holds exactly when the pattern occurs at some position of the text |
| Text.Split | helpers/scrape.js:16 | `split` on a non-empty separator gives at least one piece, no piece contains the separator, and a text without the separator is one piece, itself |
| Text.SplitAround | controllers/avpayaero.controller.js:116-117 | when the prefix `a` does not contain a separator that cannot overlap itself, `a + sep + b` splits into `a`, then the pieces of `b` |
| Text.SplitConcat | helpers/scrape.js:16 | for a separator that cannot overlap itself, the pieces of `a + sep + b` are the pieces of `a` followed by the pieces of `b` |
| Text.SplitThenJoin | helpers/scrape.js:16 | joining the pieces of a split with the same separator gives the text back |
| Text.JoinThenSplit | helpers/scrape.js:16 | splitting lines joined with a one-character separator that no line contains gives the lines back |
| Text.SplitAvoids | controllers/globalair.controller.js:142-144 | a character that does not occur in a text occurs in none of the pieces of its split |
| Text.ReplaceFirst | controllers/tradeAPlane.controller.js:94 | `replace` with a string pattern changes nothing when the pattern is absent; otherwise it puts the replacement in place of the first occurrence, with no occurrence before it, and keeps the text on both sides |
| Text.Digits | controllers/tradeAPlane.controller.js:62 | `replace(/[^0-9]/g, "")` keeps only digits, is no longer than the text, keeps an all-digit text unchanged, and on one character keeps it exactly when it is a digit |
| Text.DigitsConcat | controllers/tradeAPlane.controller.js:62 | the global replace works character by character: the digits of `a + b` are the digits of `a` followed by those of `b` |
| Text.Collapse | controllers/avpayaero.controller.js:56 | `replace(/\s+/g, " ")` leaves single plain spaces and no adjacent whitespace |
| Text.Lower | controllers/tradeAPlane.controller.js:138 | `toLowerCase` keeps the length, turns each upper-case ASCII letter into its lower-case letter (code point plus 32), and leaves every other character unchanged, so no upper-case letter remains |
| Text.LowerIdempotent | controllers/helitrader.controller.js:95 | lower-casing twice is the same as lower-casing once |
| Text.CollapseRun | controllers/avpayaero.controller.js:56 | a run of whitespace between collapsed text and a non-blank rest becomes exactly one plain space, and the rest is collapsed in turn |
| Text.CleanText | controllers/avpayaero.controller.js:56 | `clean`'s output is clean (single interior spaces, nothing at the ends) and keeps every non-whitespace character in order |
| Text.CleanTextIdempotent | controllers/avpayaero.controller.js:56 | `clean` leaves clean text unchanged, so cleaning twice is cleaning once |
| Text.CleanWords | controllers/avpayaero.controller.js:56 | cleaning two clean words with any whitespace run between them gives the two words with one space between |
| Text.Clean | controllers/globalair.controller.js:49 | `clean(t)` is null exactly when `t` is missing or empty; otherwise it is clean text with the same non-whitespace characters |
| Text.OrElse | controllers/avpayaero.controller.js:61-64 | `a \|\| b` is `a` when `a` is truthy and `b` otherwise, so it is truthy exactly when one of them is |
| Text.OrNull | controllers/tradeAPlane.controller.js:82-84 | `x \|\| null` is null or the non-empty `x` itself, and keeps a truthy `x` |
| Text.TrimOrNull | controllers/tradeAPlane.controller.js:98-101 | `t?.trim() \|\| null` is null or a non-empty trimmed text, and is the trimmed text whenever that is non-empty |
| Text.DropEmpty | scrape-controller.js:100-102 | `filter(Boolean)` keeps exactly the non-empty strings of the input (same non-empty members, none empty), and one piece is kept exactly when it is non-empty |
| Text.DropEmptyConcat | scrape-controller.js:100-102 | the filter distributes over concatenation, so with the one-piece case it keeps exactly the non-empty strings, in order |
| Text.CleanPieces | controllers/globalair.controller.js:117-120 | `map(clean).filter(Boolean)` yields only non-empty clean strings, no more than the pieces, and one piece gives its cleaned text when that is non-empty and nothing otherwise |
| Text.CleanPiecesIdempotent | controllers/globalair.controller.js:117-120 | applying the clean-and-filter step twice equals applying it once |
| Text.CleanPiecesConcat | controllers/globalair.controller.js:117-120 | the clean-and-filter step distributes over concatenation, so with the one-piece case the result is each piece's non-empty cleaned text, in order |
| Text.CleanLinesLine | controllers/globalair.controller.js:117-120 | a text without a line break gives its cleaned text as its one line, or no line when that is empty |
| Text.CleanLinesConcat | controllers/globalair.controller.js:117-120 | the cleaned lines of two texts joined by a line break are the lines of the first followed by the lines of the second |
| Text.JoinAppend | controllers/globalair.controller.js:142-143 | joining two non-empty lists puts exactly one separator between the two joins |
| Text.Join | controllers/globalair.controller.js:76 | definition, no contract: `join(sep)` puts `sep` between consecutive parts; its content is stated by `Text.JoinAppend`, `Text.SplitThenJoin` and `Text.JoinThenSplit` |
| Json.Entries | controllers/avpayaero.controller.js:89-97 | every assignment a `forEach` performs comes from one of its rows, at most one per row |
| Json.PutLast | controllers/helitrader.controller.js:74-92 | a field holds the value of the last assignment that names it |
| Json.PutOther | controllers/helitrader.controller.js:74-92 | a field that no assignment names keeps its value, or stays absent |
| Json.PutOrigin | controllers/helitrader.controller.js:74-92 | every field is an old one or was set by one of the assignments |
| Json.LastRowWins | controllers/avpayaero.controller.js:89-97 | after the `forEach`, a field holds the value of the last row that assigned it |
| Json.PutKeeps | controllers/avpayaero.controller.js:89-97 | an assignment to another field, or none, leaves a field's value as it was |
| Json.NoRowAssigns | controllers/avpayaero.controller.js:89-97 | a field that no row assigns keeps its earlier value |
| Json.RowOrigin | controllers/avpayaero.controller.js:89-97 | every field after the `forEach` was there before, or was assigned by some row with exactly that value |
| Json.ForEachAssign | controllers/avpayaero.controller.js:89-97 | the in-place `json[key] = value` loop produces the record `Put` specifies |
| Pipeline.RunSite | controllers/avpayaero.controller.js:150-177 | the `for ... continue ... push` loop returns the records of `Kept`, in link order |
| Pipeline.KeptAccepted | controllers/tradeAPlane.controller.js:151-156 | every pushed record passes the site's rule and was scraped from one of the links |
| Pipeline.KeptLength | controllers/globalair.controller.js:198-213 | there are no more results than links |
| Pipeline.KeptConcat | controllers/globalair.controller.js:198-213 | the results for two runs of links back to back are the two results back to back |
| Pipeline.KeptCount | controllers/globalair.controller.js:198-213 | exactly one record is kept per link whose page yields a record that passes the rule |
| Pipeline.PassingIndices | controllers/tradeAPlane.controller.js:129-156 | the positions of the passing links, strictly increasing, and all of them |
| Pipeline.KeptInOrder | controllers/tradeAPlane.controller.js:129-156 | the results are the records of the passing links in link order: an order-preserving subsequence |
| Links.TrimAll | helpers/scrape.js:17 | `map(trim)` keeps the number of lines, and each result is the trim of the line at the same position |
| Links.LoadLinks | helpers/scrape.js:13-18 | every link is non-empty and trimmed, and there are no more links than `"\n"`-separated lines |
| Links.LoadLinksLine | helpers/scrape.js:13-18 | a text of one line loads as that line trimmed, or as no link when the line is blank |
| Links.LoadLinksConcat | helpers/scrape.js:13-18 | two texts joined by a line break load as the links of the first followed by those of the second; with `LoadLinksLine` this fixes the result for every file |
| Links.DropEmptyKeepsNonEmpty | helpers/scrape.js:18 | the filter drops nothing from non-empty lines, so repeated lines are all kept (no deduplication) |
| Links.TrimAllTrimmed | helpers/scrape.js:17 | trimming already-trimmed lines changes nothing |
| Links.LoadLinksOfFile | helpers/scrape.js:13-18 | a file written as one non-empty trimmed link per line is loaded as exactly those links, in order, repeats included |
| Links.DelayMs | helpers/scrape.js:8 | for an integer draw in [0, 10000) the delay lies in [20000, 30000) milliseconds |
| Links.CloseAt | controllers/helitrader.controller.js:13 | the lazy `(.*?)</loc>` stops at the nearest `</loc>`, crossing no line terminator |
| Links.Locs | controllers/helitrader.controller.js:13 | every capture is single-line text containing no `</loc>` |
| Links.CloseAfterPlain | scrape-helitraders.js:22 | for a plain url followed by `</loc>`, the lazy capture ends exactly at that `</loc>` |
| Links.LocsOfSitemap | scrape-helitraders.js:22 | the captures of a sitemap built from plain urls are those urls, left to right |
| Links.LocsOfJunk | controllers/helitrader.controller.js:13 | a text without `<loc>` yields no capture |
| Links.LocsAfterJunk | controllers/helitrader.controller.js:13 | after any text without `<loc>`, `<loc>u</loc>` for a plain url `u` yields `u`, followed by the captures of the rest |
| Links.Dedup | controllers/helitrader.controller.js:118 | `[...new Set(xs)]` has no repeats and the same members as `xs` |
| Links.First | controllers/helitrader.controller.js:118 | the first position of a member, with no earlier occurrence |
| Links.DedupFirstSeenOrder | controllers/helitrader.controller.js:118 | the deduplicated list is ordered by each url's first occurrence |
| Links.DedupKeepsDistinct | scrape-helitraders.js:129 | deduplication changes a list exactly when it has repeats, and is idempotent |
| Links.DedupOfDistinct | scrape-helitraders.js:129 | a list without repeats is returned unchanged |
| Links.CombinedList | controllers/helitrader.controller.js:118 | the combined sitemap list holds each url of either sitemap exactly once, and is no longer than both together |
| Links.DedupLength | scrape-helitraders.js:129 | deduplication never lengthens the list |
| Merge.JsonFiles | merge.js:18 | only entries whose names end in `.json` are read, every such entry is read, in listing order |
| Merge.UrlsAppend | merge.js:39-42 | pushing an item adds its string url, if any, to the urls of `finalArray` |
| Merge.Merged | merge.js:36-43 | every kept item has a truthy url, no two kept items share a url, and every non-empty string url of the input is kept |
| Merge.MergeAll | merge.js:13-44 | the nested file/item loop, with `seenUrls` equal to the urls of `finalArray` as its invariant, returns `Merged` of the array files' records |
| Merge.FirstIndices | merge.js:36-43 | the positions of items whose url is truthy and not met before, increasing, and all of them |
| Merge.AdmitsIffFirst | merge.js:37-39 | an item passes `!item.url` and `seenUrls.has` exactly when it is the first with its url |
| Merge.MergedIsFirsts | merge.js:22-43 | the output is the first item met for each url, in scan order: an order-preserving subsequence of the scanned items |
| Merge.MergedFixes | merge.js:36-43 | items that all have urls and no repeats are merged unchanged |
| Merge.MergeIdempotent | merge.js:36-43 | merging the output again gives the same output |
| Merge.RemergeOutput | merge.js:13-44 | a folder holding only the merged output file merges to that same output |
| Merge.JsonFilesConcat | merge.js:18 | the `.json` filter distributes over a split of the listing |
| Merge.ScannedConcat | merge.js:22-33 | scanning distributes over a split of the files |
| Merge.JsonFilesOne | merge.js:9-11 | one entry passes the filter exactly when its name ends in `.json` |
| Merge.IsJsonFile | merge.js:9-11 | definition, no contract: `name.endsWith(".json")` as a suffix test; `Merge.JsonFilesOne` and `Merge.JsonFiles` state what the filter keeps |
| Merge.ScannedOne | merge.js:30-33 | one file contributes its items when it holds an array, and nothing otherwise |
| Merge.SingleEntry | merge.js:18-33 | one entry contributes its items when it is a `.json` file holding an array, and nothing otherwise |
| Merge.ScanSplit | merge.js:22-33 | the scan of a listing is the scan of the part before an entry, that entry, and the part after |
| Merge.MergeSkipsEntry | merge.js:30-33 | a non-`.json` or non-array file adds nothing, and the merge goes on with the later files |
| Crawl.WorkQueue.constructor | controllers/helitrader.controller.js:123-124 | the cursor starts at 0 with no results and nothing in flight |
| Crawl.WorkQueue.Claim | controllers/helitrader.controller.js:127-128 | a claim takes the next index exactly once, and at the end of the list it takes nothing and leaves the cursor there |
| Crawl.WorkQueue.Report | controllers/helitrader.controller.js:129-130 | a reported claim pushes one record when the page yielded one, and nothing otherwise |
| Crawl.WorkQueue.Work | scrape-helitraders.js:137-146 | a worker running alone claims every remaining index in order, ends with the cursor at `allUrls.length`, and appends exactly the non-null records |
| Crawl.KeptAllSnoc | scrape-helitraders.js:137-146 | one more claimed URL adds to the results exactly what reporting its page adds |
| Crawl.ResultsBound | controllers/helitrader.controller.js:126-133 | once all claims are reported, there are at most as many results as claimed indices, and the cursor never passes the list |
| Helitrader.SpecEntry | controllers/helitrader.controller.js:49-63 | a spec card is stored only with a non-empty lower-cased label and a non-empty trimmed value that differs, lower-cased, from the label, and every such card is stored |
| Helitrader.GetSpecs | scrape-helitraders.js:57-70 | the in-place `out[label] = value` loop builds `Specs` |
| Helitrader.SpecsStored | scrape-helitraders.js:65-67 | every stored spec has a non-empty key and a non-empty trimmed value that differs from the key |
| Helitrader.ListItems | controllers/helitrader.controller.js:65-72 | every list item is non-empty and trimmed, and there are no more items than lines |
| Helitrader.ListItemsLine | controllers/helitrader.controller.js:68-71 | a text of one line gives that line without a leading `- `, trimmed, or no item when that is empty |
| Helitrader.ListItemsConcat | controllers/helitrader.controller.js:68-71 | two texts joined by a line break give the items of the first followed by those of the second |
| Helitrader.ListItemsOfBullets | scrape-helitraders.js:72-79 | lines written as `"- " + item` give back exactly the items |
| Helitrader.GetList | controllers/helitrader.controller.js:65-67 | a missing element gives `[]`, a present one its list items |
| Helitrader.ScrapePage | controllers/helitrader.controller.js:19-109 | a page yields a record exactly when it has a title without "not found" and the record's price is non-empty and without "contact" |
| Helitrader.Head | controllers/helitrader.controller.js:74-79 | definition, no contract: the url and the trimmed title, price and description, each null when empty; `Helitrader.RecordUrl` states that the url survives the spec cards |
| Helitrader.Tail | controllers/helitrader.controller.js:80-91 | definition, no contract: the nine `dt-` lists, then `images`; `Helitrader.TailField` states that each one ends in the record |
| Helitrader.PageRecord | controllers/helitrader.controller.js:74-92 | definition, no contract: the head fields, then `...getSpecs()`, then the lists; its content is stated by `Helitrader.TailField`, `Helitrader.RecordLists`, `Helitrader.RecordUrl` and `Helitrader.TailKeepsUrl` |
| Helitrader.PriceOk | controllers/helitrader.controller.js:95-99 | definition, no contract: a truthy string price without "contact", case aside; `Helitrader.ScrapePage` states that a page yields a record exactly when it has a title without "not found" and passes this test |
| Helitrader.TailField | controllers/helitrader.controller.js:80-91 | each list field and `images`, set after the specs, keeps its value |
| Helitrader.RecordLists | scrape-helitraders.js:89-101 | a record carries every `dt-` list and the images, whatever the spec cards say |
| Helitrader.RecordUrl | controllers/helitrader.controller.js:74-79 | without a spec card labelled "url", the record's url is the page location |
| Helitrader.TailKeepsUrl | controllers/helitrader.controller.js:79-91 | the assignments after the spec cards never touch `url` |
| Helitrader.AllUrls | scrape-helitraders.js:126-129 | the combined list has no repeats and holds exactly the urls of the two sitemaps |
| Helitrader.ScrapeAllListings | controllers/helitrader.controller.js:116-138 | the `MAX_CONCURRENT` workers over the shared cursor return the non-null records of the combined list, in list order, no more than its length |
| Helitrader.CrawlKeepsListedPages | scrape-helitraders.js:137-146 | every result comes from a sitemap url whose page passed the title and price skips |
| AvPay.RowEntry | controllers/avpayaero.controller.js:89-97 | a row is stored exactly when its cleaned key and cleaned value are both non-empty, and then under those |
| AvPay.Head | controllers/avpayaero.controller.js:57-87 | the fields set before the rows include neither `price` nor `"Price:"`, so the price step sees only what the rows stored |
| AvPay.StripTags | controllers/avpayaero.controller.js:118 | removing tags only drops characters, and text that does not start with a tag keeps its first character |
| AvPay.StripTagsNoTag | controllers/avpayaero.controller.js:118 | no complete `<...>` tag survives the removal |
| AvPay.StripTagsPlain | controllers/avpayaero.controller.js:118 | text without `<` is unchanged |
| AvPay.StripTagsTag | controllers/avpayaero.controller.js:118 | a complete tag `<t>` after tag-free text is removed, the text before it is kept, and the removal goes on after the tag |
| AvPay.StripTagsUnclosed | controllers/avpayaero.controller.js:118 | a `<` that no `>` follows opens no tag and is kept; the removal goes on after it |
| AvPay.StripTagsEmptyBrackets | controllers/avpayaero.controller.js:118 | `<>` has no character between its brackets, so `<[^>]+>` does not match it and it is kept |
| AvPay.SectionItems | controllers/avpayaero.controller.js:116-119 | section lines are non-empty and clean |
| AvPay.SectionItemsLine | controllers/avpayaero.controller.js:116-119 | a piece without `<br>` gives its cleaned tag-free text as its one line, or no line when that is empty |
| AvPay.SectionItemsConcat | controllers/avpayaero.controller.js:116-119 | two pieces joined by `<br>` give the lines of the first followed by those of the second |
| AvPay.Capture | controllers/avpayaero.controller.js:109-113 | the case-insensitive match needs the header in the HTML, and the capture holds no `<strong>` |
| AvPay.CaptureFirst | controllers/avpayaero.controller.js:109-113 | at the first case-insensitive occurrence of the header, the capture is the text after it up to the next `<strong>` in any case, or to the end when there is none |
| AvPay.ExtractSectionAsWritten | controllers/avpayaero.controller.js:105-120 | as written (raw title): a missing description gives `[]`, and section lines are non-empty and clean |
| AvPay.SectionFoundAsWritten | controllers/avpayaero.controller.js:105-120 | as written, when the raw-title header first occurs in the HTML, followed by a body and then `<strong>` or the end, the section is the lines of that body |
| AvPay.EscapeText | controllers/avpayaero.controller.js:107 | `innerHTML` text escapes every `&`, so each `&` starts an entity |
| AvPay.ExtractSection | controllers/avpayaero.controller.js:105-120 | corrected (title escaped as `innerHTML` escapes it): a missing description gives `[]`, and section lines are non-empty and clean |
| AvPay.PlainTitleAgrees | controllers/avpayaero.controller.js:107-113 | for a title without `&`, `<`, `>` or a no-break space, the code as written and the corrected extraction give the same lines |
| AvPay.AmpersandTitleNeverMatches | controllers/avpayaero.controller.js:109-113 | a title with `&` followed by a non-letter never matches escaped HTML |
| AvPay.AmpersandSectionLost | controllers/avpayaero.controller.js:122-124 | as written, a section titled with `& ` ("Rotors & Controls") is always `[]` |
| AvPay.EscapedSectionFound | controllers/avpayaero.controller.js:105-120 | with the title escaped as `innerHTML` escapes it, the section's lines are found |
| AvPay.SectionField | controllers/avpayaero.controller.js:122-131 | each of the eight section fields is in the record and holds the as-written extraction for its title |
| AvPay.AmpersandFieldsEmpty | controllers/avpayaero.controller.js:123-127 | with the HTML escaped as `innerHTML` escapes it, `rotors_controls`, `powerplant_fuel_system` and `transmission_hydraulic` are always `[]` |
| AvPay.SentinelsFailPattern | controllers/avpayaero.controller.js:159-174 | every sentinel phrase fails `^\d[\d,\.]*$` |
| AvPay.AcceptIsPattern | controllers/avpayaero.controller.js:159-174 | acceptance is exactly the numeric-pattern test on `price` |
| AvPay.PricedThenKeeps | controllers/avpayaero.controller.js:99-100 | `price` is the truthy `"Price:"` value or "NO_PRICE", and `"Price:"` is removed |
| AvPay.WithPrice | controllers/avpayaero.controller.js:99-100 | `price` is the truthy `"Price:"` value or "NO_PRICE", `"Price:"` is removed, and every other field is unchanged |
| AvPay.PricedThen | controllers/avpayaero.controller.js:99-131 | definition, no contract: the price step, then the assignments after it; `AvPay.PricedThenKeeps` states the result |
| AvPay.Tail | controllers/avpayaero.controller.js:102-131 | definition, no contract: `long_description`, then the eight sections extracted as written; `AvPay.SectionField` states each field of the record |
| AvPay.AvRecord | controllers/avpayaero.controller.js:57-131 | definition, no contract: the head, the rows, the price step and the tail in assignment order; its content is stated by `AvPay.SectionField`, `AvPay.PriceNormalised` and `AvPay.PriceFromLastRow` |
| AvPay.Scrape | controllers/avpayaero.controller.js:9-139 | definition, no contract: null when the page fails or shows no title, else the record; used by `AvPay.ScrapeAvPayAero` |
| AvPay.Accept | controllers/avpayaero.controller.js:159-174 | definition, no contract: the sentinel test and the numeric pattern; `AvPay.AcceptIsPattern` states that the pattern alone decides |
| AvPay.PriceNormalised | controllers/avpayaero.controller.js:99-100 | a record never has `"Price:"`, always has a non-empty string price, and has "NO_PRICE" when no row stores a price |
| AvPay.RowsThenPriced | controllers/avpayaero.controller.js:89-100 | for any head without `"Price:"` and any later fields that leave both price keys alone, the price step leaves a non-empty string price, drops `"Price:"`, and gives "NO_PRICE" when no row stores a price |
| AvPay.PriceFromLastRow | controllers/avpayaero.controller.js:89-100 | the price is the value of the last `"Price:"` row |
| AvPay.ScrapeAvPayAero | controllers/avpayaero.controller.js:150-177 | the loop keeps the accepted records in link order, no more than the links, each with a price matching `^\d[\d,\.]*$` |
| TradeAPlane.PriceOf | controllers/tradeAPlane.controller.js:60-65 | `price` is "NO_PRICE" exactly when the price text has no digit, and otherwise is its digits: a non-empty all-digit string |
| TradeAPlane.PriceOfDigits | controllers/tradeAPlane.controller.js:62-65 | an all-digit price text is kept as it is |
| TradeAPlane.PriceOfGrouped | controllers/tradeAPlane.controller.js:62-65 | a price written as digit groups around a separator without digits ("1,250") becomes the groups run together |
| TradeAPlane.InfoEntry | controllers/tradeAPlane.controller.js:92-95 | an info item is stored exactly when its cleaned label and its cleaned text without that label are both non-empty; it is then stored under the cleaned label, and its value is the cleaned text with the first occurrence of that label replaced by "" |
| TradeAPlane.InfoStored | controllers/tradeAPlane.controller.js:91-96 | every `info` entry has a non-empty clean key and a non-empty clean value |
| TradeAPlane.RecordPrice | controllers/tradeAPlane.controller.js:60-65 | the record's `price` is the normalised price, and `price_raw` is null exactly when there is no price text |
| TradeAPlane.OtherFields | controllers/tradeAPlane.controller.js:49-111 | the fields other than the two price fields include neither `price` nor `price_raw` |
| TradeAPlane.RecordFields | controllers/tradeAPlane.controller.js:49-111 | the record has the keys of the other fields plus `price_raw` and `price`, and every other field keeps its value, so each key is assigned once |
| TradeAPlane.TapRecord | controllers/tradeAPlane.controller.js:49-111 | definition, no contract: the other fields and the two price fields; `TradeAPlane.RecordFields` and `TradeAPlane.RecordPrice` state its content |
| TradeAPlane.Scrape | controllers/tradeAPlane.controller.js:10-117 | definition, no contract: null when the page fails or shows no header, else the record; used by `TradeAPlane.ScrapeTradeAPlane` |
| TradeAPlane.Accept | controllers/tradeAPlane.controller.js:138-154 | definition, no contract: a price other than "NO_PRICE" and no invalid word in the lower-cased raw price; `TradeAPlane.AcceptedPrice` states what an accepted record holds |
| TradeAPlane.NothingInEmpty | controllers/tradeAPlane.controller.js:138 | the empty string contains no non-empty word |
| TradeAPlane.NullRawNeverInvalid | controllers/tradeAPlane.controller.js:138 | a null `price_raw` reads as "" and never triggers the invalid-word check |
| TradeAPlane.AcceptedPrice | controllers/tradeAPlane.controller.js:138-154 | a stored record's price is a non-empty run of digits, and its lower-cased raw price holds none of the invalid words |
| TradeAPlane.ScrapeTradeAPlane | controllers/tradeAPlane.controller.js:129-157 | the loop keeps the accepted records in link order, no more than the links, each passing the price rule |
| GlobalAir.Location | controllers/globalair.controller.js:65-80 | `location` is null unless the seller block holds a `br`, and is clean text otherwise |
| GlobalAir.LinesAfterTwo | controllers/globalair.controller.js:74-75 | `split("\n").slice(2)` drops exactly the seller and contact lines |
| GlobalAir.LocationOfBlock | controllers/globalair.controller.js:71-77 | a seller block of seller, contact and address lines gives the address lines joined with ", ", cleaned |
| GlobalAir.ShortBlockHasNoLocation | controllers/globalair.controller.js:74-76 | a seller block of at most two lines gives no location |
| GlobalAir.RowEntry | controllers/globalair.controller.js:82-87 | a row is stored exactly when its first cell without its first ":" and its second cell are non-empty once cleaned; it is then stored under the cleaned first cell without that ":", and its value is the cleaned second cell |
| GlobalAir.PriceOf | controllers/globalair.controller.js:90-99 | the price is "NO_PRICE", or the cleaned converted price that does not say "please call" |
| GlobalAir.RealPrice | controllers/globalair.controller.js:94-99 | a price other than "NO_PRICE" is the non-empty cleaned converted price, without "please call" |
| GlobalAir.PleaseCallMeansNoPrice | controllers/globalair.controller.js:97-99 | a converted price saying "please call", in any case, becomes "NO_PRICE" |
| GlobalAir.Find | controllers/globalair.controller.js:107-109 | `find` gives the first element that passes the test, or none when no element does |
| GlobalAir.FindCard | controllers/globalair.controller.js:107-109 | the card found is the first whose trimmed, lower-cased header includes the title |
| GlobalAir.ExtractSection | controllers/globalair.controller.js:106-121 | section lines are non-empty and clean, and no card whose header includes the title gives `[]` |
| GlobalAir.SectionOfCard | controllers/globalair.controller.js:106-121 | for the first card whose header includes the title, a missing body gives `[]` and a body gives its cleaned non-empty lines |
| GlobalAir.FindBlock | controllers/globalair.controller.js:127-131 | the block found is the first whose trimmed, lower-cased `h4` equals the title |
| GlobalAir.BlockLines | controllers/globalair.controller.js:140-146 | the lines of one text block are non-empty and clean |
| GlobalAir.BlockLinesBr | controllers/globalair.controller.js:141-144 | `<br>` acts as a line break: a block `a<br>b` gives the lines of `a` followed by those of `b` |
| GlobalAir.BlockLinesPlain | controllers/globalair.controller.js:140-146 | a block without `<br>` gives its cleaned non-empty `"\n"`-separated lines |
| GlobalAir.FlatLines | controllers/globalair.controller.js:139-147 | the `flatMap` yields only non-empty clean lines |
| GlobalAir.FlatLinesOne | controllers/globalair.controller.js:139-147 | one text block gives its own lines |
| GlobalAir.FlatLinesConcat | controllers/globalair.controller.js:139-147 | the `flatMap` distributes over concatenation: the blocks of `a + b` give the lines of `a` followed by those of `b` |
| GlobalAir.ExtractMobileSection | controllers/globalair.controller.js:126-148 | mobile section lines are non-empty and clean, and a missing block gives `[]` |
| GlobalAir.MobileSectionOfBlock | controllers/globalair.controller.js:126-147 | for the first block whose `h4` equals the title, the section is the flattened lines of its non-empty cleaned `div` texts |
| GlobalAir.BlockLinesAreBrPieces | controllers/globalair.controller.js:135-146 | a cleaned block holds no line break, so its lines are its `<br>`-separated pieces, cleaned |
| GlobalAir.Gallery | controllers/globalair.controller.js:159-167 | the gallery holds exactly the srcs that are non-empty and contain no "logo", "icon" or "placeholder"; a single src is kept exactly when it passes that test |
| GlobalAir.GalleryConcat | controllers/globalair.controller.js:159-167 | the filter distributes over concatenation, so it keeps the passing srcs in order, repeats included |
| GlobalAir.TailValues | controllers/globalair.controller.js:94-177 | eleven fields are assigned after the rows; `GlobalAir.RecordField` gives the value each one ends with in the record |
| GlobalAir.RecordField | controllers/globalair.controller.js:94-179 | each of the eleven fields assigned after the rows is in the record with the value of that assignment, whatever the rows set |
| GlobalAir.PriceNamedOnce | controllers/globalair.controller.js:94-177 | no later assignment names `price` again |
| GlobalAir.TailFixes | controllers/globalair.controller.js:94-179 | whatever the rows set, `price` ends as the normalised price, `whatsapp` as null, and `"Price"` is removed |
| GlobalAir.TailSets | controllers/globalair.controller.js:94-177 | before the deletion, the assignments after the rows leave `price` as the normalised price and `whatsapp` as null |
| GlobalAir.NamedOther | controllers/globalair.controller.js:94-177 | a field not named by the assignments after the rows keeps what the rows left |
| GlobalAir.RecordPrice | controllers/globalair.controller.js:179 | a record's `price` is the normalised price, `Price` is always deleted, and `whatsapp` is null |
| GlobalAir.Head | controllers/globalair.controller.js:52-80 | definition, no contract: url, title, seller, contact name and location; `GlobalAir.NamedOther` states that the assignments after the rows leave every field they do not name unchanged |
| GlobalAir.Finish | controllers/globalair.controller.js:94-179 | definition, no contract: the assignments after the rows, then `delete json.Price`; `GlobalAir.RecordField` and `GlobalAir.RecordPrice` state its result |
| GlobalAir.GaRecord | controllers/globalair.controller.js:48-180 | definition, no contract: its content is stated by `GlobalAir.RecordField`, `GlobalAir.RecordPrice` and `GlobalAir.RowFieldOrigin` |
| GlobalAir.Scrape | controllers/globalair.controller.js:9-186 | definition, no contract: null when the page fails or shows no title, else the record; used by `GlobalAir.ScrapeGlobalAir` |
| GlobalAir.RowFieldOrigin | controllers/globalair.controller.js:82-87 | every other field comes from a row with a non-empty clean key and a non-empty value |
| GlobalAir.AcceptIsPrice | controllers/globalair.controller.js:207-210 | a record is kept exactly when its price is not "NO_PRICE" |
| GlobalAir.Accept | controllers/globalair.controller.js:207-210 | definition, no contract: the price is not "NO_PRICE"; `GlobalAir.AcceptIsPrice` states it for a string price |
| GlobalAir.AcceptedPrice | controllers/globalair.controller.js:90-99 | a kept record's price is the non-empty cleaned converted price, which does not say "please call" |
| GlobalAir.ScrapeGlobalAir | controllers/globalair.controller.js:198-213 | the loop keeps the records whose price is not "NO_PRICE", in link order, no more than the links |
| ControllerSite.RunFrom | scrape-controller.js:62 | the longest prefix of digits and commas, which cannot be extended |
| ControllerSite.MatchAt | scrape-controller.js:62 | the match starts at the first digit or comma, and there is none before it |
| ControllerSite.PriceMatch | scrape-controller.js:62-63 | the match is null exactly when the text has no digit or comma, and is otherwise a non-empty run of them |
| ControllerSite.PriceMatchIsLeftmostLongest | scrape-controller.js:58-64 | the price is the first maximal run of digits and commas in the cleaned price text |
| ControllerSite.PlainPriceMatchedWhole | scrape-controller.js:62-63 | a price text of digits and commas only is matched whole |
| ControllerSite.SpecValueAsWritten | scrape-controller.js:88-93 | as written, a value without `"o "` stays a string, and one with it becomes a list of non-empty clean pieces |
| ControllerSite.SpecValueSplit | scrape-controller.js:88-93 | as written, a value `a + "o " + b` with no `"o "` in `a` is cut there first: the cleaned `a`, then the pieces of `b` |
| ControllerSite.WordsSplitAsWritten | scrape-controller.js:88-93 | as written, two words without whitespace, the first without "o", joined by `"o "` become the two words, so a word ending in "o" before a space is cut |
| ControllerSite.BulletItems | scrape-controller.js:89-92 | corrected bullet items are non-empty and clean |
| ControllerSite.BulletedList | scrape-controller.js:88-93 | corrected, a value of `"o "` then words joined by `" o "`, none with whitespace, becomes exactly those words |
| ControllerSite.BulletListItems | scrape-controller.js:88-93 | corrected, "o GPS o Radio" becomes `["GPS", "Radio"]` |
| ControllerSite.WordEndingInOKeptWhole | scrape-controller.js:88-93 | with the corrected bullet test, a value where "o " only ends a word stays one string |
| ControllerSite.TurboPropSplitAsWritten | scrape-controller.js:88-93 | as written, "Turbo Prop" holds "o " and becomes the list `["Turb", "Prop"]` |
| ControllerSite.TurboPropKeptWhole | scrape-controller.js:88-93 | with the corrected bullet test, "Turbo Prop" stays one string |
| ControllerSite.Cells | scrape-controller.js:77-82 | there is one cell per label, in order; cell `i` holds label `i` and the value at index `i`, or no value once the values run out |
| ControllerSite.SpecEntry | scrape-controller.js:80-95 | a cell is stored exactly when its cleaned label is non-empty and it has a value element; it is then stored under the cleaned label, a non-empty clean key, and its value is the cleaned value put through the `"o "` conversion as written |
| ControllerSite.RecordImages | scrape-controller.js:100-102 | the images field holds no empty src |
| ControllerSite.NoPriceText | scrape-controller.js:61 | without price text, and with no spec labelled "price", the record has no `price` key |
| ControllerSite.RecordPrice | scrape-controller.js:58-64 | with price text, and with no spec labelled "price", `price` is the match, or null when there is none |
| ControllerSite.AssembleKeeps | scrape-controller.js:58-103 | a field other than `images` that no spec cell assigns is in the record exactly as the fields set before the specs left it |
| ControllerSite.Head | scrape-controller.js:52-70 | the fields set before the specifications hold no `images`, and hold `price` exactly when the cleaned price text is non-empty |
| ControllerSite.Assemble | scrape-controller.js:72-102 | definition, no contract: the head, one assignment per used cell, then `images`; `ControllerSite.AssembleKeeps` and `ControllerSite.SpecFieldOrigin` state its content |
| ControllerSite.CsRecord | scrape-controller.js:48-104 | definition, no contract: its content is stated by `ControllerSite.RecordImages`, `ControllerSite.RecordPrice`, `ControllerSite.NoPriceText` and `ControllerSite.SpecFieldOrigin` |
| ControllerSite.Scrape | scrape-controller.js:18-111 | definition, no contract: a page throws when it does not load, or when a used cell has an empty value text, because `clean` then gives null and `value.includes` throws; `ControllerSite.Run` states what a throw does to the run |
| ControllerSite.SpecFieldOrigin | scrape-controller.js:72-97 | every other field comes from a used specification cell |
| ControllerSite.Run | scrape-controller.js:113-127 | the run ends early exactly when a page throws; otherwise it keeps the records with a truthy price, in link order, no more than the links |
| ControllerSite.HasPrice | scrape-controller.js:120 | definition, no contract: `res?.price` is truthy; `ControllerSite.Run` states that the written records are exactly those that pass it |
| ControllerSite.ScrapeControllerSite | scrape-controller.js:113-127 | the run over the link list crashes exactly when some page's scrape throws, and otherwise keeps the priced records |

## Left out

- Browser driving (Puppeteer and Playwright launch, `goto`, `waitForSelector`, `click`, `evaluate`) is left out. Each page arrives as the texts the scraper reads. A page that fails to load or times out is a flag (`ready`) or a missing title.
- Network and files are left out: sitemap `fetch`, `readdirSync`, `readFileSync`, `writeFileSync`, and JSON parsing and printing. The sitemap text, the folder listing with each file already parsed, and the link lists arrive as inputs.
- A file that `JSON.parse` rejects is not modelled. In `merge.js` that throws and stops the merge.
- The Express routes, `app.js` and the HTTP responses are left out. So are logging and the `try`/`catch` around the whole controllers, which only turns a crash into a 500 response.
- Timers and `Math.random` are left out: `wait`, `setTimeout` and the delays between pages. Only the delay arithmetic is modelled, for an integer draw.
- Real interleaving of the crawl workers is left out. JavaScript runs a worker without interruption between two `await`s, so `Claim` and `Report` are atomic steps, and `Valid` holds after each of them.
  - `Helitrader.ScrapeAllListings` runs the workers one after another. The first takes every index; the others find the list exhausted.
  - The order of `results` under real concurrency follows page completion, not list order. The model gives list order, which is one possible interleaving.
- Whitespace and case are ASCII only. The `\s` class, `trim` and `toLowerCase` are restricted to ASCII whitespace and ASCII letters.
- Values in records are strings, null, lists of strings and nested objects. Numbers and booleans do not occur in the scraped records.
- In `merge.js`, `item.url` is modelled on strings. An array or object url is a fresh reference, so it is always new to the `Set` and is kept. Number and boolean urls, which a `Set` compares by value, are not modelled, as numbers and booleans are not record values here. Array items that are not objects are not modelled.
- An `undefined` property is an absent key. `JSON.stringify` would drop it too.
- `AvPay.Head` leaves `main_image` out when there is no photo, because the source assigns `undefined` there.
- The link lists in `helpers/globalair-links.js`, `helpers/avpay-aero-links.js`, `helpers/trade-a-plane-links.js` and `helper/controller-website-links.js` are not part of this model. They are inputs.
- `controllers/controllerHeli.controller.js` is not part of this model.
- `TradeAPlane.InfoEntry` does not model `replace(null, "")` when the label is missing. That call replaces the text "null", but the entry is then never stored anyway.
- The helitrader `page.click` on the first image only opens a gallery and changes no read value, so it is left out.
- `GlobalAir.ExtractMobileSection` takes the texts of the `div`s inside a block as given. Nested `div`s, whose text the DOM repeats, are part of that input.
- ControllerSite.BulletedList: the round trip is stated for items without whitespace. Items that hold spaces (such as "Garmin GTN 750") are covered only by the general contract of `ControllerSite.BulletItems`, because a space next to an "o" inside an item can form a further " o " marker.
- `ControllerSite.Scrape` treats every failure as the same crash. A navigation failure, a title that never appears, and an empty specification value (whose `clean` gives null, on which `includes` throws) all end the whole run, because nothing catches the error.

## Findings

| source | as written | input that shows it | evidently intended | confidence | as-written member | corrected member |
|---|---|---|---|---|---|---|
| controllers/avpayaero.controller.js:107-113 | the section regex is built from the raw title and matched against `innerHTML`, where `&` appears as `&amp;` | the description `<strong>Rotors &amp; Controls</strong><br>Main rotor<br>` and the title "Rotors & Controls" | the sections "Rotors & Controls", "Powerplant & Fuel System" and "Transmission Drive & Hydraulic System" yield their lines, like the other sections; as written, `AvPay.AmpersandFieldsEmpty` shows all three record fields are always `[]` | high, not executed | AvPay.AmpersandSectionLost | AvPay.EscapedSectionFound |
| scrape-controller.js:88-93 | any `"o "` turns a value into a list, including the end of a word | the value "Turbo Prop", which becomes `["Turb", "Prop"]` | only a value with `"o "` bullet markers (at the start or after a space) is split into items; as written, `ControllerSite.WordsSplitAsWritten` cuts every word ending in "o" before a space, and corrected, `ControllerSite.BulletedList` reads a bulleted value back as its words | medium, not executed | ControllerSite.TurboPropSplitAsWritten | ControllerSite.TurboPropKeptWhole |
