/**
 * The snapshot merger: read every `.json` file of the output folder in
 * listing order, skip a file whose content is not an array, and keep the
 * first record met for each truthy `url`.
 *
 * The folder arrives as its listing with each file's content already parsed.
 * Records are JSON objects. `seenUrls` is a JS `Set`, which compares strings
 * by value and arrays or objects by reference. Every array or object that
 * `JSON.parse` produces is a fresh reference, so such a `url` is never already
 * in the set. The model's set therefore holds only the string urls, and an
 * array or object url always passes the test.
 */
module Merge {
  import opened Json

  datatype Content = Array(items: seq<Record>) | NotArray

  /** A directory entry: its file name and what `JSON.parse` makes of its text. */
  datatype Entry = Entry(name: string, content: Content)

  const Suffix: string := ".json"

  /** `name.endsWith(".json")`. */
  predicate IsJsonFile(name: string) {
    |Suffix| <= |name| && name[|name| - |Suffix|..] == Suffix
  }

  /** `fs.readdirSync(folder).filter(isJsonFile)`: the `.json` entries, in listing order. */
  function JsonFiles(dir: seq<Entry>): (files: seq<Entry>)
    ensures |files| <= |dir|
    ensures forall k :: 0 <= k < |files| ==> files[k] in dir && IsJsonFile(files[k].name)
    ensures forall i :: 0 <= i < |dir| && IsJsonFile(dir[i].name) ==> dir[i] in files
    decreases |dir|
  {
    if dir == [] then []
    else
      var init := dir[..|dir| - 1];
      var e := dir[|dir| - 1];
      assert dir == init + [e];
      JsonFiles(init) + (if IsJsonFile(e.name) then [e] else [])
  }

  /** The records of the array-valued files, file after file; other files add nothing. */
  function Scanned(files: seq<Entry>): seq<Record>
    decreases |files|
  {
    if files == [] then []
    else
      Scanned(files[..|files| - 1]) + FileItems(files[|files| - 1].content)
  }

  /** The items a file contributes: its array, or nothing. */
  function FileItems(content: Content): seq<Record> {
    if content.Array? then content.items else []
  }

  /** One more file adds its items. */
  lemma ScannedSnoc(files: seq<Entry>, i: nat)
    requires i < |files|
    ensures Scanned(files[..i + 1]) == Scanned(files[..i]) + FileItems(files[i].content)
  {
    assert files[..i + 1][..i] == files[..i];
  }

  /** One more item of a file extends the scanned prefix by that item. */
  lemma ItemSnoc(before: seq<Record>, items: seq<Record>, k: nat)
    requires k < |items|
    ensures before + items[..k + 1] == (before + items[..k]) + [items[k]]
  {
    assert items[..k + 1] == items[..k] + [items[k]];
  }

  // ---------------------------------------------------------------- urls

  /** Whether `item.url` is a string, and which. */
  predicate HasTextUrl(item: Record) {
    "url" in item && item["url"].Str?
  }

  /** The string urls of `items`: what `seenUrls` holds once they have all been added. */
  function Urls(items: seq<Record>): set<string> {
    set k | 0 <= k < |items| && HasTextUrl(items[k]) :: items[k]["url"].s
  }

  /** `seenUrls.has(url)`: only a string can be found again. */
  predicate Has(seenUrls: set<string>, url: Value) {
    url.Str? && url.s in seenUrls
  }

  /** `seenUrls.add(url)`. */
  function Add(seenUrls: set<string>, url: Value): set<string> {
    if url.Str? then seenUrls + {url.s} else seenUrls
  }

  /** The test an item passes to be pushed, given the urls seen so far. */
  predicate Admits(seenUrls: set<string>, item: Record) {
    FieldTruthy(item, "url") && !Has(seenUrls, item["url"])
  }

  /** Two items carrying the same string url. */
  predicate SameUrl(a: Record, b: Record) {
    HasTextUrl(a) && HasTextUrl(b) && a["url"] == b["url"]
  }

  predicate NoRepeatedUrl(items: seq<Record>) {
    forall i, j :: 0 <= i < j < |items| ==> !SameUrl(items[i], items[j])
  }

  predicate AllHaveUrl(items: seq<Record>) {
    forall i :: 0 <= i < |items| ==> FieldTruthy(items[i], "url")
  }

  lemma UrlsAppend(items: seq<Record>, item: Record)
    ensures Urls(items + [item]) == (if HasTextUrl(item) then Urls(items) + {item["url"].s} else Urls(items))
  {
    var all := items + [item];
    assert forall k :: 0 <= k < |items| ==> all[k] == items[k];
    assert all[|items|] == item;
  }

  /**
   * The output of merging `items` in order: each item is pushed when its url
   * is truthy and not yet seen.
   */
  function Merged(items: seq<Record>): (out: seq<Record>)
    ensures AllHaveUrl(out)
    ensures NoRepeatedUrl(out)
    ensures Urls(out) == Urls(items) - {""}
    decreases |items|
  {
    if items == [] then []
    else
      var init := items[..|items| - 1];
      var item := items[|items| - 1];
      var before := Merged(init);
      assert items == init + [item];
      UrlsAppend(init, item);
      UrlsAppend(before, item);
      if Admits(Urls(before), item) then
        var out := before + [item];
        assert forall i :: 0 <= i < |before| ==> out[i] == before[i];
        out
      else
        before
  }

  /** One more item is pushed exactly when it is admitted by the urls merged so far. */
  lemma MergedSnoc(items: seq<Record>, item: Record)
    ensures Merged(items + [item]) == if Admits(Urls(Merged(items)), item) then Merged(items) + [item] else Merged(items)
  {
    assert (items + [item])[..|items|] == items;
  }

  /**
   * `mergeAll` without the file I/O: the folder listing is given with each
   * file's parsed content, and the merged array is returned instead of written.
   */
  method MergeAll(dir: seq<Entry>) returns (finalArray: seq<Record>)
    ensures finalArray == Merged(Scanned(JsonFiles(dir)))
  {
    finalArray := [];
    var seenUrls: set<string> := {};
    var files := JsonFiles(dir);
    for f := 0 to |files|
      invariant finalArray == Merged(Scanned(files[..f]))
      invariant seenUrls == Urls(finalArray)
    {
      ScannedSnoc(files, f);
      var data := files[f].content;
      if !data.Array? {
        assert Scanned(files[..f]) + [] == Scanned(files[..f]);
        continue;
      }
      ghost var before := Scanned(files[..f]);
      assert before + data.items[..0] == before;
      for k := 0 to |data.items|
        invariant finalArray == Merged(before + data.items[..k])
        invariant seenUrls == Urls(finalArray)
      {
        var item := data.items[k];
        ItemSnoc(before, data.items, k);
        MergedSnoc(before + data.items[..k], item);
        if !FieldTruthy(item, "url") {
          continue;
        }
        if !Has(seenUrls, item["url"]) {
          UrlsAppend(finalArray, item);
          seenUrls := Add(seenUrls, item["url"]);
          finalArray := finalArray + [item];
        }
      }
      assert before + data.items[..|data.items|] == Scanned(files[..f + 1]);
    }
    assert files[..|files|] == files;
  }

  // ---------------------------------------------------------------- first-seen characterisation

  /** Item `i` is the first of its url: its url is truthy and no earlier item carries the same string url. */
  predicate IsFirst(items: seq<Record>, i: nat)
    requires i < |items|
  {
    FieldTruthy(items[i], "url") && forall j :: 0 <= j < i ==> !SameUrl(items[j], items[i])
  }

  /** The positions of the items that are first of their url, in increasing order. */
  function FirstIndices(items: seq<Record>): (ix: seq<nat>)
    ensures forall k :: 0 <= k < |ix| ==> ix[k] < |items| && IsFirst(items, ix[k])
    ensures forall k, l :: 0 <= k < l < |ix| ==> ix[k] < ix[l]
    ensures forall i :: 0 <= i < |items| && IsFirst(items, i) ==> i in ix
    decreases |items|
  {
    if items == [] then []
    else
      var n := |items| - 1;
      var init := items[..n];
      var before := FirstIndices(init);
      assert forall i :: 0 <= i < n ==> (IsFirst(init, i) <==> IsFirst(items, i)) by {
        forall i | 0 <= i < n ensures IsFirst(init, i) <==> IsFirst(items, i) {
          assert init[i] == items[i];
          assert forall j :: 0 <= j < i ==> init[j] == items[j];
        }
      }
      before + (if IsFirst(items, n) then [n] else [])
  }

  /** The items at positions `ix`, in that order. */
  function Pick(items: seq<Record>, ix: seq<nat>): seq<Record>
    requires forall k :: 0 <= k < |ix| ==> ix[k] < |items|
  {
    seq(|ix|, k requires 0 <= k < |ix| => items[ix[k]])
  }

  /** The item at the end passes the test exactly when it is the first of its url. */
  lemma AdmitsIffFirst(items: seq<Record>)
    requires items != []
    ensures Admits(Urls(Merged(items[..|items| - 1])), items[|items| - 1]) <==> IsFirst(items, |items| - 1)
  {
    var n := |items| - 1;
    var init := items[..n];
    var item := items[n];
    if FieldTruthy(item, "url") && item["url"].Str? {
      var s := item["url"].s;
      assert s != "";
      if s in Urls(init) {
        var j :| 0 <= j < |init| && HasTextUrl(init[j]) && init[j]["url"].s == s;
        assert SameUrl(items[j], item);
      }
      if !IsFirst(items, n) {
        var j :| 0 <= j < n && SameUrl(items[j], item);
        assert init[j] == items[j];
        assert s in Urls(init);
      }
    }
  }

  /**
   * The merged output is exactly the items that are first of their url, in
   * input order: an order-preserving subsequence that keeps, for each url,
   * the first item met.
   */
  lemma {:induction false} MergedIsFirsts(items: seq<Record>)
    ensures Merged(items) == Pick(items, FirstIndices(items))
    decreases |items|
  {
    if items != [] {
      var n := |items| - 1;
      var init := items[..n];
      MergedIsFirsts(init);
      AdmitsIffFirst(items);
      var ix := FirstIndices(init);
      assert Pick(items, ix) == Pick(init, ix);
      if IsFirst(items, n) {
        assert Pick(items, ix + [n]) == Pick(items, ix) + [items[n]];
      }
    }
  }

  // ---------------------------------------------------------------- idempotence

  /** A list whose urls are all truthy and distinct merges to itself. */
  lemma {:induction false} MergedFixes(items: seq<Record>)
    requires AllHaveUrl(items) && NoRepeatedUrl(items)
    ensures Merged(items) == items
    decreases |items|
  {
    if items != [] {
      var n := |items| - 1;
      var init := items[..n];
      var item := items[n];
      assert forall i :: 0 <= i < n ==> init[i] == items[i];
      MergedFixes(init);
      assert !Has(Urls(init), item["url"]) by {
        if Has(Urls(init), item["url"]) {
          var j :| 0 <= j < |init| && HasTextUrl(init[j]) && init[j]["url"].s == item["url"].s;
          assert SameUrl(items[j], items[n]);
        }
      }
      assert init + [item] == items;
      MergedSnoc(init, item);
    }
  }

  /** Merging an output again changes nothing. */
  lemma MergeIdempotent(items: seq<Record>)
    ensures Merged(Merged(items)) == Merged(items)
  {
    MergedFixes(Merged(items));
  }

  /** A folder holding only a previous output file merges back to that output. */
  lemma RemergeOutput(dir: seq<Entry>, name: string)
    requires IsJsonFile(name)
    ensures Merged(Scanned(JsonFiles([Entry(name, Array(Merged(Scanned(JsonFiles(dir)))))]))) == Merged(Scanned(JsonFiles(dir)))
  {
    var out := Merged(Scanned(JsonFiles(dir)));
    var e := Entry(name, Array(out));
    assert [e][..0] == [];
    assert JsonFiles([e]) == [e];
    assert [e][..0] == [];
    assert Scanned([e]) == out;
    MergedFixes(out);
  }

  // ---------------------------------------------------------------- skipped files

  lemma {:induction false} JsonFilesConcat(a: seq<Entry>, b: seq<Entry>)
    ensures JsonFiles(a + b) == JsonFiles(a) + JsonFiles(b)
    decreases |b|
  {
    if b == [] {
      assert a + b == a;
    } else {
      var b' := b[..|b| - 1];
      var e := b[|b| - 1];
      JsonFilesConcat(a, b');
      var tail := if IsJsonFile(e.name) then [e] else [];
      assert (a + b)[..|a + b| - 1] == a + b';
      assert (a + b)[|a + b| - 1] == e;
      assert JsonFiles(a + b) == JsonFiles(a + b') + tail;
      assert JsonFiles(b) == JsonFiles(b') + tail;
    }
  }

  lemma {:induction false} ScannedConcat(a: seq<Entry>, b: seq<Entry>)
    ensures Scanned(a + b) == Scanned(a) + Scanned(b)
    decreases |b|
  {
    if b == [] {
      assert a + b == a;
    } else {
      var init, e := b[..|b| - 1], b[|b| - 1];
      assert (a + b)[..|a + b| - 1] == a + init;
      assert (a + b)[|a + b| - 1] == e;
      ScannedConcat(a, init);
      calc {
        Scanned(a + b);
        Scanned(a + init) + FileItems(e.content);
        (Scanned(a) + Scanned(init)) + FileItems(e.content);
        { assert (Scanned(a) + Scanned(init)) + FileItems(e.content) == Scanned(a) + (Scanned(init) + FileItems(e.content)); }
        Scanned(a) + Scanned(b);
      }
    }
  }

  /** What one entry contributes to the filtered listing. */
  lemma JsonFilesOne(e: Entry)
    ensures JsonFiles([e]) == (if IsJsonFile(e.name) then [e] else [])
  {
    var one := [e];
    assert one[..0] == [] && one[0] == e;
  }

  /** What one file contributes to the scan. */
  lemma ScannedOne(e: Entry)
    ensures Scanned([e]) == (if e.content.Array? then e.content.items else [])
  {
    var one := [e];
    assert one[..0] == [] && one[0] == e;
  }

  /** What one entry contributes to the scan. */
  lemma SingleEntry(e: Entry)
    ensures Scanned(JsonFiles([e])) == (if IsJsonFile(e.name) && e.content.Array? then e.content.items else [])
  {
    JsonFilesOne(e);
    ScannedOne(e);
  }

  lemma ScanSplit(before: seq<Entry>, e: Entry, after: seq<Entry>)
    ensures Scanned(JsonFiles(before + [e] + after)) == Scanned(JsonFiles(before)) + Scanned(JsonFiles([e])) + Scanned(JsonFiles(after))
  {
    JsonFilesConcat(before + [e], after);
    JsonFilesConcat(before, [e]);
    ScannedConcat(JsonFiles(before) + JsonFiles([e]), JsonFiles(after));
    ScannedConcat(JsonFiles(before), JsonFiles([e]));
  }

  /**
   * An entry that is not a `.json` file, or whose content is not an array,
   * contributes nothing: the merge goes on with the later files as if it were
   * not there.
   */
  lemma MergeSkipsEntry(before: seq<Entry>, e: Entry, after: seq<Entry>)
    requires !IsJsonFile(e.name) || e.content.NotArray?
    ensures Scanned(JsonFiles(before + [e] + after)) == Scanned(JsonFiles(before + after))
  {
    var b, a := Scanned(JsonFiles(before)), Scanned(JsonFiles(after));
    calc {
      Scanned(JsonFiles(before + [e] + after));
    == { ScanSplit(before, e, after); SingleEntry(e); }
      b + [] + a;
    == { assert b + [] == b; }
      b + a;
    == { JsonFilesConcat(before, after); ScannedConcat(JsonFiles(before), JsonFiles(after)); }
      Scanned(JsonFiles(before + after));
    }
  }
}
