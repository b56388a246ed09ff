/**
 * The loop every controller runs over its links: scrape each page in turn,
 * drop it when the scraper returned nothing or the site's price rule rejects
 * the record, and push the rest onto `results`. The site rule is a parameter,
 * so the avpay, trade-a-plane and globalair controllers share this model.
 */
module Pipeline {
  import opened Wrappers
  import opened Json

  /** What one page contributes: its record, when there is one and the rule accepts it. */
  function KeepOne<P>(page: P, extract: P -> Option<Record>, accept: Record -> bool): seq<Record> {
    match extract(page)
    case None => []
    case Some(r) => if accept(r) then [r] else []
  }

  /** The records a run over `pages` keeps, in page order. */
  function Kept<P>(pages: seq<P>, extract: P -> Option<Record>, accept: Record -> bool): seq<Record>
    decreases |pages|
  {
    if pages == [] then []
    else Kept(pages[..|pages| - 1], extract, accept) + KeepOne(pages[|pages| - 1], extract, accept)
  }

  /** One more page adds what that page contributes. */
  lemma KeptSnoc<P>(pages: seq<P>, i: nat, extract: P -> Option<Record>, accept: Record -> bool)
    requires i < |pages|
    ensures Kept(pages[..i + 1], extract, accept) == Kept(pages[..i], extract, accept) + KeepOne(pages[i], extract, accept)
  {
    assert pages[..i + 1][..i] == pages[..i];
  }

  /** The rule of a run that keeps every record it gets. */
  predicate KeepAll(r: Record) {
    true
  }

  /** Under `KeepAll` a page contributes its record whenever it yields one. */
  lemma KeepAllOne<P>(page: P, extract: P -> Option<Record>)
    ensures KeepOne(page, extract, KeepAll) == if extract(page).Some? then [extract(page).value] else []
  {
  }

  /** `for (const url of links) { const scraped = await scrapeListing(url); if (!scraped) continue; if (rejected) continue; results.push(scraped); }` */
  method RunSite<P>(pages: seq<P>, extract: P -> Option<Record>, accept: Record -> bool) returns (results: seq<Record>)
    ensures results == Kept(pages, extract, accept)
  {
    results := [];
    for i := 0 to |pages|
      invariant results == Kept(pages[..i], extract, accept)
    {
      assert pages[..i + 1][..i] == pages[..i];
      var scraped := extract(pages[i]);
      if scraped.None? {
        continue;
      }
      if !accept(scraped.value) {
        continue;
      }
      results := results + [scraped.value];
    }
    assert pages[..|pages|] == pages;
  }

  /** Every kept record was extracted from one of the pages and passes the rule. */
  lemma {:induction false} KeptAccepted<P>(pages: seq<P>, extract: P -> Option<Record>, accept: Record -> bool)
    ensures forall r :: r in Kept(pages, extract, accept) ==>
      accept(r) && exists i :: 0 <= i < |pages| && extract(pages[i]) == Some(r)
    decreases |pages|
  {
    if pages != [] {
      var init := pages[..|pages| - 1];
      KeptAccepted(init, extract, accept);
      forall r | r in Kept(init, extract, accept)
        ensures exists i :: 0 <= i < |pages| && extract(pages[i]) == Some(r)
      {
        var i :| 0 <= i < |init| && extract(init[i]) == Some(r);
        assert init[i] == pages[i];
      }
    }
  }

  /** At most one record per page. */
  lemma {:induction false} KeptLength<P>(pages: seq<P>, extract: P -> Option<Record>, accept: Record -> bool)
    ensures |Kept(pages, extract, accept)| <= |pages|
    decreases |pages|
  {
    if pages != [] {
      KeptLength(pages[..|pages| - 1], extract, accept);
    }
  }

  /** Order is preserved: the records for two runs of links back to back are the two results back to back. */
  lemma {:induction false} KeptConcat<P>(a: seq<P>, b: seq<P>, extract: P -> Option<Record>, accept: Record -> bool)
    ensures Kept(a + b, extract, accept) == Kept(a, extract, accept) + Kept(b, extract, accept)
    decreases |b|
  {
    if b == [] {
      assert a + b == a;
    } else {
      var b', x := b[..|b| - 1], b[|b| - 1];
      KeptConcat(a, b', extract, accept);
      assert (a + b)[..|a + b| - 1] == a + b' && (a + b)[|a + b| - 1] == x;
      var ka, kb, one := Kept(a, extract, accept), Kept(b', extract, accept), KeepOne(x, extract, accept);
      calc {
        Kept(a + b, extract, accept);
        Kept(a + b', extract, accept) + one;
        (ka + kb) + one;
        { assert (ka + kb) + one == ka + (kb + one); }
        ka + (kb + one);
        ka + Kept(b, extract, accept);
      }
    }
  }

  /** A page passes when it yields a record that the rule accepts. */
  predicate Passes<P>(page: P, extract: P -> Option<Record>, accept: Record -> bool) {
    extract(page).Some? && accept(extract(page).value)
  }

  /** Exactly one record is kept for each page that passes, whatever the others do. */
  lemma {:induction false} KeptCount<P>(pages: seq<P>, extract: P -> Option<Record>, accept: Record -> bool)
    ensures |Kept(pages, extract, accept)| == |set i | 0 <= i < |pages| && Passes(pages[i], extract, accept)|
    decreases |pages|
  {
    if pages != [] {
      var n := |pages| - 1;
      var init := pages[..n];
      KeptCount(init, extract, accept);
      var before := set i | 0 <= i < n && Passes(init[i], extract, accept);
      var after := set i | 0 <= i < |pages| && Passes(pages[i], extract, accept);
      assert forall i :: 0 <= i < n ==> init[i] == pages[i];
      assert Kept(pages, extract, accept) == Kept(init, extract, accept) + KeepOne(pages[n], extract, accept);
      if Passes(pages[n], extract, accept) {
        assert after == before + {n};
        assert n !in before;
      } else {
        assert after == before;
      }
    }
  }

  /** The positions of the pages that pass, in increasing order. */
  function PassingIndices<P>(pages: seq<P>, extract: P -> Option<Record>, accept: Record -> bool): (ix: seq<nat>)
    ensures forall k :: 0 <= k < |ix| ==> ix[k] < |pages| && Passes(pages[ix[k]], extract, accept)
    ensures forall k, l :: 0 <= k < l < |ix| ==> ix[k] < ix[l]
    ensures forall i :: 0 <= i < |pages| && Passes(pages[i], extract, accept) ==> i in ix
    decreases |pages|
  {
    if pages == [] then []
    else
      var n := |pages| - 1;
      assert forall i :: 0 <= i < n ==> pages[..n][i] == pages[i];
      PassingIndices(pages[..n], extract, accept) + (if Passes(pages[n], extract, accept) then [n] else [])
  }

  /**
   * The kept records are the records of the passing pages, in page order: the
   * result is an order-preserving subsequence of the pages' records.
   */
  lemma {:induction false} KeptInOrder<P>(pages: seq<P>, extract: P -> Option<Record>, accept: Record -> bool)
    ensures |Kept(pages, extract, accept)| == |PassingIndices(pages, extract, accept)|
    ensures forall k :: 0 <= k < |Kept(pages, extract, accept)| ==>
      Kept(pages, extract, accept)[k] == extract(pages[PassingIndices(pages, extract, accept)[k]]).value
    decreases |pages|
  {
    if pages != [] {
      var n := |pages| - 1;
      var init := pages[..n];
      KeptInOrder(init, extract, accept);
      var before := Kept(init, extract, accept);
      var ix := PassingIndices(init, extract, accept);
      var one := KeepOne(pages[n], extract, accept);
      var last := if Passes(pages[n], extract, accept) then [n] else [];
      assert Kept(pages, extract, accept) == before + one;
      assert PassingIndices(pages, extract, accept) == ix + last;
      assert |one| == |last|;
      forall k | 0 <= k < |before + one|
        ensures (before + one)[k] == extract(pages[(ix + last)[k]]).value
      {
        if k < |before| {
          assert init[ix[k]] == pages[ix[k]];
        }
      }
    }
  }
}
