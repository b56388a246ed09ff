/**
 * The work cursor the helitrader crawlers share between their workers:
 * `allUrls`, an `index` that each worker advances with `index++` to claim the
 * next URL, and a `results` array that a worker appends to when its page
 * yields a record.
 *
 * JavaScript runs a worker without interruption between two `await`s. So a
 * claim (`allUrls[index++]`) and a push each happen as one step. Any
 * interleaving of the ten workers is a sequence of `Claim` and `Report` calls
 * in some order, and `Valid` holds after each of them. `Work` is one worker
 * that runs alone, which is what the remaining workers find once the first
 * has taken every index.
 */
module Crawl {
  import opened Wrappers
  import opened Json
  import opened Pipeline

  /** `MAX_CONCURRENT`: the number of workers started. */
  const MaxConcurrent: nat := 10

  class WorkQueue {
    const allUrls: seq<string>
    var index: nat
    var results: seq<Record>
    /** The claimed indices whose page has not been reported yet. */
    ghost var inFlight: set<nat>

    /**
     * The cursor never passes the end of the list. Only claimed indices are in
     * flight. Each claim that has been reported added at most one result.
     */
    ghost predicate Valid()
      reads this
    {
      index <= |allUrls| &&
      (forall s :: s in inFlight ==> s < index) &&
      |results| + |inFlight| <= index
    }

    /** `let index = 0; const results = [];` over the combined URL list. */
    constructor(urls: seq<string>)
      ensures Valid()
      ensures allUrls == urls && index == 0 && results == [] && inFlight == {}
    {
      allUrls := urls;
      index := 0;
      results := [];
      inFlight := {};
    }

    /**
     * `while (index < allUrls.length) { const url = allUrls[index++]; ... }`:
     * a worker's claim. It takes the next index exactly once and stops at the
     * end of the list.
     */
    method Claim() returns (url: Option<string>, ghost slot: nat)
      requires Valid()
      modifies this
      ensures Valid()
      ensures results == old(results)
      ensures old(index) < |allUrls| ==>
        url == Some(allUrls[old(index)]) && slot == old(index) &&
        index == old(index) + 1 && inFlight == old(inFlight) + {slot}
      ensures old(index) == |allUrls| ==>
        url == None && index == old(index) && inFlight == old(inFlight)
    {
      slot := index;
      if index < |allUrls| {
        url := Some(allUrls[index]);
        index := index + 1;
        inFlight := inFlight + {slot};
      } else {
        url := None;
      }
    }

    /** `if (scraped) results.push(scraped);` for the page of a claimed index. */
    method Report(ghost slot: nat, scraped: Option<Record>)
      requires Valid() && slot in inFlight
      modifies this
      ensures Valid()
      ensures index == old(index)
      ensures inFlight == old(inFlight) - {slot}
      ensures results == old(results) + Reported(scraped)
    {
      if scraped.Some? {
        results := results + [scraped.value];
      }
      inFlight := inFlight - {slot};
    }

    /**
     * `worker()` running alone: it claims every remaining index in order,
     * scrapes its URL and reports the result, so the non-null records are
     * appended in list order.
     */
    method Work(scrapePage: string -> Option<Record>)
      requires Valid()
      modifies this
      ensures Valid()
      ensures inFlight == old(inFlight)
      ensures index == |allUrls|
      ensures results == old(results) + Kept(allUrls[old(index)..], scrapePage, KeepAll)
    {
      ghost var start, before := index, results;
      ghost var rest := allUrls[start..];
      assert rest[..0] == [];
      while index < |allUrls|
        invariant Valid() && start <= index <= |allUrls| && inFlight == old(inFlight)
        invariant results == before + Kept(rest[..index - start], scrapePage, KeepAll)
        decreases |allUrls| - index
      {
        ghost var k := index - start;
        ghost var done := Kept(rest[..k], scrapePage, KeepAll);
        assert rest[k] == allUrls[index];
        KeptAllSnoc(rest, k, scrapePage);
        ghost var flying := inFlight;
        assert index !in flying;
        var url, slot := Claim();
        AddThenRemove(flying, slot);
        var scraped := scrapePage(url.value);
        Report(slot, scraped);
        AppendAssoc(before, done, Reported(scraped));
      }
      assert rest[..index - start] == rest;
    }
  }

  /** What a reported page adds to `results`: its record, if it yielded one. */
  function Reported(scraped: Option<Record>): seq<Record> {
    if scraped.Some? then [scraped.value] else []
  }

  /** Under `KeepAll` one more URL adds exactly what reporting its page adds. */
  lemma KeptAllSnoc(urls: seq<string>, k: nat, scrapePage: string -> Option<Record>)
    requires k < |urls|
    ensures Kept(urls[..k + 1], scrapePage, KeepAll) == Kept(urls[..k], scrapePage, KeepAll) + Reported(scrapePage(urls[k]))
  {
    KeptSnoc(urls, k, scrapePage, KeepAll);
    KeepAllOne(urls[k], scrapePage);
  }

  lemma AddThenRemove(s: set<nat>, x: nat)
    requires x !in s
    ensures (s + {x}) - {x} == s
  {
  }

  lemma AppendAssoc<T>(a: seq<T>, b: seq<T>, c: seq<T>)
    ensures (a + b) + c == a + (b + c)
  {
  }

  /** Once every index is claimed and reported, there is at most one result per URL. */
  lemma ResultsBound(q: WorkQueue)
    requires q.Valid() && q.inFlight == {}
    ensures |q.results| <= q.index <= |q.allUrls|
  {
  }
}
