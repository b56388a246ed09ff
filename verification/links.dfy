/**
 * Where the crawl lists come from: a newline-delimited links file
 * (`loadLinks`), the `<loc>` entries of a sitemap (`getSitemapLinks`), and
 * the union of two sitemaps without repeats (`[...new Set([...a, ...b])]`).
 * Also the politeness delay, with the random draw given as an integer.
 */
module Links {
  import opened Wrappers
  import opened Text

  // ---------------------------------------------------------------- links file

  /** `lines.map(x => x.trim())`. */
  function TrimAll(lines: seq<string>): (r: seq<string>)
    ensures |r| == |lines|
    ensures forall k :: 0 <= k < |r| ==> r[k] == Trim(lines[k]) && IsTrimmed(r[k])
  {
    seq(|lines|, i requires 0 <= i < |lines| => Trim(lines[i]))
  }

  /** Trimming each line of a concatenation trims each part, in order. */
  lemma TrimAllConcat(a: seq<string>, b: seq<string>)
    ensures TrimAll(a + b) == TrimAll(a) + TrimAll(b)
  {
    assert forall k :: 0 <= k < |a| ==> (a + b)[k] == a[k];
    assert forall k :: |a| <= k < |a| + |b| ==> (a + b)[k] == b[k - |a|];
  }

  /** `loadLinks`: the file's lines, trimmed, with the blank ones dropped. */
  function LoadLinks(text: string): (r: seq<string>)
    ensures |r| <= |Split(text, "\n")|
    ensures forall k :: 0 <= k < |r| ==> r[k] != [] && IsTrimmed(r[k])
  {
    var lines := TrimAll(Split(text, "\n"));
    DropEmptyTrimmed(lines);
    DropEmpty(lines)
  }

  /** A single line loads as its trimmed text, or as nothing when it is blank. */
  lemma LoadLinksLine(line: string)
    requires '\n' !in line
    ensures LoadLinks(line) == if Trim(line) == [] then [] else [Trim(line)]
  {
    CharAbsent(line, '\n');
    var lines := Split(line, "\n");
    assert lines == [line];
    var trimmed := TrimAll(lines);
    assert |trimmed| == 1 && trimmed[0] == Trim(line);
  }

  /** The links of two blocks of lines joined by a newline are those of the first block, then of the second. */
  lemma LoadLinksConcat(a: string, b: string)
    ensures LoadLinks(a + "\n" + b) == LoadLinks(a) + LoadLinks(b)
  {
    FirstCharOnce("\n");
    SplitConcat(a, "\n", b);
    TrimAllConcat(Split(a, "\n"), Split(b, "\n"));
    DropEmptyConcat(TrimAll(Split(a, "\n")), TrimAll(Split(b, "\n")));
  }

  lemma {:induction false} DropEmptyKeepsNonEmpty(parts: seq<string>)
    requires forall k :: 0 <= k < |parts| ==> parts[k] != []
    ensures DropEmpty(parts) == parts
    decreases |parts|
  {
    if parts != [] {
      DropEmptyKeepsNonEmpty(parts[1..]);
    }
  }

  /** Trimming lines that are already trimmed changes nothing. */
  lemma TrimAllTrimmed(lines: seq<string>)
    requires forall k :: 0 <= k < |lines| ==> IsTrimmed(lines[k])
    ensures TrimAll(lines) == lines
  {
    forall k | 0 <= k < |lines| ensures Trim(lines[k]) == lines[k] {
      TrimKeepsTrimmed(lines[k]);
    }
  }

  /**
   * A links file written one URL per line loads back as exactly those URLs,
   * repeats included: loading does not deduplicate.
   */
  lemma LoadLinksOfFile(urls: seq<string>)
    requires forall k :: 0 <= k < |urls| ==> urls[k] != [] && IsTrimmed(urls[k]) && '\n' !in urls[k]
    ensures LoadLinks(Join(urls, "\n")) == urls
  {
    if urls == [] {
      assert Join(urls, "\n") == [];
      EmptyFileHasNoLinks();
    } else {
      assert "\n"[0] == '\n';
      JoinThenSplit(urls, "\n");
      TrimAllTrimmed(urls);
      DropEmptyKeepsNonEmpty(urls);
    }
  }

  /** An empty file is one blank line, which is dropped. */
  lemma EmptyFileHasNoLinks()
    ensures LoadLinks([]) == []
  {
    assert IndexOf([], "\n") == None;
    var lines := Split([], "\n");
    assert lines == [[]];
    TrimAllTrimmed(lines);
    assert DropEmpty(lines) == [];
  }

  // ---------------------------------------------------------------- politeness delay

  /** `20000 + Math.floor(Math.random() * 10000)` for a draw `k` of the integer part. */
  function DelayMs(draw: nat): (ms: nat)
    requires draw < 10000
    ensures 20000 <= ms < 30000
  {
    20000 + draw
  }

  // ---------------------------------------------------------------- sitemap

  const LocOpen: string := "<loc>"
  const LocClose: string := "</loc>"

  /**
   * The capture of the lazy `(.*?)<\/loc>` in `s`: the length of the shortest
   * prefix free of line terminators that is followed by `</loc>`, if any.
   */
  function CloseAt(s: string): (n: Option<nat>)
    ensures n.Some? ==> n.value + |LocClose| <= |s| && StartsWith(s[n.value..], LocClose)
    ensures n.Some? ==> forall j :: 0 <= j < n.value ==> !IsLineTerminator(s[j]) && !StartsWith(s[j..], LocClose)
    decreases |s|
  {
    if StartsWith(s, LocClose) then Some(0)
    else if s == [] || IsLineTerminator(s[0]) then None
    else
      SuffixesOfTail(s);
      match CloseAt(s[1..])
      case None => None
      case Some(n) => Some(n + 1)
  }

  /** What a sitemap capture never holds: a line break or a `</loc>`. */
  predicate IsLocText(u: string) {
    (forall j :: 0 <= j < |u| ==> !IsLineTerminator(u[j])) && !Contains(u, LocClose)
  }

  /**
   * `[...xml.matchAll(/<loc>(.*?)<\/loc>/g)].map(m => m[1])`: scanning left to
   * right, each `<loc>` that has a `</loc>` later on its own line yields the
   * text up to the nearest such `</loc>`, and the scan resumes after it.
   */
  function Locs(xml: string): (r: seq<string>)
    ensures forall k :: 0 <= k < |r| ==> IsLocText(r[k])
    decreases |xml|
  {
    if xml == [] then []
    else if !StartsWith(xml, LocOpen) then Locs(xml[1..])
    else
      var body := xml[|LocOpen|..];
      match CloseAt(body)
      case None => Locs(xml[1..])
      case Some(n) =>
        NoOccurrenceBefore(body, n, LocClose);
        assert forall j :: 0 <= j < n ==> body[..n][j] == body[j];
        [body[..n]] + Locs(body[n + |LocClose|..])
  }

  /** A sitemap listing `urls` in `<loc>` elements, one after the other. */
  function Sitemap(urls: seq<string>): string {
    if urls == [] then [] else LocOpen + urls[0] + LocClose + Sitemap(urls[1..])
  }

  /** What a URL in a well-formed sitemap looks like: no `<` (XML escapes it) and no line break. */
  predicate PlainUrl(u: string) {
    forall j :: 0 <= j < |u| ==> u[j] != '<' && !IsLineTerminator(u[j])
  }

  lemma {:induction false} CloseAfterPlain(u: string, rest: string)
    requires PlainUrl(u)
    ensures CloseAt(u + LocClose + rest) == Some(|u|)
    decreases |u|
  {
    var s := u + LocClose + rest;
    if u == [] {
      assert s[..|LocClose|] == LocClose;
    } else {
      assert s[0] == u[0] && u[0] != '<' && LocClose[0] == '<';
      assert !StartsWith(s, LocClose) by {
        assert s[..|LocClose|][0] != LocClose[0];
      }
      assert !IsLineTerminator(s[0]);
      assert s[1..] == u[1..] + LocClose + rest;
      CloseAfterPlain(u[1..], rest);
    }
  }

  /** A `<loc>` element holding a plain URL at the head of the text yields that URL, and the scan resumes after it. */
  lemma LocAtStart(u: string, rest: string)
    requires PlainUrl(u)
    ensures Locs(LocOpen + (u + LocClose + rest)) == [u] + Locs(rest)
  {
    var xml := LocOpen + (u + LocClose + rest);
    assert xml[..|LocOpen|] == LocOpen;
    var body := xml[|LocOpen|..];
    assert body == u + LocClose + rest;
    CloseAfterPlain(u, rest);
    assert body[..|u|] == u;
    assert body[|u| + |LocClose|..] == rest;
  }

  /** Text with no `<loc>` in it yields nothing. */
  lemma {:induction false} LocsOfJunk(junk: string)
    requires !Contains(junk, LocOpen)
    ensures Locs(junk) == []
    decreases |junk|
  {
    if junk != [] {
      assert !StartsWith(junk[0..], LocOpen);
      NotContainsTail(junk, LocOpen);
      LocsOfJunk(junk[1..]);
    }
  }

  /**
   * Whatever precedes the first `<loc>` is skipped: text free of `<loc>`,
   * then an element holding a plain URL, yields that URL and then what the
   * rest yields.
   */
  lemma {:induction false} LocsAfterJunk(junk: string, u: string, rest: string)
    requires !Contains(junk, LocOpen) && PlainUrl(u)
    ensures Locs(junk + LocOpen + u + LocClose + rest) == [u] + Locs(rest)
    decreases |junk|
  {
    var t := u + LocClose + rest;
    var xml := junk + LocOpen + u + LocClose + rest;
    assert xml == junk + LocOpen + t;
    if junk == [] {
      assert xml == LocOpen + t;
      LocAtStart(u, rest);
    } else {
      FirstCharOnce(LocOpen);
      NoneBefore(junk, LocOpen, t);
      assert !StartsWith(xml[0..], LocOpen);
      assert xml[1..] == junk[1..] + LocOpen + u + LocClose + rest;
      NotContainsTail(junk, LocOpen);
      LocsAfterJunk(junk[1..], u, rest);
    }
  }

  /** Reading back a sitemap of plain URLs gives the URLs, in order and with repeats. */
  lemma {:induction false} LocsOfSitemap(urls: seq<string>)
    requires forall k :: 0 <= k < |urls| ==> PlainUrl(urls[k])
    ensures Locs(Sitemap(urls)) == urls
    decreases |urls|
  {
    if urls != [] {
      var u := urls[0];
      var rest := Sitemap(urls[1..]);
      assert Sitemap(urls) == LocOpen + (u + LocClose + rest);
      LocAtStart(u, rest);
      LocsOfSitemap(urls[1..]);
    }
  }

  // ---------------------------------------------------------------- deduplication

  predicate Distinct(s: seq<string>) {
    forall i, j :: 0 <= i < j < |s| ==> s[i] != s[j]
  }

  /** `[...new Set(xs)]`: each element once, in the order a `Set` first received it. */
  function Dedup(xs: seq<string>): (r: seq<string>)
    ensures Distinct(r)
    ensures forall x :: x in r <==> x in xs
    decreases |xs|
  {
    if xs == [] then []
    else
      var d := Dedup(xs[..|xs| - 1]);
      var x := xs[|xs| - 1];
      assert forall y :: y in xs <==> y in xs[..|xs| - 1] || y == x by {
        assert xs == xs[..|xs| - 1] + [x];
      }
      if x in d then d else d + [x]
  }

  /** Where `x` first occurs in `xs`. */
  function First(xs: seq<string>, x: string): (i: nat)
    requires x in xs
    ensures i < |xs| && xs[i] == x && x !in xs[..i]
    decreases |xs|
  {
    var init := xs[..|xs| - 1];
    if x in init then
      var i := First(init, x);
      assert xs[..i] == init[..i];
      i
    else
      |xs| - 1
  }

  /** The kept elements appear in the order of their first occurrences. */
  lemma {:induction false} DedupFirstSeenOrder(xs: seq<string>)
    ensures forall i, j :: 0 <= i < j < |Dedup(xs)| ==> First(xs, Dedup(xs)[i]) < First(xs, Dedup(xs)[j])
    decreases |xs|
  {
    if xs != [] {
      var init := xs[..|xs| - 1];
      var x := xs[|xs| - 1];
      var d := Dedup(init);
      DedupFirstSeenOrder(init);
      assert forall y :: y in init ==> First(xs, y) == First(init, y);
      if x !in d {
        assert x !in init;
        assert First(xs, x) == |xs| - 1;
        forall i | 0 <= i < |d| ensures First(xs, d[i]) < |xs| - 1 {
          assert d[i] in init;
        }
      }
    }
  }

  /** A list without repeats is left as it is, and only such a list is: deduplicating twice is deduplicating once. */
  lemma {:induction false} DedupKeepsDistinct(xs: seq<string>)
    ensures Dedup(xs) == xs <==> Distinct(xs)
    ensures Dedup(Dedup(xs)) == Dedup(xs)
    decreases |xs|
  {
    if xs != [] {
      var init := xs[..|xs| - 1];
      DedupKeepsDistinct(init);
      if Distinct(xs) {
        assert Distinct(init);
        assert xs[|xs| - 1] !in init;
        assert init + [xs[|xs| - 1]] == xs;
      }
    }
    forall ys | Distinct(ys) ensures Dedup(ys) == ys {
      DedupOfDistinct(ys);
    }
  }

  lemma {:induction false} DedupOfDistinct(ys: seq<string>)
    requires Distinct(ys)
    ensures Dedup(ys) == ys
    decreases |ys|
  {
    if ys != [] {
      var init := ys[..|ys| - 1];
      DedupOfDistinct(init);
      assert ys[|ys| - 1] !in init;
      assert init + [ys[|ys| - 1]] == ys;
    }
  }

  /** The combined crawl list of two sitemaps: every URL of either, once each, in first-seen order. */
  lemma CombinedList(urls1: seq<string>, urls2: seq<string>)
    ensures Distinct(Dedup(urls1 + urls2))
    ensures forall u :: u in Dedup(urls1 + urls2) <==> u in urls1 || u in urls2
    ensures |Dedup(urls1 + urls2)| <= |urls1| + |urls2|
  {
    DedupLength(urls1 + urls2);
  }

  lemma {:induction false} DedupLength(xs: seq<string>)
    ensures |Dedup(xs)| <= |xs|
    decreases |xs|
  {
    if xs != [] {
      DedupLength(xs[..|xs| - 1]);
    }
  }
}
