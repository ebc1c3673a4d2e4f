/**
 * `ScraperEngine` of `scraper/scraper.py`: a breadth-first crawl from a seed URL, in waves.
 * Each wave pops a batch of unvisited URLs from the FIFO queue without exceeding the page
 * budget, scrapes every page of the batch, records its extracted data and enqueues the
 * same-domain links it harvested one level deeper. The thread pool of the source only runs the
 * pages of a wave side by side; its lock guards the test-and-set on the visited set, so the
 * waves are modelled sequentially, each batch processed in batch order.
 *
 * The network and the HTML parsers are parameters of the engine: `fetch` gives the body of
 * a successful response or None, and the two parsers are those `Parser.Parse` takes.
 */
module Crawler {
  import opened Wrappers
  import opened Dom
  import opened Urls
  import Parser
  import Filters

  /** The engine's configuration dictionary; an absent key is None. */
  datatype Config = Config(
    maxPages: Option<int>, depth: Option<int>, linksPerPage: Option<int>,
    sections: Option<Filters.Sections>)

  /** `sections` defaults to the empty dictionary: every section off, no domain. */
  const NoSections := Filters.Sections(false, false, false, false, false, false, false, "")

  /** The extracted data of one page, with its `url` key. */
  datatype PageData = PageData(url: string, data: Filters.Extracted)

  /** What `run` returns: the error dictionary or the list of page results. */
  datatype RunResult = Error(message: string) | Pages(pages: seq<PageData>)

  /** A queue entry: a URL and its depth. */
  type Entry = (string, int)

  /** The crawl tree of a run, as ghost bookkeeping: the depth each scheduled URL was
      enqueued at, the page it was found on, and the links each scraped page yielded. */
  datatype Tree = Tree(depthOf: map<string, int>, parent: map<string, string>, harvested: map<string, seq<string>>)

  /** The outcome of each scrape of a run, as ghost bookkeeping. */
  type Scrapes = map<string, Option<PageData>>

  /** `|a| <= |b|` for a subset. */
  lemma SubsetCard<T>(a: set<T>, b: set<T>)
    requires a <= b
    ensures |a| <= |b|
  {
    assert b == a + (b - a);
  }

  /** Moving `x` from `remaining` to the processed part of `all` counts it once in `q`. */
  lemma CountStep<T>(all: set<T>, remaining: set<T>, q: set<T>, x: T)
    requires remaining <= all && x in remaining
    ensures remaining - {x} <= all
    ensures |(all - (remaining - {x})) * q| == |(all - remaining) * q| + (if x in q then 1 else 0)
  {
    var before := (all - remaining) * q;
    if x in q {
      assert (all - (remaining - {x})) * q == before + {x};
    } else {
      assert (all - (remaining - {x})) * q == before;
    }
  }

  /** Helper for `HarvestKept`: removing nothing and keeping a subset leaves the subset. */
  lemma IntersectSubset<T>(all: set<T>, q: set<T>)
    requires q <= all
    ensures (all - {}) * q == q
  {
  }

  /** The hrefs of `raws` whose normalization is kept. */
  ghost function KeptRaws(raws: set<string>, normalize: string -> Option<string>, keep: Option<string> -> bool): set<string>
  {
    set r | r in raws && keep(normalize(r))
  }

  /** The normalizations of the hrefs of `raws` that are kept. */
  ghost function KeptLinks(raws: set<string>, normalize: string -> Option<string>, keep: Option<string> -> bool): set<string>
    requires forall o :: keep(o) ==> o.Some?
  {
    set r | r in raws && keep(normalize(r)) :: normalize(r).value
  }

  /** `normalize_url(url, raw)` as a function of the raw href. */
  function Normalizer(url: string): string -> Option<string>
  {
    (r: string) => NormalizeUrl(url, r)
  }

  /** The test `scrape_page` puts on a normalized link: non-empty, valid, on `domain`. */
  function OnDomain(domain: string): Option<string> -> bool
  {
    (o: Option<string>) => o.Some? && o.value != "" && IsValidUrl(o.value) && GetDomain(o.value) == domain
  }

  /** The loop of `scrape_page` over the raw hrefs, for any normalization and any test on
      its result: each href is normalized, and the result appended when it passes the test,
      until `cap` links are taken. */
  method TakeLinks(raws: set<string>, cap: int, normalize: string -> Option<string>, keep: Option<string> -> bool)
    returns (links: seq<string>)
    requires forall o :: keep(o) ==> o.Some?
    ensures forall l :: l in links ==> l in KeptLinks(raws, normalize, keep)
    ensures var n := |KeptRaws(raws, normalize, keep)|;
      |links| == if cap <= 0 then 0 else if cap < n then cap else n
    ensures |links| < cap ==> forall r :: r in raws && keep(normalize(r)) ==> normalize(r).value in links
  {
    ghost var q := KeptRaws(raws, normalize, keep);
    var remaining := raws;
    var count := 0;
    links := [];
    while remaining != {}
      invariant remaining <= raws
      invariant count == |links| == |(raws - remaining) * q|
      invariant cap <= 0 ==> count == 0
      invariant cap > 0 ==> count <= cap
      invariant forall l :: l in links ==> l in KeptLinks(raws, normalize, keep)
      invariant forall r :: r in raws && r !in remaining && keep(normalize(r)) ==> normalize(r).value in links
      decreases |remaining|
    {
      if count >= cap {
        break;
      }
      var link :| link in remaining;
      CountStep(raws, remaining, q, link);
      remaining := remaining - {link};
      var absLink := normalize(link);
      if keep(absLink) {
        assert link in q;
        links := links + [absLink.value];
        count := count + 1;
      } else {
        assert link !in q;
      }
    }
    SubsetCard((raws - remaining) * q, q);
    if remaining == {} {
      IntersectSubset(raws, q);
    }
  }

  /** Queue entries have distinct URLs, all scheduled, each at its recorded depth. */
  ghost predicate QueueOk(queue: seq<Entry>, depthOf: map<string, int>)
  {
    (forall i, j :: 0 <= i < j < |queue| ==> queue[i].0 != queue[j].0)
    && (forall i :: 0 <= i < |queue| ==> queue[i].0 in depthOf && depthOf[queue[i].0] == queue[i].1)
  }

  /** Enqueueing a URL not yet scheduled keeps the queue's entries distinct. */
  lemma QueueAdds(queue: seq<Entry>, depthOf: map<string, int>, link: string, d: int)
    requires QueueOk(queue, depthOf) && link !in depthOf
    ensures QueueOk(queue + [(link, d)], depthOf[link := d])
  {
  }

  /** The first `n` entries of a well-formed queue form a well-formed queue. */
  lemma QueueTake(queue: seq<Entry>, n: nat, depthOf: map<string, int>)
    requires QueueOk(queue, depthOf) && n <= |queue|
    ensures QueueOk(queue[..n], depthOf)
  {
    forall i | 0 <= i < n ensures queue[..n][i] == queue[i] { }
  }

  /** Dropping the first `n` entries keeps a queue well-formed. */
  lemma QueueDrop(queue: seq<Entry>, n: nat, depthOf: map<string, int>)
    requires QueueOk(queue, depthOf) && n <= |queue|
    ensures QueueOk(queue[n..], depthOf)
  {
    forall i, j | 0 <= i < j < |queue| - n ensures queue[n..][i].0 != queue[n..][j].0 {
      assert queue[n..][i] == queue[n + i] && queue[n..][j] == queue[n + j];
    }
  }

  /** Appending an entry at its recorded depth whose URL is new keeps a queue well-formed. */
  lemma QueueSnoc(queue: seq<Entry>, e: Entry, depthOf: map<string, int>)
    requires QueueOk(queue, depthOf) && e.0 in depthOf && depthOf[e.0] == e.1
    requires forall i :: 0 <= i < |queue| ==> queue[i].0 != e.0
    ensures QueueOk(queue + [e], depthOf)
  {
  }

  /** Entries taken from the first `done` of a well-formed queue differ in URL from the
      rest of it. */
  lemma BeforeApart(q: seq<Entry>, done: nat, batch: seq<Entry>, depthOf: map<string, int>)
    requires QueueOk(q, depthOf) && done <= |q|
    requires forall i :: 0 <= i < |batch| ==> batch[i] in q[..done]
    ensures forall i :: 0 <= i < |batch| ==> batch[i] in q
    ensures forall i, j :: 0 <= i < |batch| && 0 <= j < |q| - done ==> batch[i].0 != q[done..][j].0
  {
    forall i | 0 <= i < |batch| ensures batch[i] in q && forall j :: 0 <= j < |q| - done ==> batch[i].0 != q[done..][j].0 {
      var k :| 0 <= k < done && q[..done][k] == batch[i];
      assert q[k] == batch[i];
      forall j | 0 <= j < |q| - done ensures batch[i].0 != q[done..][j].0 {
        assert q[done..][j] == q[done + j];
      }
    }
  }

  /** The URLs of the entries of `q`. */
  ghost function QueueUrls(q: seq<Entry>): set<string>
  {
    set k | 0 <= k < |q| :: q[k].0
  }

  lemma QueueUrlsSnoc(q: seq<Entry>, e: Entry)
    ensures QueueUrls(q + [e]) == QueueUrls(q) + {e.0}
  {
    assert (q + [e])[|q|] == e;
    forall u | u in QueueUrls(q) ensures u in QueueUrls(q + [e]) {
      var k :| 0 <= k < |q| && q[k].0 == u;
      assert (q + [e])[k] == q[k];
    }
  }

  lemma QueueUrlsSplit(q: seq<Entry>, n: nat)
    requires n <= |q|
    ensures QueueUrls(q) == QueueUrls(q[..n]) + QueueUrls(q[n..])
  {
    forall u | u in QueueUrls(q) ensures u in QueueUrls(q[..n]) + QueueUrls(q[n..]) {
      var k :| 0 <= k < |q| && q[k].0 == u;
      if k < n {
        assert q[..n][k] == q[k];
      } else {
        assert q[n..][k - n] == q[k];
      }
    }
    forall u | u in QueueUrls(q[..n]) ensures u in QueueUrls(q) {
      var k :| 0 <= k < n && q[..n][k].0 == u;
      assert q[k] == q[..n][k];
    }
    forall u | u in QueueUrls(q[n..]) ensures u in QueueUrls(q) {
      var k :| 0 <= k < |q| - n && q[n..][k].0 == u;
      assert q[n + k] == q[n..][k];
    }
  }

  /** Adding the URL of entry `i` to a set holding those of the first `i` entries gives one
      holding those of the first `i + 1`. */
  lemma QueueUrlsStep(q: seq<Entry>, n: nat, v0: set<string>, v1: set<string>, v2: set<string>)
    requires 0 < n <= |q| && v1 == v0 + QueueUrls(q[..n - 1]) && v2 == v1 + {q[n - 1].0}
    requires |v1| == |v0| + n - 1 && q[n - 1].0 !in v1
    ensures v2 == v0 + QueueUrls(q[..n]) && |v2| == |v0| + n
  {
    assert q[..n] == q[..n - 1] + [q[n - 1]];
    QueueUrlsSnoc(q[..n - 1], q[n - 1]);
  }

  /** The entry at `i` of a well-formed batch of unvisited entries is still unvisited once
      the entries before it are. */
  lemma NextUnvisited(batch: seq<Entry>, i: nat, v0: set<string>, v: set<string>, depthOf: map<string, int>)
    requires QueueOk(batch, depthOf) && i < |batch| && forall k :: 0 <= k < |batch| ==> batch[k].0 !in v0
    requires v == v0 + QueueUrls(batch[..i])
    ensures batch[i].0 !in v
  {
    forall k | 0 <= k < i ensures batch[..i][k].0 != batch[i].0 {
      assert batch[..i][k] == batch[k];
    }
  }

  /** Appending an entry, and scheduling its URL, keeps the queue an extension of `q0` that
      holds every URL scheduled since `s0`. */
  lemma ExtendSnoc(q0: seq<Entry>, q: seq<Entry>, e: Entry, s0: set<string>, s: set<string>)
    requires |q| >= |q0| && q[..|q0|] == q0 && s <= s0 + QueueUrls(q)
    ensures |q + [e]| >= |q0| && (q + [e])[..|q0|] == q0 && s + {e.0} <= s0 + QueueUrls(q + [e])
  {
    assert (q + [e])[..|q0|] == q[..|q0|];
    QueueUrlsSnoc(q, e);
  }

  /** Two steps that each only append to the queue, and schedule only what they queue,
      together only append to it and schedule only what they queue. */
  lemma ExtendChain(q0: seq<Entry>, q1: seq<Entry>, q2: seq<Entry>, s0: set<string>, s1: set<string>, s2: set<string>)
    requires |q1| >= |q0| && q1[..|q0|] == q0 && s1 <= s0 + QueueUrls(q1)
    requires |q2| >= |q1| && q2[..|q1|] == q1 && s2 <= s1 + QueueUrls(q2)
    ensures |q2| >= |q0| && q2[..|q0|] == q0 && s2 <= s0 + QueueUrls(q2)
  {
    assert q2[..|q0|] == q1[..|q0|];
    QueueUrlsSplit(q2, |q1|);
  }

  /** The entries of `es` whose URL is not in `seen`, in queue order. */
  ghost function Unvisited(es: seq<Entry>, seen: set<string>): seq<Entry>
  {
    if es == [] then []
    else Unvisited(es[..|es| - 1], seen) + (if es[|es| - 1].0 in seen then [] else [es[|es| - 1]])
  }

  lemma UnvisitedSnoc(es: seq<Entry>, e: Entry, seen: set<string>)
    ensures Unvisited(es + [e], seen) == Unvisited(es, seen) + (if e.0 in seen then [] else [e])
  {
    assert (es + [e])[..|es|] == es;
  }

  /** Every entry of `es` is either seen or kept, and only unseen entries of `es` are kept. */
  lemma {:induction false} UnvisitedCovers(es: seq<Entry>, seen: set<string>)
    ensures forall k :: 0 <= k < |es| ==> es[k].0 in seen || es[k] in Unvisited(es, seen)
    ensures forall k :: 0 <= k < |Unvisited(es, seen)| ==> Unvisited(es, seen)[k] in es && Unvisited(es, seen)[k].0 !in seen
  {
    if es != [] {
      var init, e := es[..|es| - 1], es[|es| - 1];
      assert es == init + [e];
      UnvisitedCovers(init, seen);
      UnvisitedSnoc(init, e, seen);
      forall k | 0 <= k < |es| ensures es[k].0 in seen || es[k] in Unvisited(es, seen) {
        if k < |init| {
          assert es[k] == init[k];
        }
      }
    }
  }

  /** The kept entries of a well-formed queue form a well-formed queue. */
  lemma {:induction false} UnvisitedOk(es: seq<Entry>, seen: set<string>, depthOf: map<string, int>)
    requires QueueOk(es, depthOf)
    ensures QueueOk(Unvisited(es, seen), depthOf)
  {
    if es != [] {
      var init, e := es[..|es| - 1], es[|es| - 1];
      assert es == init + [e];
      assert QueueOk(init, depthOf);
      UnvisitedOk(init, seen, depthOf);
      UnvisitedCovers(init, seen);
      UnvisitedSnoc(init, e, seen);
      var kept := Unvisited(init, seen);
      forall i | 0 <= i < |kept| ensures kept[i].0 != e.0 {
        var k :| 0 <= k < |init| && init[k] == kept[i];
        assert es[k] == init[k];
      }
      QueueSnoc(kept, e, depthOf);
    }
  }

  /** The URLs of the popped entries are seen or are those of the kept entries. */
  lemma UnvisitedUrls(es: seq<Entry>, seen: set<string>)
    ensures QueueUrls(es) <= seen + QueueUrls(Unvisited(es, seen))
  {
    UnvisitedCovers(es, seen);
    var kept := Unvisited(es, seen);
    forall u | u in QueueUrls(es) ensures u in seen + QueueUrls(kept) {
      var k :| 0 <= k < |es| && es[k].0 == u;
      if u !in seen {
        var j :| 0 <= j < |kept| && kept[j] == es[k];
      }
    }
  }

  /** A wave keeps every scheduled URL visited or pending: the popped ones were visited or
      are visited now, the rest are still queued, and the new ones were queued. */
  lemma CoverWave(sched0: set<string>, seen0: set<string>, queue0: seq<Entry>, queue1: seq<Entry>,
                  batch: seq<Entry>, seen1: set<string>, sched1: set<string>, queue2: seq<Entry>)
    requires sched0 <= seen0 + QueueUrls(queue0)
    requires |queue1| <= |queue0| && queue1 == queue0[|queue0| - |queue1|..]
    requires batch == Unvisited(queue0[..|queue0| - |queue1|], seen0)
    requires seen1 == seen0 + QueueUrls(batch)
    requires |queue2| >= |queue1| && queue2[..|queue1|] == queue1 && sched1 <= sched0 + QueueUrls(queue2)
    ensures sched1 <= seen1 + QueueUrls(queue2)
  {
    QueueUrlsSplit(queue0, |queue0| - |queue1|);
    UnvisitedUrls(queue0[..|queue0| - |queue1|], seen0);
    QueueUrlsSplit(queue2, |queue1|);
  }

  /** A queue holds at most as many URLs as entries. */
  lemma {:induction false} QueueUrlsCard(q: seq<Entry>)
    ensures |QueueUrls(q)| <= |q|
  {
    if q != [] {
      var init := q[..|q| - 1];
      assert q == init + [q[|q| - 1]];
      QueueUrlsCard(init);
      QueueUrlsSnoc(init, q[|q| - 1]);
    }
  }

  class ScraperEngine {
    const baseUrl: string
    const maxPages: int
    const maxDepth: int
    const linksPerPage: int
    const domain: string
    const filter: Filters.ContentFilter
    const fetch: string -> Option<string>
    const lxml: string -> Option<Node>
    const htmlParser: string -> Node

    var visited: set<string>
    var results: seq<PageData>

    /** `__init__`: the defaults are 10 pages, depth 2 and 5 links per page. */
    constructor(baseUrl: string, config: Config, fetch: string -> Option<string>,
                lxml: string -> Option<Node>, htmlParser: string -> Node)
      ensures this.baseUrl == baseUrl && this.fetch == fetch && this.lxml == lxml && this.htmlParser == htmlParser
      ensures maxPages == config.maxPages.GetOr(10) && maxDepth == config.depth.GetOr(2)
      ensures linksPerPage == config.linksPerPage.GetOr(5)
      ensures domain == GetDomain(baseUrl) && filter.config == config.sections.GetOr(NoSections)
      ensures visited == {} && results == []
    {
      this.baseUrl := baseUrl;
      this.maxPages := config.maxPages.GetOr(10);
      this.maxDepth := config.depth.GetOr(2);
      this.linksPerPage := config.linksPerPage.GetOr(5);
      this.domain := GetDomain(baseUrl);
      this.filter := new Filters.ContentFilter(config.sections.GetOr(NoSections));
      this.fetch := fetch;
      this.lxml := lxml;
      this.htmlParser := htmlParser;
      this.visited := {};
      this.results := [];
    }

    /** The parsed document of a URL: None when the fetch fails or the body is empty. */
    function PageOf(url: string): Option<Node>
    {
      match fetch(url)
      case None => None
      case Some(body) => Parser.Parse(body, lxml, htmlParser)
    }

    /** A raw href of the page at `url` that is kept: it normalizes to a non-empty, valid
        URL on the seed's domain. */
    predicate Qualifies(url: string, raw: string)
    {
      var n := NormalizeUrl(url, raw);
      n.Some? && n.value != "" && IsValidUrl(n.value) && GetDomain(n.value) == domain
    }

    /** The links a page can yield: the normalized forms of its qualifying raw hrefs. */
    ghost function Harvestable(url: string, raws: set<string>): set<string>
    {
      set r | r in raws && Qualifies(url, r) :: NormalizeUrl(url, r).value
    }

    /** The crawl edge `from -> to`: `to` is a link the page at `from` can yield. */
    ghost predicate LinksTo(from: string, to: string)
    {
      PageOf(from).Some? && to in Harvestable(from, Parser.RawLinks(PageOf(from).value))
    }

    /** The raw hrefs of `raws` that are kept. */
    ghost function QualifyingRaws(url: string, raws: set<string>): set<string>
    {
      set r | r in raws && Qualifies(url, r)
    }

    /** The `for link in raw_links` loop of `scrape_page`: at most `links_per_page` links,
        taken in the set's iteration order, each the normalization of a qualifying href; as
        many as there are qualifying hrefs up to the cap, and all of them below it. */
    method HarvestLinks(url: string, raws: set<string>) returns (links: seq<string>)
      ensures forall l :: l in links ==> l in Harvestable(url, raws)
      ensures var n := |QualifyingRaws(url, raws)|;
        |links| == if linksPerPage <= 0 then 0 else if linksPerPage < n then linksPerPage else n
      ensures |links| < linksPerPage ==> forall r :: r in raws && Qualifies(url, r) ==> NormalizeUrl(url, r).value in links
    {
      HarvestKept(url, raws);
      links := TakeLinks(raws, linksPerPage, Normalizer(url), OnDomain(domain));
    }

    /** `Qualifies`, `QualifyingRaws` and `Harvestable` are the generic loop's test and sets
        for the normalization against `url` and the test of the seed's domain. */
    lemma HarvestKept(url: string, raws: set<string>)
      ensures forall o :: OnDomain(domain)(o) ==> o.Some?
      ensures forall r :: OnDomain(domain)(Normalizer(url)(r)) == Qualifies(url, r)
      ensures KeptRaws(raws, Normalizer(url), OnDomain(domain)) == QualifyingRaws(url, raws)
      ensures KeptLinks(raws, Normalizer(url), OnDomain(domain)) == Harvestable(url, raws)
    {
    }

    /** `scrape_page(url, current_depth)`: marks the URL visited; a URL already visited, a
        failed fetch or an empty body gives no data and no links; links are harvested only
        below the depth horizon. */
    method ScrapePage(url: string, depth: int) returns (data: Option<PageData>, links: seq<string>)
      modifies this
      ensures visited == old(visited) + {url} && results == old(results)
      ensures url in old(visited) ==> data.None? && links == []
      ensures url !in old(visited) ==> (data.Some? <==> PageOf(url).Some?)
      ensures data.Some? ==> data.value == PageData(url, Filters.ExtractOf(filter.config, PageOf(url), url))
      ensures links != [] ==> url !in old(visited) && depth < maxDepth && PageOf(url).Some?
      ensures forall l :: l in links ==> LinksTo(url, l)
      ensures linksPerPage <= 0 ==> links == []
      ensures |links| <= linksPerPage || links == []
      ensures depth >= maxDepth ==> links == []
      ensures url !in old(visited) && depth < maxDepth && PageOf(url).Some? ==>
        var raws := Parser.RawLinks(PageOf(url).value);
        var n := |QualifyingRaws(url, raws)|;
        && |links| == (if linksPerPage <= 0 then 0 else if linksPerPage < n then linksPerPage else n)
        && (|links| < linksPerPage ==> forall r :: r in raws && Qualifies(url, r) ==> NormalizeUrl(url, r).value in links)
    {
      if url in visited {
        return None, [];
      }
      visited := visited + {url};
      var response := fetch(url);
      if response.None? {
        return None, [];
      }
      var soup := Parser.Parse(response.value, lxml, htmlParser);
      if soup.None? {
        return None, [];
      }
      var extracted := filter.Extract(soup, url);
      data := Some(PageData(url, extracted));
      links := [];
      if depth < maxDepth {
        var rawLinks := Parser.ExtractLinks(soup, url);
        links := HarvestLinks(url, rawLinks);
      }
    }

    // ---------------------------------------------------------------- run

    /** `u` hangs below its parent in the crawl tree: the parent is a page scraped in this
        run (visited now, not in `visited0`), at a depth from 1 up to the horizon, one level
        up, and `u` is one of the links it yielded. */
    ghost predicate Edge(visited0: set<string>, visited: set<string>, t: Tree, u: string)
    {
      u in t.depthOf && u in t.parent && t.parent[u] in t.depthOf && t.parent[u] in visited && t.parent[u] !in visited0
      && t.depthOf[u] == t.depthOf[t.parent[u]] + 1 && 1 <= t.depthOf[t.parent[u]] < maxDepth
      && t.parent[u] in t.harvested && u in t.harvested[t.parent[u]]
    }

    /** The crawl tree: the seed at depth 1, every other scheduled URL on an edge, and only
        pages scraped in this run have yielded links. */
    ghost predicate TreeOk(visited0: set<string>, visited: set<string>, t: Tree)
    {
      baseUrl in t.depthOf && t.depthOf[baseUrl] == 1 && t.harvested.Keys <= visited
      && forall u :: u in t.depthOf && u != baseUrl ==> Edge(visited0, visited, t, u)
    }

    /** What each page yielded is what its page can yield. */
    ghost predicate HarvestOk(harvested: map<string, seq<string>>)
    {
      forall p, l {:trigger LinksTo(p, l)} :: p in harvested && l in harvested[p] ==> LinksTo(p, l)
    }

    /** Every page scraped in this run above the depth horizon has had all the links it
        yielded scheduled. */
    ghost predicate Closed(t: Tree)
    {
      t.harvested.Keys <= t.depthOf.Keys
      && forall p :: p in t.harvested && t.depthOf[p] < maxDepth ==> forall l :: l in t.harvested[p] ==> l in t.depthOf
    }

    /** The bookkeeping of a crawl since `visited0`: a well-formed queue of scheduled URLs,
        the pages scraped in this run among the scheduled ones, the crawl tree, closed and
        with its yields crawl edges, and the recorded scrapes with the results in step. */
    ghost predicate Books(visited0: set<string>, queue: seq<Entry>, scheduled: set<string>, t: Tree, scraped: Scrapes)
      reads this
    {
      && QueueOk(queue, t.depthOf) && scheduled == t.depthOf.Keys
      && visited0 <= visited && visited - visited0 <= scheduled
      && TreeOk(visited0, visited, t) && HarvestOk(t.harvested) && Closed(t)
      && ScrapesOk(scraped) && ResultsOk(visited0, visited, results, scraped)
    }

    /** The bookkeeping at the start of a crawl: the seed queued and scheduled at depth 1,
        nothing scraped and no results. */
    lemma BooksStart()
      requires results == []
      ensures Books(visited, [(baseUrl, 1)], {baseUrl}, Tree(map[baseUrl := 1], map[], map[]), map[])
      ensures {baseUrl} <= visited + QueueUrls([(baseUrl, 1)])
    {
      assert [(baseUrl, 1)][0].0 == baseUrl;
    }

    /** The bookkeeping holds for any well-formed queue of scheduled URLs. */
    lemma BooksRequeue(visited0: set<string>, queue0: seq<Entry>, queue: seq<Entry>, scheduled: set<string>, t: Tree, scraped: Scrapes)
      requires Books(visited0, queue0, scheduled, t, scraped) && QueueOk(queue, t.depthOf)
      ensures Books(visited0, queue, scheduled, t, scraped)
    {
    }

    /** Recording what `url` yielded and scheduling those links keeps the tree closed. */
    lemma ClosedAfterVisit(t0: Tree, t: Tree, url: string, links: seq<string>)
      requires Closed(t0) && url in t0.depthOf
      requires t.harvested == t0.harvested[url := links]
      requires t0.depthOf.Keys <= t.depthOf.Keys && forall u :: u in t0.depthOf ==> t.depthOf[u] == t0.depthOf[u]
      requires t.depthOf[url] < maxDepth ==> forall l :: l in links ==> l in t.depthOf
      ensures Closed(t)
    {
      forall p | p in t.harvested && t.depthOf[p] < maxDepth ensures forall l :: l in t.harvested[p] ==> l in t.depthOf {
        if p != url {
          assert t0.depthOf[p] < maxDepth;
        }
      }
    }

    /** Following parents from a URL scheduled below the seed reaches the seed, which was
        therefore scraped. */
    lemma {:induction false} SeedAncestor(visited0: set<string>, visited: set<string>, t: Tree, u: string)
      requires TreeOk(visited0, visited, t) && u in t.depthOf && u != baseUrl
      ensures baseUrl in visited
      decreases t.depthOf[u]
    {
      assert Edge(visited0, visited, t, u);
      var p := t.parent[u];
      if p != baseUrl {
        SeedAncestor(visited0, visited, t, p);
      }
    }

    /** On a fresh engine with a positive budget, a crawl that has stopped has scraped the
        seed: the seed is scheduled, and stopping leaves it either visited or queued, and
        with nothing visited the queue would be empty or would exceed what is scheduled. */
    lemma SeedScraped(q: seq<Entry>, t: Tree)
      requires 0 < maxPages && TreeOk({}, visited, t) && visited <= t.depthOf.Keys
      requires t.depthOf.Keys <= visited + QueueUrls(q)
      requires q == [] || |visited| >= maxPages || |t.depthOf.Keys| >= maxPages + |q|
      ensures baseUrl in visited
    {
      if visited != {} {
        var u :| u in visited;
        if u != baseUrl {
          SeedAncestor({}, visited, t, u);
        }
      } else {
        QueueUrlsCard(q);
        SubsetCard(t.depthOf.Keys, QueueUrls(q));
        SubsetCard({baseUrl}, t.depthOf.Keys);
      }
    }

    /** Visiting one more page keeps every edge. */
    lemma TreeGrows(visited0: set<string>, visited: set<string>, t: Tree, url: string)
      requires TreeOk(visited0, visited, t)
      ensures TreeOk(visited0, visited + {url}, t)
    {
      forall u | u in t.depthOf && u != baseUrl ensures Edge(visited0, visited + {url}, t, u) {
        assert Edge(visited0, visited, t, u);
      }
    }

    /** Recording what a page scraped for the first time yielded keeps every edge. */
    lemma TreeHarvest(visited0: set<string>, visited: set<string>, t: Tree, url: string, links: seq<string>)
      requires TreeOk(visited0, visited, t) && url !in visited
      ensures TreeOk(visited0, visited + {url}, t.(harvested := t.harvested[url := links]))
    {
      var t' := t.(harvested := t.harvested[url := links]);
      forall u | u in t'.depthOf && u != baseUrl ensures Edge(visited0, visited + {url}, t', u) {
        assert Edge(visited0, visited, t, u);
      }
    }

    /** Scheduling a link yielded by a page scraped in this run adds an edge. */
    lemma TreeAdds(visited0: set<string>, visited: set<string>, t: Tree, url: string, link: string)
      requires TreeOk(visited0, visited, t)
      requires link !in t.depthOf && url in t.depthOf && url in visited && url !in visited0
      requires t.depthOf[url] < maxDepth && url in t.harvested && link in t.harvested[url]
      ensures TreeOk(visited0, visited, t.(depthOf := t.depthOf[link := t.depthOf[url] + 1], parent := t.parent[link := url]))
    {
      var t' := t.(depthOf := t.depthOf[link := t.depthOf[url] + 1], parent := t.parent[link := url]);
      if url != baseUrl {
        assert Edge(visited0, visited, t, url);
      }
      forall u | u in t'.depthOf && u != baseUrl ensures Edge(visited0, visited, t', u) {
        if u != link {
          assert Edge(visited0, visited, t, u);
        }
      }
    }

    /** The outcome of scraping `u` for the first time: its data when it fetches and parses. */
    ghost function Expected(u: string): Option<PageData>
    {
      match PageOf(u)
      case None => None
      case Some(_) => Some(PageData(u, Filters.ExtractOf(filter.config, PageOf(u), u)))
    }

    /** Every recorded scrape outcome is the expected one. */
    ghost predicate ScrapesOk(scraped: Scrapes)
    {
      forall u {:trigger Expected(u)} :: u in scraped ==> scraped[u] == Expected(u)
    }

    lemma ScrapesAdd(scraped: Scrapes, url: string, data: Option<PageData>)
      requires ScrapesOk(scraped) && data == Expected(url)
      ensures ScrapesOk(scraped[url := data])
    {
    }

    /** The results of this run: the pages scraped in it are those visited since `visited0`;
        there is one result per scrape that gave data, in no other order than scraping
        order, with distinct URLs. */
    ghost predicate ResultsOk(visited0: set<string>, visited: set<string>, results: seq<PageData>,
                              scraped: Scrapes)
    {
      scraped.Keys == visited - visited0
      && (forall i, j :: 0 <= i < j < |results| ==> results[i].url != results[j].url)
      && (forall k :: 0 <= k < |results| ==> results[k].url in scraped && scraped[results[k].url] == Some(results[k]))
      && (forall u :: u in scraped && scraped[u].Some? ==> exists k :: 0 <= k < |results| && results[k].url == u)
    }

    /** A run that visited nothing new has no results. */
    lemma NothingScraped(visited0: set<string>, visited: set<string>, results: seq<PageData>, scraped: Scrapes)
      requires ResultsOk(visited0, visited, results, scraped)
      ensures visited == visited0 ==> results == []
    {
      if results != [] {
        assert results[0].url in scraped;
      }
    }

    /** Recording the outcome of a first scrape of `url` keeps the results in step with the
        scrapes. */
    lemma ResultsGrow(visited0: set<string>, visited: set<string>, results: seq<PageData>,
                      scraped: Scrapes, url: string, data: Option<PageData>)
      requires ResultsOk(visited0, visited, results, scraped) && url !in visited && visited0 <= visited
      requires data.Some? ==> data.value.url == url
      ensures ResultsOk(visited0, visited + {url}, if data.Some? then results + [data.value] else results, scraped[url := data])
    {
      var results' := if data.Some? then results + [data.value] else results;
      var scraped' := scraped[url := data];
      if data.Some? {
        forall i, j | 0 <= i < j < |results'| ensures results'[i].url != results'[j].url {
          if j == |results| {
            assert results[i].url in scraped;
          }
        }
      }
      forall k | 0 <= k < |results'| ensures results'[k].url in scraped' && scraped'[results'[k].url] == Some(results'[k]) {
        if k < |results| {
          assert results[k].url in scraped;
        }
      }
      forall u | u in scraped' && scraped'[u].Some? ensures exists k :: 0 <= k < |results'| && results'[k].url == u {
        if u != url {
          var k :| 0 <= k < |results| && results[k].url == u;
          assert results'[k] == results[k];
        } else {
          assert results'[|results|].url == u;
        }
      }
    }

    /** The batch loop of `run`: pops entries while the scheduled count allows and the
        budget is not reached, skipping URLs already visited. */
    method NextBatch(queue0: seq<Entry>, scheduled: set<string>, ghost depthOf: map<string, int>)
      returns (batch: seq<Entry>, queue: seq<Entry>)
      requires QueueOk(queue0, depthOf)
      ensures QueueOk(queue, depthOf) && QueueOk(batch, depthOf)
      ensures |queue| <= |queue0| && queue == queue0[|queue0| - |queue|..]
      ensures forall i :: 0 <= i < |batch| ==> batch[i].0 !in visited && batch[i] in queue0
      ensures forall i, j :: 0 <= i < |batch| && 0 <= j < |queue| ==> batch[i].0 != queue[j].0
      ensures batch != [] ==> |visited| + |batch| <= maxPages
      ensures batch == Unvisited(queue0[..|queue0| - |queue|], visited)
      ensures queue == [] || |scheduled| >= maxPages + |queue| || |visited| + |batch| >= maxPages
    {
      queue := queue0;
      batch := [];
      ghost var done := 0;
      while queue != [] && |scheduled| < maxPages + |queue|
        invariant done <= |queue0| && queue == queue0[done..]
        invariant batch == Unvisited(queue0[..done], visited)
        invariant batch != [] ==> |visited| + |batch| <= maxPages
        decreases |queue|
      {
        if |visited| + |batch| >= maxPages {
          break;
        }
        var entry := queue[0];
        PopStep(queue0, done, batch, visited);
        queue, done := queue[1..], done + 1;
        if entry.0 in visited {
          continue;
        }
        batch := batch + [entry];
      }
      PoppedFacts(queue0, done, batch, depthOf);
    }

    /** Popping the head of the queue keeps the batch loop's invariants: the rest is still a
        well-formed suffix, and the batch gains the head exactly when it is unvisited. */
    lemma PopStep(queue0: seq<Entry>, done: nat, batch: seq<Entry>, seen: set<string>)
      requires done < |queue0| && batch == Unvisited(queue0[..done], seen)
      ensures queue0[done..][1..] == queue0[done + 1..] && queue0[done..][0] == queue0[done]
      ensures Unvisited(queue0[..done + 1], seen) == if queue0[done].0 in seen then batch else batch + [queue0[done]]
    {
      assert queue0[..done + 1] == queue0[..done] + [queue0[done]];
      UnvisitedSnoc(queue0[..done], queue0[done], seen);
    }

    /** What the batch loop leaves: the kept entries are unvisited, well-formed, taken from
        the popped part and apart from what remains queued. */
    lemma PoppedFacts(queue0: seq<Entry>, done: nat, batch: seq<Entry>, depthOf: map<string, int>)
      requires QueueOk(queue0, depthOf) && done <= |queue0|
      requires batch == Unvisited(queue0[..done], visited)
      ensures QueueOk(queue0[done..], depthOf) && QueueOk(batch, depthOf)
      ensures forall i :: 0 <= i < |batch| ==> batch[i].0 !in visited && batch[i] in queue0
      ensures forall i, j :: 0 <= i < |batch| && 0 <= j < |queue0| - done ==> batch[i].0 != queue0[done..][j].0
    {
      QueueTake(queue0, done, depthOf);
      QueueDrop(queue0, done, depthOf);
      UnvisitedOk(queue0[..done], visited, depthOf);
      UnvisitedCovers(queue0[..done], visited);
      BeforeApart(queue0, done, batch, depthOf);
    }

    /** The `for link in new_links` loop: each link not yet scheduled is scheduled and
        enqueued one level below its page. */
    method EnqueueLinks(url: string, depth: int, links: seq<string>, queue0: seq<Entry>, scheduled0: set<string>,
                        ghost visited0: set<string>, ghost tree0: Tree)
      returns (queue: seq<Entry>, scheduled: set<string>, ghost tree: Tree)
      requires QueueOk(queue0, tree0.depthOf) && scheduled0 == tree0.depthOf.Keys && TreeOk(visited0, visited, tree0)
      requires url in visited && url !in visited0 && url in tree0.depthOf && tree0.depthOf[url] == depth && depth < maxDepth
      requires url in tree0.harvested && tree0.harvested[url] == links
      ensures QueueOk(queue, tree.depthOf) && scheduled == tree.depthOf.Keys && TreeOk(visited0, visited, tree)
      ensures forall l :: l in links ==> l in scheduled
      ensures tree0.depthOf.Keys <= tree.depthOf.Keys && tree.harvested == tree0.harvested
      ensures forall u :: u in tree0.depthOf ==> tree.depthOf[u] == tree0.depthOf[u]
      ensures |queue| >= |queue0| && queue[..|queue0|] == queue0
      ensures scheduled <= scheduled0 + QueueUrls(queue)
    {
      queue, scheduled, tree := queue0, scheduled0, tree0;
      var j := 0;
      while j < |links|
        invariant 0 <= j <= |links|
        invariant QueueOk(queue, tree.depthOf) && scheduled == tree.depthOf.Keys && TreeOk(visited0, visited, tree)
        invariant forall k :: 0 <= k < j ==> links[k] in scheduled
        invariant tree0.depthOf.Keys <= tree.depthOf.Keys && tree.harvested == tree0.harvested
        invariant forall u :: u in tree0.depthOf ==> tree.depthOf[u] == tree0.depthOf[u]
        invariant |queue| >= |queue0| && queue[..|queue0|] == queue0
        invariant scheduled <= scheduled0 + QueueUrls(queue)
      {
        var link := links[j];
        if link !in scheduled {
          assert link in tree.harvested[url] && tree.depthOf[url] == depth;
          TreeAdds(visited0, visited, tree, url, link);
          QueueAdds(queue, tree.depthOf, link, depth + 1);
          ExtendSnoc(queue0, queue, (link, depth + 1), scheduled0, scheduled);
          scheduled := scheduled + {link};
          queue := queue + [(link, depth + 1)];
          tree := tree.(depthOf := tree.depthOf[link := depth + 1], parent := tree.parent[link := url]);
        }
        j := j + 1;
      }
    }

    /** The processing of one wave: every page of the batch is scraped, its data appended,
        and its new links enqueued one level deeper when its depth allows. */
    method RunBatch(batch: seq<Entry>, queue0: seq<Entry>, scheduled0: set<string>,
                    ghost visited0: set<string>, ghost tree0: Tree, ghost scraped0: Scrapes)
      returns (queue: seq<Entry>, scheduled: set<string>, ghost tree: Tree, ghost scraped: Scrapes)
      modifies this
      requires Books(visited0, queue0, scheduled0, tree0, scraped0) && QueueOk(batch, tree0.depthOf)
      requires forall i :: 0 <= i < |batch| ==> batch[i].0 !in visited
      ensures Books(visited0, queue, scheduled, tree, scraped)
      ensures visited == old(visited) + QueueUrls(batch) && |visited| == |old(visited)| + |batch|
      ensures |queue| >= |queue0| && queue[..|queue0|] == queue0 && scheduled <= scheduled0 + QueueUrls(queue)
    {
      queue, scheduled, tree, scraped := queue0, scheduled0, tree0, scraped0;
      var i := 0;
      while i < |batch|
        invariant 0 <= i <= |batch|
        invariant Books(visited0, queue, scheduled, tree, scraped)
        invariant forall k :: 0 <= k < |batch| ==> batch[k].0 in tree.depthOf && tree.depthOf[batch[k].0] == batch[k].1
        invariant visited == old(visited) + QueueUrls(batch[..i]) && |visited| == |old(visited)| + i
        invariant |queue| >= |queue0| && queue[..|queue0|] == queue0 && scheduled <= scheduled0 + QueueUrls(queue)
      {
        var url, depth := batch[i].0, batch[i].1;
        NextUnvisited(batch, i, old(visited), visited, tree0.depthOf);
        ghost var queueBefore, scheduledBefore, visitedBefore := queue, scheduled, visited;
        queue, scheduled, tree, scraped := VisitEntry(url, depth, queue, scheduled, visited0, tree, scraped);
        ExtendChain(queue0, queueBefore, queue, scheduled0, scheduledBefore, scheduled);
        i := i + 1;
        QueueUrlsStep(batch, i, old(visited), visitedBefore, visited);
      }
      assert batch[..i] == batch;
    }

    /** One entry of a wave: the page is scraped, its data appended when there is some, and
        its links enqueued when its depth allows. */
    method VisitEntry(url: string, depth: int, queue0: seq<Entry>, scheduled0: set<string>,
                      ghost visited0: set<string>, ghost tree0: Tree, ghost scraped0: Scrapes)
      returns (queue: seq<Entry>, scheduled: set<string>, ghost tree: Tree, ghost scraped: Scrapes)
      modifies this
      requires Books(visited0, queue0, scheduled0, tree0, scraped0)
      requires url !in visited && url in tree0.depthOf && tree0.depthOf[url] == depth
      ensures Books(visited0, queue, scheduled, tree, scraped)
      ensures visited == old(visited) + {url} && |visited| == |old(visited)| + 1
      ensures url in tree.harvested && (depth < maxDepth ==> forall l :: l in tree.harvested[url] ==> l in scheduled)
      ensures |queue| >= |queue0| && queue[..|queue0|] == queue0 && scheduled <= scheduled0 + QueueUrls(queue)
      ensures tree0.depthOf.Keys <= tree.depthOf.Keys && forall u :: u in tree0.depthOf ==> tree.depthOf[u] == tree0.depthOf[u]
    {
      ghost var visitedBefore, resultsBefore := visited, results;
      var data, newLinks := ScrapePage(url, depth);
      if data.Some? {
        results := results + [data.value];
      }
      scraped := scraped0[url := data];
      ghost var harvested := tree0.(harvested := tree0.harvested[url := newLinks]);
      if depth < maxDepth {
        TreeHarvest(visited0, visitedBefore, tree0, url, newLinks);
        queue, scheduled, tree := EnqueueLinks(url, depth, newLinks, queue0, scheduled0, visited0, harvested);
      } else {
        queue, scheduled, tree := queue0, scheduled0, harvested;
      }
      VisitBooks(visited0, visitedBefore, resultsBefore, queue0, scheduled0, tree0, scraped0, url, data, newLinks, queue, scheduled, tree);
    }

    /** The bookkeeping after one entry of a wave, from the bookkeeping before it. */
    lemma VisitBooks(visited0: set<string>, visitedBefore: set<string>, resultsBefore: seq<PageData>,
                     queue0: seq<Entry>, scheduled0: set<string>, tree0: Tree, scraped0: Scrapes,
                     url: string, data: Option<PageData>, links: seq<string>,
                     queue: seq<Entry>, scheduled: set<string>, tree: Tree)
      requires QueueOk(queue0, tree0.depthOf) && scheduled0 == tree0.depthOf.Keys
      requires visited0 <= visitedBefore && visitedBefore - visited0 <= scheduled0
      requires TreeOk(visited0, visitedBefore, tree0) && HarvestOk(tree0.harvested) && Closed(tree0)
      requires ScrapesOk(scraped0) && ResultsOk(visited0, visitedBefore, resultsBefore, scraped0)
      requires url !in visitedBefore && url in tree0.depthOf
      requires visited == visitedBefore + {url} && results == if data.Some? then resultsBefore + [data.value] else resultsBefore
      requires data == Expected(url) && (data.Some? ==> data.value.url == url) && forall l :: l in links ==> LinksTo(url, l)
      requires tree0.depthOf[url] >= maxDepth ==> queue == queue0 && scheduled == scheduled0 && tree == tree0.(harvested := tree0.harvested[url := links])
      requires tree0.depthOf[url] < maxDepth ==>
        && QueueOk(queue, tree.depthOf) && scheduled == tree.depthOf.Keys && TreeOk(visited0, visitedBefore + {url}, tree)
        && (forall l :: l in links ==> l in scheduled)
        && tree0.depthOf.Keys <= tree.depthOf.Keys && tree.harvested == tree0.harvested[url := links]
        && (forall u :: u in tree0.depthOf ==> tree.depthOf[u] == tree0.depthOf[u])
      ensures Books(visited0, queue, scheduled, tree, scraped0[url := data])
    {
      if tree0.depthOf[url] >= maxDepth {
        TreeHarvest(visited0, visitedBefore, tree0, url, links);
      }
      HarvestAdd(tree0.harvested, url, links);
      ResultsGrow(visited0, visitedBefore, resultsBefore, scraped0, url, data);
      ScrapesAdd(scraped0, url, data);
      ClosedAfterVisit(tree0, tree, url, links);
    }

    /** Recording a page's harvested links keeps every yield a crawl edge. */
    lemma HarvestAdd(harvested: map<string, seq<string>>, url: string, links: seq<string>)
      requires HarvestOk(harvested) && forall l :: l in links ==> LinksTo(url, l)
      ensures HarvestOk(harvested[url := links])
    {
    }

    /** One pass of the outer loop of `run`: a batch is popped; an empty one stops the crawl,
        otherwise every page of it is processed. Every scheduled URL stays visited or queued. */
    method Wave(queue0: seq<Entry>, scheduled0: set<string>, ghost visited0: set<string>, ghost tree0: Tree, ghost scraped0: Scrapes)
      returns (stop: bool, queue: seq<Entry>, scheduled: set<string>, ghost tree: Tree, ghost scraped: Scrapes)
      modifies this
      requires Books(visited0, queue0, scheduled0, tree0, scraped0) && scheduled0 <= visited + QueueUrls(queue0)
      requires queue0 != [] && |visited| < maxPages
      ensures Books(visited0, queue, scheduled, tree, scraped) && scheduled <= visited + QueueUrls(queue)
      ensures stop ==> visited == old(visited) && (queue == [] || |scheduled| >= maxPages + |queue| || |visited| >= maxPages)
      ensures !stop ==> |old(visited)| < |visited| <= maxPages
      ensures old(visited) <= visited
    {
      var batch;
      batch, queue := NextBatch(queue0, scheduled0, tree0.depthOf);
      BooksRequeue(visited0, queue0, queue, scheduled0, tree0, scraped0);
      if batch == [] {
        CoverWave(scheduled0, visited, queue0, queue, batch, visited, scheduled0, queue);
        stop, scheduled, tree, scraped := true, scheduled0, tree0, scraped0;
      } else {
        ghost var visitedBefore, queueMid := visited, queue;
        queue, scheduled, tree, scraped := RunBatch(batch, queue, scheduled0, visited0, tree0, scraped0);
        CoverWave(scheduled0, visitedBefore, queue0, queueMid, batch, visited, scheduled, queue);
        stop := false;
      }
    }

    /** `run()`: the error dictionary for an invalid seed, with nothing fetched or visited;
        otherwise the crawl, whose results replace the previous ones. The visited set is not
        reset between runs. The crawl stops with the queue `q` empty, the budget spent, or
        the scheduled count at the budget plus what is still queued; every scheduled URL is
        then visited or still queued, and every page scraped above the depth horizon has had
        its links scheduled. */
    method Run() returns (r: RunResult, ghost q: seq<Entry>, ghost tree: Tree, ghost scraped: Scrapes)
      modifies this
      ensures !IsValidUrl(baseUrl) ==> r == Error("Invalid Base URL") && visited == old(visited) && results == old(results)
      ensures IsValidUrl(baseUrl) ==> r == Pages(results) && ResultsOk(old(visited), visited, results, scraped) && ScrapesOk(scraped)
      ensures IsValidUrl(baseUrl) ==> TreeOk(old(visited), visited, tree) && HarvestOk(tree.harvested) && Closed(tree)
      ensures IsValidUrl(baseUrl) ==> QueueOk(q, tree.depthOf) && tree.depthOf.Keys <= visited + QueueUrls(q)
      ensures IsValidUrl(baseUrl) ==> q == [] || |visited| >= maxPages || |tree.depthOf.Keys| >= maxPages + |q|
      ensures IsValidUrl(baseUrl) && old(visited) == {} && 0 < maxPages ==> baseUrl in visited
      ensures old(visited) <= visited && visited - old(visited) <= tree.depthOf.Keys
      ensures |visited| <= maxPages || visited == old(visited)
      ensures IsValidUrl(baseUrl) && maxPages <= |old(visited)| ==> results == []
    {
      tree, scraped, q := Tree(map[baseUrl := 1], map[], map[]), map[], [];
      if !IsValidUrl(baseUrl) {
        r := Error("Invalid Base URL");
      } else {
        ghost var visited0 := visited;
        var queue: seq<Entry> := [(baseUrl, 1)];
        results := [];
        var scheduled := {baseUrl};
        BooksStart();
        while queue != [] && |visited| < maxPages
          invariant Books(visited0, queue, scheduled, tree, scraped) && scheduled <= visited + QueueUrls(queue)
          invariant (|visited0| < |visited| <= maxPages) || visited == visited0
          decreases maxPages - |visited|
        {
          var stop;
          stop, queue, scheduled, tree, scraped := Wave(queue, scheduled, visited0, tree, scraped);
          if stop {
            break;
          }
        }
        if visited0 == {} && 0 < maxPages {
          SeedScraped(queue, tree);
        }
        NothingScraped(visited0, visited, results, scraped);
        r, q := Pages(results), queue;
      }
    }
  }
}
