/**
  The change-detection engine of `OptiSignsScraper`: `scrape_article` turns one
  fetched article into normalised Markdown plus its content hash, and
  `scrape_all` classifies the first `limit` catalog entries as added, updated,
  unchanged (skipped) or failed against the persisted metadata, writing the
  article cache and collecting the delta list of `"{id}.md"` file names.
 */
module ScraperEngine {
  import opened Wrappers
  import opened Text
  import opened ScraperMarkdown
  import opened ScraperListing

  /**
    The collaborators the engine cannot see into: the HTML-to-Markdown
    conversion (BeautifulSoup tag removal and `html2text`) and the MD5 hex
    digest of `get_article_hash`. Both are deterministic functions.
   */
  datatype Env = Env(toMarkdown: string -> string, md5: string -> string)

  /**
    The `article` object of the item endpoint, with `get(key, default)` applied:
    `body` is `None` when missing or null; the other fields carry their defaults
    (`''`, `'Untitled'`, `''`) when missing.
   */
  datatype Article = Article(body: Option<string>, htmlUrl: string, title: string, updatedAt: string)

  /** One item fetch: the `article` object, or `None` for any failed or empty response, and the clock reading. */
  datatype Fetch = Fetch(article: Option<Article>, now: string)

  /** The dictionary `scrape_article` returns. */
  datatype ArticleData = ArticleData(
    markdown: string, hash: string, url: string, title: string, updatedAt: string, scrapedAt: string)

  /** One persisted metadata record, keyed by article id. */
  datatype Record = Record(hash: string, url: string, title: string, filename: string, lastUpdated: string)

  datatype Stats = Stats(added: nat, updated: nat, skipped: nat, failed: nat)

  datatype Outcome = Added | Updated | Unchanged | Failed

  /** A processed catalog entry: its id and what `scrape_article` made of it. */
  datatype Item = Item(id: string, data: Option<ArticleData>)

  /** The engine's working state: metadata, article cache (file name to content), counters, delta list. */
  datatype RunState = RunState(
    metadata: map<string, Record>, cache: map<string, string>, stats: Stats, delta: seq<string>)

  function FileName(id: string): string {
    id + ".md"
  }

  function Total(s: Stats): nat {
    s.added + s.updated + s.skipped + s.failed
  }

  const NoStats := Stats(0, 0, 0, 0)

  // ---------------------------------------------------------------------------
  // scrape_article

  /** `not markdown or markdown == f"Article URL: {article_url}\n\n"` */
  predicate IsStub(markdown: string, url: string) {
    markdown == [] || markdown == Header(url)
  }

  /** What `scrape_article` returns for one fetch. */
  function Scraped(fetched: Option<Article>, now: string, env: Env): Option<ArticleData> {
    match fetched
    case None => None
    case Some(a) =>
      var md := Normalized(a.body, a.htmlUrl, env.toMarkdown);
      if IsStub(md, a.htmlUrl) then None
      else Some(ArticleData(md, env.md5(md), a.htmlUrl, a.title, a.updatedAt, now))
  }

  method ScrapeArticle(fetched: Option<Article>, now: string, env: Env) returns (data: Option<ArticleData>)
    ensures data == Scraped(fetched, now, env)
    ensures data.Some? ==> data.value.hash == env.md5(data.value.markdown)
  {
    if fetched.None? {
      return None;
    }
    var article := fetched.value;
    var markdown := CleanHtmlToMarkdown(article.body, article.htmlUrl, env.toMarkdown);
    if IsStub(markdown, article.htmlUrl) {
      return None;
    }
    data := Some(ArticleData(markdown, env.md5(markdown), article.htmlUrl, article.title,
                             article.updatedAt, now));
  }

  /**
    An item fails exactly when the fetch gave nothing, the body is missing or
    empty, or the converted body is only whitespace; otherwise its hash is the
    digest of the whole Markdown, header line included.
   */
  lemma ScrapedSucceeds(fetched: Option<Article>, now: string, env: Env)
    ensures Scraped(fetched, now, env).Some? <==>
      && fetched.Some?
      && fetched.value.body.Some?
      && fetched.value.body.value != []
      && !AllSpace(env.toMarkdown(fetched.value.body.value))
    ensures Scraped(fetched, now, env).Some? ==>
      var d := Scraped(fetched, now, env).value;
      && d.hash == env.md5(d.markdown)
      && d.url == fetched.value.htmlUrl
      && d.markdown[..|Header(d.url)|] == Header(d.url)
      && d.scrapedAt == now
  {
    if fetched.Some? {
      NormalizedShape(fetched.value.body, fetched.value.htmlUrl, env.toMarkdown);
    }
  }

  // ---------------------------------------------------------------------------
  // One step of scrape_all

  /** The classification of one item against the metadata as it stands when the item is reached. */
  function Classify(metadata: map<string, Record>, item: Item): Outcome {
    if item.data.None? then Failed
    else if item.id !in metadata then Added
    else if metadata[item.id].hash != item.data.value.hash then Updated
    else Unchanged
  }

  /** The body of the `for` loop of `scrape_all`, on the working state. */
  function Step(s: RunState, item: Item): RunState {
    match Classify(s.metadata, item)
    case Failed => s.(stats := s.stats.(failed := s.stats.failed + 1))
    case Unchanged => s.(stats := s.stats.(skipped := s.stats.skipped + 1))
    case Updated =>
      var d, f := item.data.value, FileName(item.id);
      RunState(
        s.metadata[item.id := s.metadata[item.id].(hash := d.hash, lastUpdated := d.scrapedAt)],
        s.cache[f := d.markdown],
        s.stats.(updated := s.stats.updated + 1),
        s.delta + [f])
    case Added =>
      var d, f := item.data.value, FileName(item.id);
      RunState(
        s.metadata[item.id := Record(d.hash, d.url, d.title, f, d.scrapedAt)],
        s.cache[f := d.markdown],
        s.stats.(added := s.stats.added + 1),
        s.delta + [f])
  }

  /**
    The metadata transitions: a new id gets a complete record; a changed hash
    rewrites only `hash` and `last_updated`; unchanged and failed items leave
    the metadata and the cache alone. No other id is touched.
   */
  lemma StepTransition(s: RunState, item: Item)
    ensures var s', o := Step(s, item), Classify(s.metadata, item);
      && (forall k :: k in s.metadata && k != item.id ==> k in s'.metadata && s'.metadata[k] == s.metadata[k])
      && (o == Added ==>
            var d := item.data.value;
            && s'.metadata == s.metadata[item.id := Record(d.hash, d.url, d.title, FileName(item.id), d.scrapedAt)]
            && s'.cache == s.cache[FileName(item.id) := d.markdown]
            && s'.delta == s.delta + [FileName(item.id)])
      && (o == Updated ==>
            var before, after := s.metadata[item.id], s'.metadata[item.id];
            && s'.metadata.Keys == s.metadata.Keys
            && after.hash == item.data.value.hash && after.hash != before.hash
            && after.lastUpdated == item.data.value.scrapedAt
            && after.url == before.url && after.title == before.title && after.filename == before.filename
            && s'.cache == s.cache[FileName(item.id) := item.data.value.markdown]
            && s'.delta == s.delta + [FileName(item.id)])
      && (o == Unchanged || o == Failed ==>
            s'.metadata == s.metadata && s'.cache == s.cache && s'.delta == s.delta)
  {
  }

  // ---------------------------------------------------------------------------
  // The whole loop of scrape_all, as a function of the processed items

  function Run(s: RunState, items: seq<Item>): RunState {
    if items == [] then s
    else Step(Run(s, items[..|items| - 1]), items[|items| - 1])
  }

  /** The classification of each item, in processing order. */
  function Outcomes(s: RunState, items: seq<Item>): (r: seq<Outcome>)
    ensures |r| == |items|
  {
    if items == [] then []
    else
      var n := |items| - 1;
      Outcomes(s, items[..n]) + [Classify(Run(s, items[..n]).metadata, items[n])]
  }

  /** The file names of the items classified `Added` or `Updated`, in order. */
  function ChangedFiles(items: seq<Item>, outcomes: seq<Outcome>): seq<string>
    requires |items| == |outcomes|
  {
    if items == [] then []
    else
      var n := |items| - 1;
      ChangedFiles(items[..n], outcomes[..n])
        + if outcomes[n] == Added || outcomes[n] == Updated then [FileName(items[n].id)] else []
  }

  /** The number of items for which `scrape_article` gave nothing. */
  function FailureCount(items: seq<Item>): nat {
    if items == [] then 0
    else FailureCount(items[..|items| - 1]) + if items[|items| - 1].data.None? then 1 else 0
  }

  /** The ids of the items that were scraped successfully. */
  function ScrapedIds(items: seq<Item>): set<string> {
    set i | 0 <= i < |items| && items[i].data.Some? :: items[i].id
  }

  /** Every record's file name is derived from its id. */
  predicate FileNamesFromIds(metadata: map<string, Record>) {
    forall k :: k in metadata ==> metadata[k].filename == FileName(k)
  }

  /** Every processed item is counted exactly once. */
  lemma {:induction false} RunCountsEveryItem(s: RunState, items: seq<Item>)
    ensures Total(Run(s, items).stats) == Total(s.stats) + |items|
  {
    if items != [] {
      RunCountsEveryItem(s, items[..|items| - 1]);
    }
  }

  /** The delta list grows by one entry for each item counted as added or updated. */
  lemma {:induction false} RunDeltaLength(s: RunState, items: seq<Item>)
    ensures var r := Run(s, items);
      |r.delta| + s.stats.added + s.stats.updated == |s.delta| + r.stats.added + r.stats.updated
  {
    if items != [] {
      RunDeltaLength(s, items[..|items| - 1]);
    }
  }

  /** The delta list gets exactly the file names of the added and updated items, in processing order. */
  lemma {:induction false} RunDeltaIsChangedFiles(s: RunState, items: seq<Item>)
    ensures Run(s, items).delta == s.delta + ChangedFiles(items, Outcomes(s, items))
  {
    if items != [] {
      var n := |items| - 1;
      RunDeltaIsChangedFiles(s, items[..n]);
      var outs := Outcomes(s, items);
      assert outs[..n] == Outcomes(s, items[..n]);
    }
  }

  /** Failures are exactly the items `scrape_article` rejected, whatever the metadata says. */
  lemma {:induction false} RunFailures(s: RunState, items: seq<Item>)
    ensures Run(s, items).stats.failed == s.stats.failed + FailureCount(items)
  {
    if items != [] {
      RunFailures(s, items[..|items| - 1]);
    }
  }

  /** How many of the outcomes are `o`. */
  function Count(outcomes: seq<Outcome>, o: Outcome): nat {
    if outcomes == [] then 0
    else Count(outcomes[..|outcomes| - 1], o) + if outcomes[|outcomes| - 1] == o then 1 else 0
  }

  /**
    Each counter counts its own outcome: `added` the items classified `Added`,
    `updated` the `Updated` ones, `skipped` the `Unchanged` ones and `failed`
    the `Failed` ones.
   */
  lemma {:induction false} RunCountsOutcomes(s: RunState, items: seq<Item>)
    ensures var r, outs := Run(s, items).stats, Outcomes(s, items);
      && r.added == s.stats.added + Count(outs, Added)
      && r.updated == s.stats.updated + Count(outs, Updated)
      && r.skipped == s.stats.skipped + Count(outs, Unchanged)
      && r.failed == s.stats.failed + Count(outs, Failed)
  {
    if items != [] {
      var n := |items| - 1;
      RunCountsOutcomes(s, items[..n]);
      var outs := Outcomes(s, items);
      assert outs[..n] == Outcomes(s, items[..n]);
      assert outs[n] == Classify(Run(s, items[..n]).metadata, items[n]);
    }
  }

  /**
    Ids are only ever added: the metadata afterwards knows the old ids plus the
    ids of the items that were scraped successfully, and the `url`, `title` and
    `filename` of an existing record never change.
   */
  lemma {:induction false} RunKeys(s: RunState, items: seq<Item>)
    ensures Run(s, items).metadata.Keys == s.metadata.Keys + ScrapedIds(items)
    ensures forall k :: k in s.metadata ==>
      var a, b := s.metadata[k], Run(s, items).metadata[k];
      a.url == b.url && a.title == b.title && a.filename == b.filename
  {
    if items != [] {
      var n := |items| - 1;
      RunKeys(s, items[..n]);
      assert ScrapedIds(items) == ScrapedIds(items[..n]) + (if items[n].data.Some? then {items[n].id} else {}) by {
        assert forall i :: 0 <= i < n ==> items[..n][i] == items[i];
      }
    }
  }

  /** Records written by the engine keep `filename == id + ".md"`. */
  lemma {:induction false} RunKeepsFileNames(s: RunState, items: seq<Item>)
    requires FileNamesFromIds(s.metadata)
    ensures FileNamesFromIds(Run(s, items).metadata)
  {
    if items != [] {
      RunKeepsFileNames(s, items[..|items| - 1]);
    }
  }

  /** An id that no processed item carries keeps its record. */
  lemma {:induction false} RunLeavesOthers(s: RunState, items: seq<Item>, k: string)
    requires k in s.metadata
    requires forall i :: 0 <= i < |items| ==> items[i].id != k
    ensures k in Run(s, items).metadata && Run(s, items).metadata[k] == s.metadata[k]
  {
    if items != [] {
      var n := |items| - 1;
      assert forall i :: 0 <= i < n ==> items[..n][i] == items[i];
      RunLeavesOthers(s, items[..n], k);
    }
  }

  /**
    When every successfully scraped item is already on record with the same
    hash, the run is quiet: nothing is added or updated, and the metadata, the
    cache and the delta list are as they were.
   */
  lemma {:induction false} RunQuiet(s: RunState, items: seq<Item>)
    requires forall i :: 0 <= i < |items| && items[i].data.Some? ==>
      items[i].id in s.metadata && s.metadata[items[i].id].hash == items[i].data.value.hash
    ensures var r := Run(s, items);
      && r.metadata == s.metadata && r.cache == s.cache && r.delta == s.delta
      && r.stats.added == s.stats.added && r.stats.updated == s.stats.updated
  {
    if items != [] {
      var n := |items| - 1;
      assert forall i :: 0 <= i < n ==> items[..n][i] == items[i];
      RunQuiet(s, items[..n]);
    }
  }

  /**
    Any two successful scrapes of the same id agree on the hash. This holds
    when no id repeats, and also when the catalog lists an article twice and
    both scrapes see the same content.
   */
  predicate ConsistentHashes(items: seq<Item>) {
    forall i, j :: 0 <= i < j < |items| && items[i].id == items[j].id && items[i].data.Some? && items[j].data.Some? ==>
      items[i].data.value.hash == items[j].data.value.hash
  }

  /**
    When repeated scrapes of an id agree on the hash, every successfully
    scraped item ends up on record with its hash.
   */
  lemma {:induction false} RunRecordsHashes(s: RunState, items: seq<Item>)
    requires ConsistentHashes(items)
    ensures forall i :: 0 <= i < |items| && items[i].data.Some? ==>
      items[i].id in Run(s, items).metadata && Run(s, items).metadata[items[i].id].hash == items[i].data.value.hash
  {
    if items != [] {
      var n := |items| - 1;
      var prefix := items[..n];
      assert forall i :: 0 <= i < n ==> prefix[i] == items[i];
      RunRecordsHashes(s, prefix);
      var before := Run(s, prefix);
      forall i | 0 <= i < |items| && items[i].data.Some?
        ensures items[i].id in Run(s, items).metadata && Run(s, items).metadata[items[i].id].hash == items[i].data.value.hash
      {
        StepTransition(before, items[n]);
        if i < n {
          assert prefix[i] == items[i];
        }
      }
    }
  }

  /**
    Re-running on the same content changes nothing: after one run over `items`
    whose repeated scrapes of an id agree on the hash, a second run over
    `items'` adds and updates nothing, writes no file and sends no file name
    to the uploader. The second run sees the
    same ids in the same order, and whenever it scrapes an item, that item was
    scraped in the first run with the same hash; everything else, the
    `scraped_at` clock readings included, may differ.
   */
  lemma SecondRunIsQuiet(metadata: map<string, Record>, cache: map<string, string>,
                         items: seq<Item>, items': seq<Item>)
    requires ConsistentHashes(items)
    requires |items'| == |items|
    requires forall i :: 0 <= i < |items| ==> items'[i].id == items[i].id
    requires forall i :: 0 <= i < |items| && items'[i].data.Some? ==>
      items[i].data.Some? && items'[i].data.value.hash == items[i].data.value.hash
    ensures var first := Run(RunState(metadata, cache, NoStats, []), items);
      var second := Run(RunState(first.metadata, first.cache, NoStats, []), items');
      && second.delta == []
      && second.stats.added == 0 && second.stats.updated == 0
      && second.metadata == first.metadata && second.cache == first.cache
  {
    var first := Run(RunState(metadata, cache, NoStats, []), items);
    RunRecordsHashes(RunState(metadata, cache, NoStats, []), items);
    RunQuiet(RunState(first.metadata, first.cache, NoStats, []), items');
  }

  // ---------------------------------------------------------------------------
  // scrape_all

  /** The items processed for these catalog entries and fetch responses: entry `i` is scraped from `fetches[i]`. */
  function Items(infos: seq<ArticleInfo>, fetches: seq<Fetch>, env: Env): (r: seq<Item>)
    requires |fetches| >= |infos|
    ensures |r| == |infos|
  {
    if infos == [] then
      []
    else
      var n := |infos| - 1;
      Items(infos[..n], fetches, env) + [Item(infos[n].id, Scraped(fetches[n].article, fetches[n].now, env))]
  }

  /**
    One pass of the `for` loop of `scrape_all` after `scrape_article` has
    answered: bump one counter and, for an added or updated item, save the
    article, write its metadata and append its file name to the delta list.
   */
  method RecordItem(metadata: map<string, Record>, cache: map<string, string>, stats: Stats,
                    delta: seq<string>, articleId: string, articleData: Option<ArticleData>)
    returns (metadata': map<string, Record>, cache': map<string, string>, stats': Stats, delta': seq<string>)
    ensures RunState(metadata', cache', stats', delta')
         == Step(RunState(metadata, cache, stats, delta), Item(articleId, articleData))
  {
    metadata', cache', stats', delta' := metadata, cache, stats, delta;
    if articleData.None? {
      stats' := stats'.(failed := stats'.failed + 1);
      return;
    }
    var data := articleData.value;
    var filename := articleId + ".md";
    if articleId in metadata' {
      if metadata'[articleId].hash != data.hash {
        stats' := stats'.(updated := stats'.updated + 1);
        cache' := cache'[filename := data.markdown];
        metadata' := metadata'[articleId := metadata'[articleId].(hash := data.hash, lastUpdated := data.scrapedAt)];
        delta' := delta' + [filename];
      } else {
        stats' := stats'.(skipped := stats'.skipped + 1);
      }
    } else {
      stats' := stats'.(added := stats'.added + 1);
      cache' := cache'[filename := data.markdown];
      metadata' := metadata'[articleId := Record(data.hash, data.url, data.title, filename, data.scrapedAt)];
      delta' := delta' + [filename];
    }
  }

  /**
    The `for` loop of `scrape_all` over the entries kept by `[:limit]`, starting
    from the loaded `metadata` and the article files in `cache`; `fetches[i]` is
    the item endpoint's answer for `toScrape[i]`.
   */
  method ScrapeArticles(toScrape: seq<ArticleInfo>, metadata: map<string, Record>,
                        cache: map<string, string>, fetches: seq<Fetch>, env: Env)
    returns (stats: Stats, delta: seq<string>, metadata': map<string, Record>, cache': map<string, string>)
    requires |fetches| >= |toScrape|
    ensures RunState(metadata', cache', stats, delta)
         == Run(RunState(metadata, cache, NoStats, []), Items(toScrape, fetches, env))
    ensures Total(stats) == |toScrape|
    ensures |delta| == stats.added + stats.updated
  {
    ghost var start := RunState(metadata, cache, NoStats, []);
    metadata', cache' := metadata, cache;
    stats, delta := NoStats, [];
    for i := 0 to |toScrape|
      invariant RunState(metadata', cache', stats, delta) == Run(start, Items(toScrape[..i], fetches, env))
    {
      ghost var done := Items(toScrape[..i], fetches, env);
      var articleId := toScrape[i].id;
      var articleData := ScrapeArticle(fetches[i].article, fetches[i].now, env);
      assert toScrape[..i + 1][..i] == toScrape[..i];
      assert Items(toScrape[..i + 1], fetches, env) == done + [Item(articleId, articleData)];
      assert (done + [Item(articleId, articleData)])[..i] == done;
      metadata', cache', stats, delta := RecordItem(metadata', cache', stats, delta, articleId, articleData);
    }
    assert toScrape[..|toScrape|] == toScrape;
    RunCountsEveryItem(start, Items(toScrape, fetches, env));
    RunDeltaLength(start, Items(toScrape, fetches, env));
  }

  /**
    `scrape_all(limit)` once the catalog is listed: an empty catalog returns zero
    counters and an empty delta list without touching the metadata; otherwise
    the entries `all_articles[:limit]` are classified. Returns the counters, the
    delta list, and the metadata and cache as saved.
   */
  method ScrapeCatalog(allArticles: seq<ArticleInfo>, limit: int, metadata: map<string, Record>,
                       cache: map<string, string>, fetches: seq<Fetch>, env: Env)
    returns (stats: Stats, delta: seq<string>, metadata': map<string, Record>, cache': map<string, string>)
    requires |fetches| >= |SlicePrefix(allArticles, limit)|
    ensures RunState(metadata', cache', stats, delta)
         == Run(RunState(metadata, cache, NoStats, []), Items(SlicePrefix(allArticles, limit), fetches, env))
    ensures Total(stats) == |SlicePrefix(allArticles, limit)|
    ensures |delta| == stats.added + stats.updated
    ensures SlicePrefix(allArticles, limit) == [] ==>
      stats == NoStats && delta == [] && metadata' == metadata && cache' == cache
  {
    if allArticles == [] {
      return NoStats, [], metadata, cache;
    }
    var toScrape := SlicePrefix(allArticles, limit);
    stats, delta, metadata', cache' := ScrapeArticles(toScrape, metadata, cache, fetches, env);
  }

  /** `scrape_all(limit)`: list the catalog page by page, then scrape it. */
  method ScrapeAll(pages: seq<PageResponse>, limit: int, metadata: map<string, Record>,
                   cache: map<string, string>, fetches: seq<Fetch>, env: Env)
    returns (stats: Stats, delta: seq<string>, metadata': map<string, Record>, cache': map<string, string>)
    requires Terminates(pages)
    requires |fetches| >= |SlicePrefix(Listing(pages), limit)|
    ensures RunState(metadata', cache', stats, delta)
         == Run(RunState(metadata, cache, NoStats, []), Items(SlicePrefix(Listing(pages), limit), fetches, env))
    ensures Total(stats) == |SlicePrefix(Listing(pages), limit)|
    ensures |delta| == stats.added + stats.updated
    ensures SlicePrefix(Listing(pages), limit) == [] ==>
      stats == NoStats && delta == [] && metadata' == metadata && cache' == cache
  {
    var allArticles := FetchArticlesList(pages);
    stats, delta, metadata', cache' := ScrapeCatalog(allArticles, limit, metadata, cache, fetches, env);
  }
}
