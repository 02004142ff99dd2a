/** The database script: the news, sources, embeddings and expansion tables
    built from the earlier scripts' output files, the crawl that fills in the
    content of source rows, and the expansion run. Tables are sequences of
    rows; the id sequences `source_id` and `expand_id` are counters that
    start at 1. */
module Db {
  import opened Wrappers
  import Chat
  import Comment
  import Search
  import Collector

  const PROXY := "https://r.jina.ai/"
  const EXPAND_PROMPT := "请将以下新闻总结扩展为一篇500字到1000字新闻报道，包括更多细节和背景信息。新增的内容应该是合理的，但不必是真实的。"

  datatype NewsRow = NewsRow(id: int, url: string, content: string, comment: Option<string>, date: string)

  datatype SourceRow = SourceRow(
    id: int,
    newsId: int,
    url: string,
    title: string,
    description: string,
    pageAge: Option<Search.DateTime>,
    language: string,
    content: Option<string>,
    topk: nat)

  datatype EmbeddingRow<V> = EmbeddingRow(newsId: int, embed: Option<V>)

  datatype ExpandedRow = ExpandedRow(id: int, newsId: int, expandedContent: string)

  /** The news row `init` writes for the i-th summary: id i, and as comment
      the first extracted comment, or NULL when there is none. */
  function NewsRowOf(i: nat, item: Comment.NewsItem): (r: NewsRow)
    requires item.entry.Some? && item.comment.Some?
    ensures r.id == i && r.url == item.url && r.content == item.entry.value && r.date == item.datetime
    ensures r.comment.None? <==> item.comment.value == []
    ensures r.comment.Some? ==> r.comment.value == item.comment.value[0]
  {
    NewsRow(i, item.url, item.entry.value, if item.comment.value != [] then Some(item.comment.value[0]) else None, item.datetime)
  }

  /** The news rows for the first `n` summaries. */
  function NewsRows(items: seq<Comment.NewsItem>, n: nat): seq<NewsRow>
    requires n <= |items|
    requires forall i :: 0 <= i < n ==> items[i].entry.Some? && items[i].comment.Some?
  {
    seq(n, i requires 0 <= i < n => NewsRowOf(i, items[i]))
  }

  lemma NewsRowsStep(items: seq<Comment.NewsItem>, n: nat)
    requires n < |items|
    requires forall i :: 0 <= i <= n ==> items[i].entry.Some? && items[i].comment.Some?
    ensures NewsRows(items, n + 1) == NewsRows(items, n) + [NewsRowOf(n, items[n])]
  {
  }

  /** The source row for the `topk`-th search result of news `newsId`; its
      content stays NULL until a crawl fills it in. */
  function SourceRowOf(id: int, newsId: nat, topk: nat, source: Search.SearchResult): SourceRow
  {
    SourceRow(id, newsId, source.url, source.title, source.description, source.pageAge, source.language, None, topk)
  }

  function SourceCount(sources: Option<seq<Search.SearchResult>>): nat
  {
    if sources.Some? then |sources.value| else 0
  }

  /** The source rows for news `newsId`: none for a null or empty result
      list, else one per result with `topk` its position, ids drawn in turn
      from the sequence starting at `firstId`. */
  function SourceRowsOf(newsId: nat, sources: Option<seq<Search.SearchResult>>, firstId: int): (rows: seq<SourceRow>)
    ensures |rows| == SourceCount(sources)
  {
    if sources.None? then []
    else seq(|sources.value|, t requires 0 <= t < |sources.value| => SourceRowOf(firstId + t, newsId, t, sources.value[t]))
  }

  /** Row t of a news entry's source rows carries result t, id `firstId + t`,
      `topk` t and no content yet. */
  lemma SourceRowsOfShape(newsId: nat, sources: Option<seq<Search.SearchResult>>, firstId: int)
    ensures forall t :: 0 <= t < |SourceRowsOf(newsId, sources, firstId)| ==>
      && SourceRowsOf(newsId, sources, firstId)[t].id == firstId + t
      && SourceRowsOf(newsId, sources, firstId)[t].newsId == newsId
      && SourceRowsOf(newsId, sources, firstId)[t].topk == t
      && SourceRowsOf(newsId, sources, firstId)[t].url == sources.value[t].url
      && SourceRowsOf(newsId, sources, firstId)[t].content.None?
  {
  }

  /** All source rows `init` writes for the first `n` news entries. */
  function SourceRowsUpTo(searches: seq<Option<seq<Search.SearchResult>>>, n: nat, firstId: int): seq<SourceRow>
    requires n <= |searches|
  {
    if n == 0 then []
    else
      var before := SourceRowsUpTo(searches, n - 1, firstId);
      before + SourceRowsOf(n - 1, searches[n - 1], firstId + |before|)
  }

  /** The source rows `init` writes take consecutive ids from `firstId` on and
      belong to the news entries written so far. */
  lemma {:induction false} SourceRowsUpToIds(searches: seq<Option<seq<Search.SearchResult>>>, n: nat, firstId: int)
    requires n <= |searches|
    ensures forall t :: 0 <= t < |SourceRowsUpTo(searches, n, firstId)| ==>
      SourceRowsUpTo(searches, n, firstId)[t].id == firstId + t && SourceRowsUpTo(searches, n, firstId)[t].newsId < n
  {
    if n > 0 {
      var before := SourceRowsUpTo(searches, n - 1, firstId);
      var last := SourceRowsOf(n - 1, searches[n - 1], firstId + |before|);
      var rows := SourceRowsUpTo(searches, n, firstId);
      SourceRowsUpToIds(searches, n - 1, firstId);
      SourceRowsOfShape(n - 1, searches[n - 1], firstId + |before|);
      assert rows == before + last;
      forall t | 0 <= t < |rows|
        ensures rows[t].id == firstId + t && rows[t].newsId < n
      {
        if t < |before| {
          assert rows[t] == before[t];
        } else {
          assert rows[t] == last[t - |before|];
        }
      }
    }
  }

  lemma SourceRowsStep(searches: seq<Option<seq<Search.SearchResult>>>, n: nat, firstId: int)
    requires n < |searches|
    ensures var before := SourceRowsUpTo(searches, n, firstId);
      SourceRowsUpTo(searches, n + 1, firstId) == before + SourceRowsOf(n, searches[n], firstId + |before|)
  {
  }

  /** One turn of `init`'s loop extends the news rows by the i-th and the
      source rows by the i-th entry's. */
  lemma InitStep(news0: seq<NewsRow>, sources0: seq<SourceRow>, items: seq<Comment.NewsItem>,
                 searches: seq<Option<seq<Search.SearchResult>>>, i: nat, firstId: int)
    requires i < |items| && i < |searches|
    requires forall j :: 0 <= j <= i ==> items[j].entry.Some? && items[j].comment.Some?
    ensures news0 + NewsRows(items, i) + [NewsRowOf(i, items[i])] == news0 + NewsRows(items, i + 1)
    ensures var before := SourceRowsUpTo(searches, i, firstId);
      && sources0 + before + SourceRowsOf(i, searches[i], firstId + |before|) == sources0 + SourceRowsUpTo(searches, i + 1, firstId)
      && |before| + SourceCount(searches[i]) == |SourceRowsUpTo(searches, i + 1, firstId)|
  {
    NewsRowsStep(items, i);
    SourceRowsStep(searches, i, firstId);
  }

  /** The rows of a table that belong to news `newsId`, in table order. */
  function RowsFor(rows: seq<SourceRow>, newsId: int): seq<SourceRow>
  {
    if rows == [] then []
    else (if rows[0].newsId == newsId then [rows[0]] else []) + RowsFor(rows[1..], newsId)
  }

  lemma {:induction false} RowsForAppend(a: seq<SourceRow>, b: seq<SourceRow>, newsId: int)
    ensures RowsFor(a + b, newsId) == RowsFor(a, newsId) + RowsFor(b, newsId)
  {
    if a == [] {
      assert a + b == b;
    } else {
      var head := if a[0].newsId == newsId then [a[0]] else [];
      RowsForAppend(a[1..], b, newsId);
      assert (a + b)[0] == a[0];
      assert (a + b)[1..] == a[1..] + b;
      assert RowsFor(a + b, newsId) == head + RowsFor(a[1..] + b, newsId);
      assert RowsFor(a, newsId) == head + RowsFor(a[1..], newsId);
    }
  }

  /** Rows that all belong to `newsId` are all kept. */
  lemma {:induction false} RowsForAll(rows: seq<SourceRow>, newsId: int)
    requires forall t :: 0 <= t < |rows| ==> rows[t].newsId == newsId
    ensures RowsFor(rows, newsId) == rows
  {
    if rows != [] {
      RowsForAll(rows[1..], newsId);
    }
  }

  /** Rows none of which belongs to `newsId` are all dropped. */
  lemma {:induction false} RowsForNone(rows: seq<SourceRow>, newsId: int)
    requires forall t :: 0 <= t < |rows| ==> rows[t].newsId != newsId
    ensures RowsFor(rows, newsId) == []
  {
    if rows != [] {
      RowsForNone(rows[1..], newsId);
    }
  }

  /** `rows` hold one row per search result, in result order: `topk` runs
      0, 1, ..., k - 1 and each row has its result's URL. */
  predicate OnePerResult(rows: seq<SourceRow>, results: Option<seq<Search.SearchResult>>)
  {
    && |rows| == SourceCount(results)
    && forall t :: 0 <= t < |rows| ==> rows[t].topk == t && rows[t].url == results.value[t].url
  }

  /** Appending rows of other entries leaves an entry's rows as they were. */
  lemma RowsForAppendOthers(before: seq<SourceRow>, last: seq<SourceRow>, newsId: int)
    requires forall t :: 0 <= t < |last| ==> last[t].newsId != newsId
    ensures RowsFor(before + last, newsId) == RowsFor(before, newsId)
  {
    RowsForAppend(before, last, newsId);
    RowsForNone(last, newsId);
    assert RowsFor(before, newsId) + [] == RowsFor(before, newsId);
  }

  /** Appending an entry's own rows after rows of other entries gives exactly
      those rows. */
  lemma RowsForAppendOwn(before: seq<SourceRow>, last: seq<SourceRow>, newsId: int)
    requires forall t :: 0 <= t < |before| ==> before[t].newsId != newsId
    requires forall t :: 0 <= t < |last| ==> last[t].newsId == newsId
    ensures RowsFor(before + last, newsId) == last
  {
    RowsForAppend(before, last, newsId);
    RowsForNone(before, newsId);
    RowsForAll(last, newsId);
    assert [] + last == last;
  }

  /** Entry `n - 1`'s turn of `init` adds no source rows for earlier entries. */
  lemma RowsForEarlierEntry(searches: seq<Option<seq<Search.SearchResult>>>, n: nat, firstId: int, i: nat)
    requires 0 < n <= |searches| && i < n - 1
    ensures RowsFor(SourceRowsUpTo(searches, n, firstId), i) == RowsFor(SourceRowsUpTo(searches, n - 1, firstId), i)
  {
    var before := SourceRowsUpTo(searches, n - 1, firstId);
    var last := SourceRowsOf(n - 1, searches[n - 1], firstId + |before|);
    assert SourceRowsUpTo(searches, n, firstId) == before + last;
    SourceRowsOfShape(n - 1, searches[n - 1], firstId + |before|);
    RowsForAppendOthers(before, last, i);
  }

  /** Entry i's source rows are all added in its own turn of `init`. */
  lemma RowsForLastEntry(searches: seq<Option<seq<Search.SearchResult>>>, firstId: int, i: nat)
    requires i < |searches|
    ensures RowsFor(SourceRowsUpTo(searches, i + 1, firstId), i) ==
      SourceRowsOf(i, searches[i], firstId + |SourceRowsUpTo(searches, i, firstId)|)
  {
    var before := SourceRowsUpTo(searches, i, firstId);
    var last := SourceRowsOf(i, searches[i], firstId + |before|);
    SourceRowsStep(searches, i, firstId);
    EarlierRowsOthers(searches, i, firstId);
    OwnRowsOnly(i, searches[i], firstId + |before|);
    RowsForAppendOwn(before, last, i);
  }

  /** The rows written for the first `i` entries belong to none of entry i. */
  lemma EarlierRowsOthers(searches: seq<Option<seq<Search.SearchResult>>>, i: nat, firstId: int)
    requires i <= |searches|
    ensures forall t :: 0 <= t < |SourceRowsUpTo(searches, i, firstId)| ==> SourceRowsUpTo(searches, i, firstId)[t].newsId != i
  {
    SourceRowsUpToIds(searches, i, firstId);
  }

  /** The rows of one entry's turn all belong to that entry. */
  lemma OwnRowsOnly(newsId: nat, sources: Option<seq<Search.SearchResult>>, firstId: int)
    ensures forall t :: 0 <= t < |SourceRowsOf(newsId, sources, firstId)| ==> SourceRowsOf(newsId, sources, firstId)[t].newsId == newsId
  {
    SourceRowsOfShape(newsId, sources, firstId);
  }

  lemma SourceRowsOfOnePerResult(rows: seq<SourceRow>, newsId: nat, results: Option<seq<Search.SearchResult>>, firstId: int)
    requires rows == SourceRowsOf(newsId, results, firstId)
    ensures OnePerResult(rows, results)
  {
    SourceRowsOfShape(newsId, results, firstId);
  }

  /** Once `init` has written the first `n` entries, the source rows of
      entry i are exactly the rows of its own turn. */
  lemma {:induction false} RowsForEntry(searches: seq<Option<seq<Search.SearchResult>>>, n: nat, firstId: int, i: nat)
    requires n <= |searches| && i < n
    ensures RowsFor(SourceRowsUpTo(searches, n, firstId), i) ==
      SourceRowsOf(i, searches[i], firstId + |SourceRowsUpTo(searches, i, firstId)|)
    decreases n
  {
    if i < n - 1 {
      RowsForEarlierEntry(searches, n, firstId, i);
      RowsForEntry(searches, n - 1, firstId, i);
    } else {
      RowsForLastEntry(searches, firstId, i);
    }
  }

  /** For every news entry i, its source rows are exactly one per search
      result, with `topk` running 0, 1, ..., k - 1, and none at all for a null
      or empty result list. */
  lemma SourceRowsPerNews(searches: seq<Option<seq<Search.SearchResult>>>, n: nat, firstId: int, i: nat)
    requires n <= |searches| && i < n
    ensures OnePerResult(RowsFor(SourceRowsUpTo(searches, n, firstId), i), searches[i])
  {
    RowsForEntry(searches, n, firstId, i);
    SourceRowsOfOnePerResult(RowsFor(SourceRowsUpTo(searches, n, firstId), i), i, searches[i],
      firstId + |SourceRowsUpTo(searches, i, firstId)|);
  }

  /** The URL `crawl_url` fetches: the page behind the reader proxy. */
  function CrawlUrl(url: string): (r: string)
    ensures |r| == |PROXY| + |url|
    ensures r[..|PROXY|] == PROXY && r[|PROXY|..] == url
  {
    PROXY + url
  }

  /** Different pages are fetched through different proxy URLs, so the
      content stored for a row is the page of its own URL and not of
      another. */
  lemma CrawlUrlInjective(a: string, b: string)
    requires CrawlUrl(a) == CrawlUrl(b)
    ensures a == b
  {
    assert a == CrawlUrl(a)[|PROXY|..];
  }

  /** `UPDATE sources SET content = ? WHERE id = ?`. */
  function SetContent(rows: seq<SourceRow>, id: int, text: string): (r: seq<SourceRow>)
    ensures |r| == |rows|
    ensures forall k :: 0 <= k < |rows| && rows[k].id == id ==> r[k] == rows[k].(content := Some(text))
    ensures forall k :: 0 <= k < |rows| && rows[k].id != id ==> r[k] == rows[k]
  {
    seq(|rows|, k requires 0 <= k < |rows| => if rows[k].id == id then rows[k].(content := Some(text)) else rows[k])
  }

  predicate IdsIncreasing(rows: seq<SourceRow>)
  {
    forall j, k :: 0 <= j < k < |rows| ==> rows[j].id < rows[k].id
  }

  /** With distinct ids the update touches at most the one row with that id,
      and only its content. */
  lemma SetContentTouchesOneRow(rows: seq<SourceRow>, id: int, text: string, k: nat)
    requires IdsIncreasing(rows) && k < |rows| && rows[k].id == id
    ensures SetContent(rows, id, text) == rows[k := rows[k].(content := Some(text))]
  {
    var updated := SetContent(rows, id, text);
    forall j | 0 <= j < |rows| && j != k
      ensures updated[j] == rows[j]
    {
      assert rows[j].id != id by {
        if j < k { assert rows[j].id < rows[k].id; } else { assert rows[k].id < rows[j].id; }
      }
    }
  }

  /** The table part way through the crawl: the rows at the positions in
      `done` have been crawled, the others not yet. */
  ghost function PartlyCrawled(start: seq<SourceRow>, done: set<nat>, crawl: string -> Outcome<string>): seq<SourceRow>
  {
    seq(|start|, t requires 0 <= t < |start| => if t in done then Crawled(start[t], crawl) else start[t])
  }

  /** Crawling one more pending row, by its id, is the same as adding its
      position to the crawled ones. */
  lemma CrawlStep(start: seq<SourceRow>, done: set<nat>, crawl: string -> Outcome<string>, t: nat)
    requires t < |start| && t !in done && start[t].content.None?
    requires IdsIncreasing(PartlyCrawled(start, done, crawl))
    ensures var rows := PartlyCrawled(start, done, crawl);
      var fetched := crawl(CrawlUrl(start[t].url));
      && (fetched.Ok? ==> SetContent(rows, start[t].id, fetched.value) == PartlyCrawled(start, done + {t}, crawl))
      && (fetched.Err? ==> rows == PartlyCrawled(start, done + {t}, crawl))
  {
    var rows := PartlyCrawled(start, done, crawl);
    var fetched := crawl(CrawlUrl(start[t].url));
    if fetched.Ok? {
      SetContentTouchesOneRow(rows, start[t].id, fetched.value, t);
    }
  }

  /** The positions of the pending rows whose crawls are among the first
      `k` to complete. */
  ghost function CrawledPositions(rows: seq<SourceRow>, order: seq<nat>, k: nat): set<nat>
    requires Collector.IsCompletionOrder(order, |PendingIndices(rows)|) && k <= |order|
  {
    set q | 0 <= q < k :: PendingIndices(rows)[order[q]]
  }

  /** The `k`-th completion crawls a pending row not crawled before. */
  lemma CrawledPositionsStep(rows: seq<SourceRow>, order: seq<nat>, k: nat)
    requires Collector.IsCompletionOrder(order, |PendingIndices(rows)|) && k < |order|
    ensures var t := PendingIndices(rows)[order[k]];
      && t < |rows| && rows[t].content.None?
      && t !in CrawledPositions(rows, order, k)
      && CrawledPositions(rows, order, k + 1) == CrawledPositions(rows, order, k) + {t}
  {
    var ks := PendingIndices(rows);
    var t := ks[order[k]];
    forall q | 0 <= q < k
      ensures ks[order[q]] != t
    {
      assert order[q] != order[k];
    }
  }

  /** Once every crawl has completed, every row whose content was NULL has
      been crawled. */
  lemma CrawledPositionsAll(rows: seq<SourceRow>, order: seq<nat>)
    requires Collector.IsCompletionOrder(order, |PendingIndices(rows)|)
    ensures forall t :: 0 <= t < |rows| && rows[t].content.None? ==> t in CrawledPositions(rows, order, |order|)
  {
    var ks := PendingIndices(rows);
    Collector.CompletionOrderCovers(order, |ks|);
    forall t | 0 <= t < |rows| && rows[t].content.None?
      ensures t in CrawledPositions(rows, order, |order|)
    {
      var p :| 0 <= p < |ks| && ks[p] == t;
      assert p in order;
      var q :| 0 <= q < |order| && order[q] == p;
      assert ks[order[q]] in CrawledPositions(rows, order, |order|);
    }
  }

  /** The positions of the rows whose content is NULL, in table order. */
  function PendingIndices(rows: seq<SourceRow>): (ks: seq<nat>)
    ensures forall p :: 0 <= p < |ks| ==> ks[p] < |rows| && rows[ks[p]].content.None?
    ensures forall p, q :: 0 <= p < q < |ks| ==> ks[p] < ks[q]
    ensures forall k :: 0 <= k < |rows| && rows[k].content.None? ==> k in ks
  {
    if rows == [] then []
    else
      var init := PendingIndices(rows[..|rows| - 1]);
      init + (if rows[|rows| - 1].content.None? then [|rows| - 1] else [])
  }

  /** `SELECT id, url FROM sources WHERE content IS NULL`. */
  function Pending(rows: seq<SourceRow>): (r: seq<(int, string)>)
    ensures |r| == |PendingIndices(rows)|
    ensures forall p :: 0 <= p < |r| ==>
      r[p] == (rows[PendingIndices(rows)[p]].id, rows[PendingIndices(rows)[p]].url)
  {
    var ks := PendingIndices(rows);
    seq(|ks|, p requires 0 <= p < |ks| => (rows[ks[p]].id, rows[ks[p]].url))
  }

  /** A row after the crawl: a row whose content was NULL gets the page text
      when its fetch succeeds; every other row is unchanged. */
  function Crawled(row: SourceRow, crawl: string -> Outcome<string>): (r: SourceRow)
    ensures r.id == row.id && r.url == row.url && r.newsId == row.newsId && r.topk == row.topk
    ensures r == row.(content := r.content)
    ensures row.content.Some? ==> r == row
    ensures crawl(CrawlUrl(row.url)).Err? ==> r == row
    ensures row.content.None? && crawl(CrawlUrl(row.url)).Ok? ==> r.content == Some(crawl(CrawlUrl(row.url)).value)
  {
    if row.content.None? && crawl(CrawlUrl(row.url)).Ok? then row.(content := Some(crawl(CrawlUrl(row.url)).value)) else row
  }

  /** `expand_content`'s request: the fixed system instruction, then the news text. */
  function ExpandRequest(content: string): (r: seq<Chat.Message>)
    ensures |r| == 2
    ensures r[0] == Chat.Message(Chat.System, EXPAND_PROMPT)
    ensures r[1].role == Chat.User && r[1].content == content
  {
    [Chat.Message(Chat.System, EXPAND_PROMPT), Chat.Message(Chat.User, content)]
  }

  /** `expand_task`: never raises; the pair `(id, text)` on success, `None` on
      any failure. `complete` is the completion service, retries spent. */
  function ExpandTask(id: int, content: string, complete: seq<Chat.Message> -> Outcome<string>): (r: Option<(int, string)>)
    ensures r.Some? <==> complete(ExpandRequest(content)).Ok?
    ensures r.Some? ==> r.value == (id, complete(ExpandRequest(content)).value)
  {
    match complete(ExpandRequest(content))
    case Ok(text) => Some((id, text))
    case Err(_) => None
  }

  /** The tasks `expand` creates, one per news row. */
  function ExpandTasks(rows: seq<NewsRow>, complete: seq<Chat.Message> -> Outcome<string>): (r: seq<Option<(int, string)>>)
    ensures |r| == |rows|
    ensures forall i :: 0 <= i < |rows| ==> r[i] == ExpandTask(rows[i].id, rows[i].content, complete)
  {
    seq(|rows|, i requires 0 <= i < |rows| => ExpandTask(rows[i].id, rows[i].content, complete))
  }

  /** How many completions the `expand` loop consumes before it meets a
      failed task, whose `None` it cannot unpack. */
  function FirstFailure(tasks: seq<Option<(int, string)>>, order: seq<nat>): (stop: nat)
    requires forall k :: 0 <= k < |order| ==> order[k] < |tasks|
    ensures stop <= |order|
    ensures forall k :: 0 <= k < stop ==> tasks[order[k]].Some?
    ensures stop < |order| ==> tasks[order[stop]].None?
    decreases |order|
  {
    if order == [] || tasks[order[0]].None? then 0 else 1 + FirstFailure(tasks, order[1..])
  }

  /** The `news_expanded` rows for the first `count` completions. */
  function Inserted(tasks: seq<Option<(int, string)>>, order: seq<nat>, count: nat, firstId: int): seq<ExpandedRow>
    requires count <= |order|
    requires forall k :: 0 <= k < count ==> order[k] < |tasks| && tasks[order[k]].Some?
  {
    seq(count, k requires 0 <= k < count => ExpandedRow(firstId + k, tasks[order[k]].value.0, tasks[order[k]].value.1))
  }

  /** When every expansion succeeds, every news row gets its expansion
      inserted, whatever the completion order. */
  lemma ExpandedEveryNews(tasks: seq<Option<(int, string)>>, order: seq<nat>, firstId: int, i: nat)
    requires Collector.IsCompletionOrder(order, |tasks|)
    requires forall k :: 0 <= k < |tasks| ==> tasks[k].Some?
    requires i < |tasks|
    ensures exists k :: (0 <= k < |order| && Inserted(tasks, order, |order|, firstId)[k].newsId == tasks[i].value.0
      && Inserted(tasks, order, |order|, firstId)[k].expandedContent == tasks[i].value.1)
  {
    Collector.CompletionOrderCovers(order, |tasks|);
    assert i in order;
    var k :| 0 <= k < |order| && order[k] == i;
    assert Inserted(tasks, order, |order|, firstId)[k].newsId == tasks[i].value.0;
  }

  class Database<V> {
    var news: seq<NewsRow>
    var sources: seq<SourceRow>
    var embeddings: seq<EmbeddingRow<V>>
    var expanded: seq<ExpandedRow>
    /** The next values of the sequences `source_id` and `expand_id`. */
    var sourceSeq: int
    var expandSeq: int

    /** Source ids come from `source_id`, so they are distinct and below its next value. */
    ghost predicate Valid()
      reads this
    {
      && IdsIncreasing(sources)
      && forall k :: 0 <= k < |sources| ==> sources[k].id < sourceSeq
    }

    constructor ()
      ensures Valid()
      ensures news == [] && sources == [] && embeddings == [] && expanded == []
      ensures sourceSeq == 1 && expandSeq == 1
    {
      news, sources, embeddings, expanded := [], [], [], [];
      sourceSeq, expandSeq := 1, 1;
    }

    /** Inserts one source row with the next id of `source_id`. */
    method InsertSource(newsId: nat, topk: nat, source: Search.SearchResult)
      requires Valid()
      modifies this`sources, this`sourceSeq
      ensures Valid()
      ensures sources == old(sources) + [SourceRowOf(old(sourceSeq), newsId, topk, source)]
      ensures sourceSeq == old(sourceSeq) + 1
    {
      sources := sources + [SourceRowOf(sourceSeq, newsId, topk, source)];
      sourceSeq := sourceSeq + 1;
    }

    /** The inner loop of `init`: nothing for a null or empty result list,
        else one source row per result, `topk` being its position. */
    method InsertSources(newsId: nat, results: Option<seq<Search.SearchResult>>)
      requires Valid()
      modifies this`sources, this`sourceSeq
      ensures Valid()
      ensures sources == old(sources) + SourceRowsOf(newsId, results, old(sourceSeq))
      ensures sourceSeq == old(sourceSeq) + SourceCount(results)
    {
      if results.None? || results.value == [] {
        return;
      }
      var list := results.value;
      for topk := 0 to |list|
        invariant Valid()
        invariant sources == old(sources) + SourceRowsOf(newsId, results, old(sourceSeq))[..topk]
        invariant sourceSeq == old(sourceSeq) + topk
      {
        InsertSource(newsId, topk, list[topk]);
      }
    }

    /** One turn of `init`'s loop: the news row, then its source rows. */
    method InsertNews(i: nat, item: Comment.NewsItem, results: Option<seq<Search.SearchResult>>)
      requires Valid()
      requires item.entry.Some? && item.comment.Some?
      modifies this`news, this`sources, this`sourceSeq
      ensures Valid()
      ensures news == old(news) + [NewsRowOf(i, item)]
      ensures sources == old(sources) + SourceRowsOf(i, results, old(sourceSeq))
      ensures sourceSeq == old(sourceSeq) + SourceCount(results)
    {
      news := news + [NewsRowOf(i, item)];
      InsertSources(i, results);
    }

    /** `init`: one news row per pair of `zip(news, searches)` (so as many as
        the shorter file has), and after each its source rows. */
    method Init(items: seq<Comment.NewsItem>, searches: seq<Option<seq<Search.SearchResult>>>)
      requires Valid()
      requires forall i :: 0 <= i < Min(|items|, |searches|) ==> items[i].entry.Some? && items[i].comment.Some?
      modifies this`news, this`sources, this`sourceSeq
      ensures Valid()
      ensures news == old(news) + NewsRows(items, Min(|items|, |searches|))
      ensures sources == old(sources) + SourceRowsUpTo(searches, Min(|items|, |searches|), old(sourceSeq))
      ensures sourceSeq == old(sourceSeq) + |SourceRowsUpTo(searches, Min(|items|, |searches|), old(sourceSeq))|
    {
      var n := Min(|items|, |searches|);
      ghost var news0, sources0, firstId := news, sources, sourceSeq;
      for i := 0 to n
        invariant Valid()
        invariant news == news0 + NewsRows(items, i)
        invariant sources == sources0 + SourceRowsUpTo(searches, i, firstId)
        invariant sourceSeq == firstId + |SourceRowsUpTo(searches, i, firstId)|
      {
        InitStep(news0, sources0, items, searches, i, firstId);
        InsertNews(i, items[i], searches[i]);
      }
    }

    /** `init_embed`: one row per entry of the embeddings file, `news_id`
        being its position (a failed embedding is stored as NULL). */
    method InitEmbed(vectors: seq<Option<V>>)
      modifies this`embeddings
      ensures |embeddings| == |old(embeddings)| + |vectors|
      ensures embeddings[..|old(embeddings)|] == old(embeddings)
      ensures forall i :: 0 <= i < |vectors| ==> embeddings[|old(embeddings)| + i] == EmbeddingRow(i, vectors[i])
    {
      for i := 0 to |vectors|
        invariant |embeddings| == |old(embeddings)| + i
        invariant embeddings[..|old(embeddings)|] == old(embeddings)
        invariant forall j :: 0 <= j < i ==> embeddings[|old(embeddings)| + j] == EmbeddingRow(j, vectors[j])
      {
        embeddings := embeddings + [EmbeddingRow(i, vectors[i])];
      }
    }

    /** `process_url`: on a successful fetch only the row whose id is `rowId`
        gets the page text as content; on any failure nothing changes. */
    method ProcessUrl(rowId: int, url: string, crawl: string -> Outcome<string>)
      requires Valid()
      modifies this`sources
      ensures Valid()
      ensures crawl(CrawlUrl(url)).Err? ==> sources == old(sources)
      ensures crawl(CrawlUrl(url)).Ok? ==> sources == SetContent(old(sources), rowId, crawl(CrawlUrl(url)).value)
    {
      match crawl(CrawlUrl(url))
      case Ok(text) =>
        sources := SetContent(sources, rowId, text);
      case Err(_) =>
    }

    /** `update_source_content`: every row whose content was NULL is crawled
        once; whatever the completion order, the table ends with exactly those
        rows whose fetch succeeded filled in and every other row unchanged. */
    method UpdateSourceContent(crawl: string -> Outcome<string>, order: seq<nat>)
      requires Valid()
      requires Collector.IsCompletionOrder(order, |Pending(sources)|)
      modifies this`sources
      ensures Valid()
      ensures |sources| == |old(sources)|
      ensures forall k :: 0 <= k < |sources| ==> sources[k] == Crawled(old(sources)[k], crawl)
    {
      ghost var start := sources;
      var rows := Pending(sources);
      ghost var ks := PendingIndices(start);
      for k := 0 to |order|
        invariant Valid()
        invariant sources == PartlyCrawled(start, CrawledPositions(start, order, k), crawl)
      {
        var (rowId, url) := rows[order[k]];
        CrawledPositionsStep(start, order, k);
        CrawlStep(start, CrawledPositions(start, order, k), crawl, ks[order[k]]);
        ProcessUrl(rowId, url, crawl);
      }
      CrawledPositionsAll(start, order);
    }

    /** `expand`: one `news_expanded` row per completion, in completion order,
        with ids from `expand_id`. The loop cannot unpack the `None` of a
        failed task, so it stops there (rows inserted so far stay); it runs to
        the end exactly when every expansion succeeds. */
    method Expand(complete: seq<Chat.Message> -> Outcome<string>, order: seq<nat>) returns (completed: bool)
      requires Collector.IsCompletionOrder(order, |news|)
      modifies this`expanded, this`expandSeq
      ensures var tasks := ExpandTasks(news, complete);
        var stop := FirstFailure(tasks, order);
        && (completed <==> stop == |order|)
        && expanded == old(expanded) + Inserted(tasks, order, stop, old(expandSeq))
        && expandSeq == old(expandSeq) + stop
    {
      var tasks := ExpandTasks(news, complete);
      ghost var stop := FirstFailure(tasks, order);
      completed := true;
      var k := 0;
      while k < |order|
        invariant 0 <= k <= stop
        invariant expanded == old(expanded) + Inserted(tasks, order, k, old(expandSeq))
        invariant expandSeq == old(expandSeq) + k
      {
        var task := tasks[order[k]];
        if task.None? {
          completed := false;
          return;
        }
        var (newsId, content) := task.value;
        expanded := expanded + [ExpandedRow(expandSeq, newsId, content)];
        expandSeq := expandSeq + 1;
        k := k + 1;
      }
    }
  }
}
