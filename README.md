# News pipeline scripts — a Dafny model

The repository is a set of batch scripts that together build a news
dataset:

- `comment.py` cuts translator's remarks (`（翻评：…）`) out of each news
  summary.
- `search.py` runs one Brave web search per summary.
- `embed.py` asks for one embedding vector per summary.
- `db.py` loads all of it into duckdb tables: news, sources, embeddings
  and expansions. It crawls the source pages through a reader proxy and
  has an LLM expand every summary into a longer article.
- `openai-ft.py` exports the last 1000 expansions as chat fine-tuning
  examples.

The search and embedding scripts share one loop, an asynchronous fan-out.
Results come back in completion order. Each result is written into the
slot of its own entry in a pre-allocated buffer. A counter decides when a
partial snapshot is saved, and one final save follows the loop.

The model has one module per script and one for the shared loop:

- `Collector` is that loop: a Dafny `array` filled in a `while` loop, in a
  completion order given as an input permutation.
- `Search` and `Embed` are the two scripts built on it.
- `Comment` is the annotation extractor, a left-to-right scanner that
  implements the regular expression. It also holds the in-place loop over
  the items.
- `Db` models the tables as sequences of rows held by a `Database` class.
  Its methods append or update rows as the script's SQL statements do.
- `FineTune` is the export loop.
- `Wrappers` holds `Option`, `Outcome` and `Min`; `Chat` holds the chat
  message type.

Every remote service appears as a function parameter that returns
`Ok(value)` or `Err(message)`: the Brave API, the OpenAI embedding and
chat endpoints, and the `r.jina.ai` reader. The value it returns is the
outcome after the retries.

## Model

| member | source | states |
|---|---|---|
| Collector.CompletionOrderCovers | search.py:124-126 | a completion order of n distinct tasks below n hands back every task index |
| Collector.SavePoints | search.py:128-130 | the completion counts at which a partial save happens are increasing, each between 1 and n with `(count + 1) % interval == 0`, and every such count is among them |
| Collector.SavePointsCount | search.py:130 | n completions with an interval of at least 2 give exactly `(n + 1) / interval` partial saves |
| Collector.SavePointsAt | search.py:106-130 | the j-th partial save comes after `(j + 1) * interval - 1` completions (99, 199, … for 100), not every 10 as the comment says |
| Collector.SnapshotAgreesWithFinal | search.py:119-131 | every slot of a partial snapshot is either still `None` or already holds that entry's final value |
| Collector.Run | search.py:119-137 | whatever the completion order: the counter ends at n; there is one partial save per save point, holding the slots of the tasks completed so far and `None` elsewhere; one final save follows, in which slot i holds task i's result |
| Search.BraveRequest | search.py:39-54 | the query sent is the first `min(128, len)` characters of the entry; the endpoint and the token are fixed |
| Search.ResultItems | search.py:59 | a response without `web` or without `results` gives no items; otherwise the listed items |
| Search.ToSearchResult | search.py:60-76 | each absent text field becomes `""` and an absent profile `{}`; `page_age` is set exactly when present and parseable, to the parsed value |
| Search.Shaped | search.py:59-77 | the records `search` returns: at most 8, the first `min(8, len)` items in response order, each shaped |
| Search.CollectResults | search.py:58-79 | the append loop returns at most 8 records: the first `min(8, len)` items, in response order, each shaped |
| Search.Search | search.py:38-79 | a missing or empty key fails with the key error before any request; otherwise it succeeds iff the request does, with the shaped first 8 items |
| Search.SearchSeesOnlyPrefix | search.py:39-54 | two entries with the same first 128 characters send the same request, so a service that answers each request one way gives them the same outcome |
| Search.ProcessEntry | search.py:82-91 | returns its own index, with the records exactly when the search succeeds and `None` on any failure |
| Search.SerializeSlot | search.py:96 | a failed entry and an empty record list both serialise to `null`; anything else is kept |
| Search.Serialize | search.py:94-98 | the output has one slot per entry, each serialised in place |
| Search.SerializeIdempotent | search.py:95-98 | serialising serialised results changes nothing |
| Search.SearchAll | search.py:104-138 | `done_so_far` ends at n; there are `(n + 1) / 100` partial saves, the j-th after `100 * j + 99` completions, holding the serialised snapshot; the single final save holds entry i's serialised outcome in slot i |
| Embed.ProcessEntry | embed.py:38-47 | returns its own index, with the result exactly when the embedding call succeeds and `None` on any failure |
| Embed.Slot | embed.py:79 | a slot receives the embedding on success and `None` on failure |
| Embed.EmbedAll | embed.py:56-91 | `done_so_far` ends at n; there are `(n + 1) / 1000` partial saves, the j-th after `1000 * j + 999` completions; in the final save, slot i holds entry i's vector when its call succeeded and `None` otherwise, whatever the completion order |
| Comment.SkipLeading | comment.py:8 | the first position at or after i that is not whitespace; everything skipped is whitespace |
| Comment.SkipTrailing | comment.py:8 | the end of the last non-whitespace character before j, never before a; everything dropped is whitespace |
| Comment.Strip | comment.py:8 | `strip()` is no longer than its input and leaves no whitespace at either end |
| Comment.StripInfix | comment.py:8 | `strip()` keeps a contiguous infix of its input and drops only whitespace around it |
| Comment.StripIdempotent | comment.py:8 | stripping twice is stripping once |
| Comment.FindCloser | comment.py:5 | finds the first `）` or `)` at or after a position, or reports that there is none |
| Comment.MatchAt | comment.py:5 | a match found at the start of a string is an annotation that the string begins with |
| Comment.MatchAtComplete | comment.py:5 | whenever an annotation begins a string, the scan finds exactly that annotation; no match is missed, cut short or overrun |
| Comment.EmptyBodyIsNoMatch | comment.py:5 | `（翻评：）`, with an empty body, is not a match |
| Comment.EmptyBodyStays | comment.py:5-7 | when the scan reaches `（翻评：）`, with an empty body, `re.sub` keeps its five characters in the cleaned text |
| Comment.Tokenize | comment.py:5-7 | every piece the left-to-right scan cuts out is an annotation |
| Comment.TokenizeRoundTrip | comment.py:5-7 | the scan loses and invents nothing: its pieces spell out the entry |
| Comment.Kept | comment.py:7 | what `re.sub` leaves is no longer than the text |
| Comment.Bodies | comment.py:6 | `re.findall` yields at most one body per piece |
| Comment.BodiesOfAnnotations | comment.py:5-6 | one non-empty body per removed annotation, none holding a closing parenthesis |
| Comment.ProcessEntry | comment.py:4-8 | `process_entry`: the entry with every annotation cut out, then stripped, and the stripped bodies in order; its properties are stated by Comment.ProcessEntryShape and Comment.NoMarkNothingExtracted |
| Comment.ProcessEntryShape | comment.py:4-8 | one comment per removed segment, no comment holds `）` or `)`, and the cleaned entry is no longer than the entry and has no whitespace at either end |
| Comment.NoMarkNothingExtracted | comment.py:4-8 | an entry without `翻` gives no comments and the stripped entry |
| Comment.Annotate | comment.py:16-19 | the update of one item: with an `entry`, both `entry` and `comment` are replaced by the extractor's results; without one, the item is kept; its properties are stated by Comment.AnnotateFields |
| Comment.AnnotateFields | comment.py:15-19 | an item with `entry` gets a new `entry` and a `comment`; an item without one is unchanged |
| Comment.AnnotatedItems | comment.py:15-19 | every item of the file is annotated, in place and in order |
| Comment.AnnotateAll | comment.py:15-19 | the loop leaves the array holding every original item annotated |
| Db.NewsRowOf | db.py:67-76 | news row i has id i and the item's URL, entry and date; its comment is the first extracted comment, or NULL when there is none |
| Db.SourceRowOf | db.py:82-93 | the row one `INSERT INTO sources` writes for one result, with NULL content; its id, news id, `topk`, URL and NULL content are stated, for every row of an entry, by Db.SourceRowsOfShape |
| Db.SourceRowsOf | db.py:78-93 | a null or empty result list adds no source rows; otherwise one row per result |
| Db.SourceRowsOfShape | db.py:81-93 | source row t of a news entry has that entry's id, `topk` t, the result's URL, consecutive ids and no content |
| Db.SourceRowsUpToIds | db.py:66-93 | the source rows `init` writes take consecutive ids from the sequence and belong to news already written |
| Db.RowsForEntry | db.py:66-93 | once `init` has written the first n entries, the source rows of entry i are exactly those written in its own turn |
| Db.SourceRowsPerNews | db.py:78-93 | for each news i, its source rows are exactly one per search result, with `topk` 0 … k-1, and none for a null or empty list |
| Db.Database.constructor | db.py:31-58 | empty tables and sequences starting at 1 |
| Db.Database.InsertSource | db.py:82-93 | appends one source row with the next sequence id |
| Db.Database.InsertSources | db.py:78-93 | appends exactly that news entry's source rows and advances the sequence by their count |
| Db.Database.InsertNews | db.py:67-93 | appends the news row, then its source rows |
| Db.Database.Init | db.py:66-93 | appends `min(len(news), len(searches))` news rows, row i with id i, and after each its source rows, keeping source ids distinct |
| Db.Database.InitEmbed | db.py:114-121 | appends one embedding row per entry, its `news_id` being its position in the file |
| Db.CrawlUrl | db.py:135 | the URL fetched is exactly `https://r.jina.ai/` followed by the page URL |
| Db.CrawlUrlInjective | db.py:135 | different pages are fetched through different proxy URLs |
| Db.SetContent | db.py:145 | `UPDATE … WHERE id = ?`: same length; every row with that id gets the content; every other row is unchanged |
| Db.SetContentTouchesOneRow | db.py:145 | with distinct ids the update changes only the content of the row with that id |
| Db.Database.ProcessUrl | db.py:141-148 | on success only the row with that id gets the text; on any failure no row changes |
| Db.PendingIndices | db.py:155 | the rows picked are exactly those whose content is NULL, in table order |
| Db.Pending | db.py:155 | `SELECT id, url … WHERE content IS NULL`: one `(id, url)` pair per NULL-content row, in table order |
| Db.Crawled | db.py:141-148 | a crawl changes only the content (every other column is kept), and only of a NULL-content row whose fetch succeeded, to the fetched text |
| Db.CrawledPositionsStep | db.py:168-171 | each completion crawls a pending row not crawled before |
| Db.CrawledPositionsAll | db.py:155-171 | once every task has completed, every row that had NULL content has been crawled |
| Db.Database.UpdateSourceContent | db.py:151-175 | whatever the completion order, each row ends crawled: NULL content filled in when its fetch succeeded, every other row unchanged |
| Db.ExpandRequest | db.py:213-222 | the chat request: exactly the fixed system instruction, then the news content as the user turn |
| Db.ExpandTask | db.py:227-234 | `(id, text)` exactly when the completion succeeds; `None` on any failure |
| Db.ExpandTasks | db.py:250-253 | one task per news row, in row order, each `expand_task` of that row's id and content |
| Db.FirstFailure | db.py:256-257 | the completions unpacked before the first failed task all succeeded, and the one at the stop failed |
| Db.Database.Expand | db.py:237-264 | one `news_expanded` row per completion, in completion order, with consecutive ids; the loop runs to the end iff no task before it failed, and otherwise stops at the first failure |
| Db.ExpandedEveryNews | db.py:256-262 | when every expansion succeeds, every news row gets its expansion inserted, whatever the completion order |
| FineTune.QueryExample | openai-ft.py:8-15 | a joined row becomes exactly two messages: user with the expanded content, then assistant with the original content |
| FineTune.Query | openai-ft.py:8-23 | for rows joined on `ne.news_id = n.id`, one example per joined row, in join order |
| FineTune.LastN | openai-ft.py:27 | `xs[-n:]` keeps the last `min(n, len)` items in their original order |
| FineTune.Insert | openai-ft.py:30-36 | `list.insert` clamps the index, puts the item there and shifts the rest by one |
| FineTune.InsertAtFront | openai-ft.py:30-36 | inserting at 0 puts the item in front |
| FineTune.Export | openai-ft.py:26-39 | exactly `min(1000, n)` lines, one per selected row, in order, each with the system message at the front of its messages |
| FineTune.ExportedExample | openai-ft.py:8-39 | every exported line is exactly system, user (expanded content), assistant (original content) for the row it comes from |

## Left out

- The asyncio concurrency (semaphores, `create_task`, `as_completed`) is left out. The in-flight bound is the library's promise. The completion order is an input permutation, and the model treats every task as having finished before its result is consumed.
- Retries with tenacity are left out. Each remote call is represented by its outcome once the retries are spent. Two consequences of the source are not modelled:
  - `search` has no retry filter, so even the missing-key error is retried;
  - `embed` and `expand_content` retry without bound, so they may never return.
- Every remote service is a function, so two calls with the same payload get the same outcome. In the scripts, each call is a separate HTTP or LLM request that can succeed once and fail the next time. Three places rely on this:
  - Db.Database.UpdateSourceContent gives two NULL-content rows with the same URL the same content, or leaves both NULL.
  - Db.Database.Expand gives news rows with the same content the same expansion.
  - Search.SearchSeesOnlyPrefix gets its "same outcome" from this; the scripts promise only the same request.
- The remote services are function parameters: the Brave API, the OpenAI chat and embedding endpoints, and the `r.jina.ai` reader. The `Accept` and `Accept-Encoding` headers are left out; a non-2xx status (`raise_for_status`) becomes an `Err`.
- File I/O (json, aiofiles) and the `json.dumps` formatting (indentation, `default=str`) are left out. A save is a log entry holding the sink and the buffer contents.
- Only duckdb's row effects are modelled:
  - Left out: table and sequence DDL, the vss/HNSW index, commit and close.
  - Left out: primary and foreign key enforcement, so running `init` twice is not rejected.
  - Row order is table order, and the rows of the join in openai-ft.py are an input in the query's order.
- Logging, tqdm and print are left out.
- `datetime.strptime` is an abstract `parse` parameter.
- Embedding vectors are an opaque type parameter.
- `crawl_url_sync` is left out. It is an unused synchronous copy of `crawl_url`, made of I/O and prints.
- JSON values of an unexpected type are not modelled, and neither are missing keys (the `KeyError` for a missing `entry` or `url`). Search and embed receive the entry strings directly.
- Search.Search: the model's error carries the missing-key message. In the script, tenacity retries that `ValueError` too, and after six attempts raises its own `RetryError` without `reraise`. That error is what `process_entry` catches and logs. Either way the entry's slot is `None`, which is what the model states.
- Db.Database.Init requires every item it loads to have an `entry` and a `comment`. In the source, an item without them raises `KeyError` in `init` at db.py:72-73.
- Db.Database.Expand does not model the `TypeError` that ends the loop when a failed task's `None` is unpacked. The model stops there and reports `completed == false`. The rows inserted before the failure stay.
- The checkpoint rule follows the code: a partial save happens when `(done_so_far + 1) % interval == 0`, counted after the increment. Every partial save overwrites the partial file directly, with no temporary file and rename; a reader can see a half-written file, and the model does not capture this.
- The `print` of each expansion and response in db.py is left out.
