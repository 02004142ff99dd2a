/** The web-search script: one Brave search per news entry, shaped into at
    most eight result records, collected in entry order with a partial save
    every time the completion counter meets the cadence rule. */
module Search {
  import opened Wrappers
  import Collector

  const MAX_QUERY_LENGTH := 128
  const MAX_RESULTS := 8
  const SAVE_INTERVAL := 100
  const ENDPOINT := "https://api.search.brave.com/res/v1/web/search"
  const MISSING_KEY_MESSAGE := "BRAVE_API_KEY environment variable is not set"

  /** A parsed `page_age` timestamp (`%Y-%m-%dT%H:%M:%S`). */
  datatype DateTime = DateTime(year: int, month: int, day: int, hour: int, minute: int, second: int)

  /** One result record as the script keeps it (the `SearchResult` dataclass). */
  datatype SearchResult = SearchResult(
    title: string,
    url: string,
    description: string,
    pageAge: Option<DateTime>,
    profile: map<string, string>,
    language: string,
    kind: string,
    subtype: string)

  /** One element of the response's `web.results` list: every key may be absent. */
  datatype Item = Item(
    title: Option<string>,
    url: Option<string>,
    description: Option<string>,
    pageAge: Option<string>,
    profile: Option<map<string, string>>,
    language: Option<string>,
    kind: Option<string>,
    subtype: Option<string>)

  datatype Web = Web(results: Option<seq<Item>>)

  /** The decoded JSON body of a search response. */
  datatype Response = Response(web: Option<Web>)

  /** The GET request the script sends: endpoint, the `q` parameter and the
      subscription token header. */
  datatype Request = Request(url: string, query: string, token: string)

  /** The request for a query: only its first 128 characters are sent. */
  function BraveRequest(query: string, apiKey: string): (r: Request)
    ensures |r.query| == Min(MAX_QUERY_LENGTH, |query|)
    ensures r.query == query[..|r.query|]
    ensures r.token == apiKey && r.url == ENDPOINT
  {
    Request(ENDPOINT, query[..Min(MAX_QUERY_LENGTH, |query|)], apiKey)
  }

  /** `data.get("web", {}).get("results", [])`. */
  function ResultItems(response: Response): (items: seq<Item>)
    ensures response.web.None? ==> items == []
    ensures response.web.Some? && response.web.value.results.None? ==> items == []
    ensures response.web.Some? && response.web.value.results.Some? ==> items == response.web.value.results.value
  {
    match response.web
    case None => []
    case Some(web) =>
      match web.results
      case None => []
      case Some(items) => items
  }

  function OrEmpty(field: Option<string>): string
  {
    match field
    case Some(s) => s
    case None => ""
  }

  /** One item becomes one record: absent text fields become "", an absent
      profile the empty dictionary, and `page_age` is kept only when it parses. */
  function ToSearchResult(item: Item, parse: string -> Option<DateTime>): (r: SearchResult)
    ensures item.title.None? ==> r.title == ""
    ensures item.title.Some? ==> r.title == item.title.value
    ensures item.url.None? ==> r.url == ""
    ensures item.url.Some? ==> r.url == item.url.value
    ensures item.description.None? ==> r.description == ""
    ensures item.description.Some? ==> r.description == item.description.value
    ensures item.language.None? ==> r.language == ""
    ensures item.language.Some? ==> r.language == item.language.value
    ensures item.kind.None? ==> r.kind == ""
    ensures item.kind.Some? ==> r.kind == item.kind.value
    ensures item.subtype.None? ==> r.subtype == ""
    ensures item.subtype.Some? ==> r.subtype == item.subtype.value
    ensures item.profile.None? ==> r.profile == map[]
    ensures item.profile.Some? ==> r.profile == item.profile.value
    ensures r.pageAge.Some? <==> item.pageAge.Some? && parse(item.pageAge.value).Some?
    ensures r.pageAge.Some? ==> r.pageAge == parse(item.pageAge.value)
  {
    SearchResult(
      OrEmpty(item.title),
      OrEmpty(item.url),
      OrEmpty(item.description),
      if item.pageAge.Some? then parse(item.pageAge.value) else None,
      if item.profile.Some? then item.profile.value else map[],
      OrEmpty(item.language),
      OrEmpty(item.kind),
      OrEmpty(item.subtype))
  }

  /** The records `search` returns for a list of items. */
  function Shaped(items: seq<Item>, parse: string -> Option<DateTime>): (r: seq<SearchResult>)
    ensures |r| == Min(MAX_RESULTS, |items|) && |r| <= MAX_RESULTS
    ensures forall i :: 0 <= i < |r| ==> r[i] == ToSearchResult(items[i], parse)
  {
    seq(Min(MAX_RESULTS, |items|), i requires 0 <= i < Min(MAX_RESULTS, |items|) => ToSearchResult(items[i], parse))
  }

  /** The append loop of `search`: the first eight items, in the order the
      response lists them, each shaped into a record. */
  method CollectResults(items: seq<Item>, parse: string -> Option<DateTime>) returns (results: seq<SearchResult>)
    ensures |results| == Min(MAX_RESULTS, |items|) && |results| <= MAX_RESULTS
    ensures forall i :: 0 <= i < |results| ==> results[i] == ToSearchResult(items[i], parse)
    ensures results == Shaped(items, parse)
  {
    var capped := items[..Min(MAX_RESULTS, |items|)];
    results := [];
    for k := 0 to |capped|
      invariant |results| == k
      invariant forall i :: 0 <= i < k ==> results[i] == ToSearchResult(capped[i], parse)
    {
      results := results + [ToSearchResult(capped[k], parse)];
    }
  }

  predicate HasKey(apiKey: Option<string>)
  {
    apiKey.Some? && apiKey.value != ""
  }

  /** `search`: an unset or empty API key raises before any request; otherwise
      the outcome of the one request for the truncated query decides. `brave`
      is the search service, with its retries already spent. */
  function Search(query: string, apiKey: Option<string>, brave: Request -> Outcome<Response>, parse: string -> Option<DateTime>)
    : (r: Outcome<seq<SearchResult>>)
    ensures !HasKey(apiKey) ==> r == Err(MISSING_KEY_MESSAGE)
    ensures HasKey(apiKey) ==> (r.Ok? <==> brave(BraveRequest(query, apiKey.value)).Ok?)
    ensures HasKey(apiKey) && r.Err? ==> r == Err(brave(BraveRequest(query, apiKey.value)).message)
    ensures r.Ok? ==>
      var items := ResultItems(brave(BraveRequest(query, apiKey.value)).value);
      && |r.value| == Min(MAX_RESULTS, |items|)
      && forall i :: 0 <= i < |r.value| ==> r.value[i] == ToSearchResult(items[i], parse)
  {
    if !HasKey(apiKey) then Err(MISSING_KEY_MESSAGE)
    else
      match brave(BraveRequest(query, apiKey.value))
      case Err(e) => Err(e)
      case Ok(response) => Ok(Shaped(ResultItems(response), parse))
  }

  /** Two entries that agree on their first 128 characters send the same
      request, so a service that answers a request one way gives them the
      same outcome. */
  lemma SearchSeesOnlyPrefix(q1: string, q2: string, apiKey: Option<string>, brave: Request -> Outcome<Response>, parse: string -> Option<DateTime>)
    requires q1[..Min(MAX_QUERY_LENGTH, |q1|)] == q2[..Min(MAX_QUERY_LENGTH, |q2|)]
    ensures forall key :: BraveRequest(q1, key) == BraveRequest(q2, key)
    ensures Search(q1, apiKey, brave, parse) == Search(q2, apiKey, brave, parse)
  {
    if HasKey(apiKey) {
      assert BraveRequest(q1, apiKey.value) == BraveRequest(q2, apiKey.value);
    }
  }

  /** `process_entry`: never raises; hands back its own index with the
      records on success and `None` on any failure. */
  function ProcessEntry(index: nat, entry: string, apiKey: Option<string>, brave: Request -> Outcome<Response>, parse: string -> Option<DateTime>)
    : (r: (nat, Option<seq<SearchResult>>))
    ensures r.0 == index
    ensures r.1.Some? <==> Search(entry, apiKey, brave, parse).Ok?
    ensures r.1.Some? ==> r.1.value == Search(entry, apiKey, brave, parse).value
  {
    match Search(entry, apiKey, brave, parse)
    case Ok(results) => (index, Some(results))
    case Err(_) => (index, None)
  }

  /** How `save_results` writes one slot: a failed entry and an entry with
      no records both become `null`; anything else is kept as it is. */
  function SerializeSlot(slot: Option<seq<SearchResult>>): (out: Option<seq<SearchResult>>)
    ensures out.None? <==> slot.None? || slot == Some([])
    ensures out.Some? ==> out == slot
  {
    if slot.Some? && slot.value != [] then slot else None
  }

  /** `save_results`: one output slot per entry, in entry order. */
  function Serialize(results: seq<Option<seq<SearchResult>>>): (out: seq<Option<seq<SearchResult>>>)
    ensures |out| == |results|
    ensures forall i :: 0 <= i < |results| ==> out[i] == SerializeSlot(results[i])
  {
    seq(|results|, i requires 0 <= i < |results| => SerializeSlot(results[i]))
  }

  /** Saving what was already saved changes nothing: a `null` slot stays
      `null`, so reloading a saved file and saving it again (as a rerun of the
      script over its own output would) leaves it as it is. */
  lemma SerializeIdempotent(results: seq<Option<seq<SearchResult>>>)
    ensures Serialize(Serialize(results)) == Serialize(results)
  {
  }

  /** `results[index] = result`: the search script stores a task's result as it is. */
  function Keep(result: Option<seq<SearchResult>>): Option<seq<SearchResult>>
  {
    result
  }

  /** The task list `[process_entry(i, entry["entry"], …) for i, entry in enumerate(data)]`. */
  function Tasks(entries: seq<string>, apiKey: Option<string>, brave: Request -> Outcome<Response>, parse: string -> Option<DateTime>)
    : seq<(nat, Option<seq<SearchResult>>)>
  {
    seq(|entries|, i requires 0 <= i < |entries| => ProcessEntry(i, entries[i], apiKey, brave, parse))
  }

  /** `main`: every entry searched, results kept in entry order whatever the
      completion order, `(n + 1) / 100` partial saves, the j-th one after
      `100 * j + 99` completions, and one final save of every entry's result. */
  method SearchAll(entries: seq<string>, apiKey: Option<string>, brave: Request -> Outcome<Response>, parse: string -> Option<DateTime>, order: seq<nat>)
    returns (done: nat, writes: seq<Collector.Checkpoint<seq<SearchResult>>>)
    requires Collector.IsCompletionOrder(order, |entries|)
    ensures done == |entries|
    ensures |writes| == (|entries| + 1) / SAVE_INTERVAL + 1
    ensures forall j :: 0 <= j < |writes| - 1 ==>
      && (j + 1) * SAVE_INTERVAL - 1 <= |entries|
      && writes[j] == Collector.Checkpoint(Collector.PartialSink,
           Serialize(Collector.Snapshot(Tasks(entries, apiKey, brave, parse), order, (j + 1) * SAVE_INTERVAL - 1, Keep)))
    ensures writes[|writes| - 1].sink == Collector.FinalSink
    ensures |writes[|writes| - 1].slots| == |entries|
    ensures forall i :: 0 <= i < |entries| ==>
      writes[|writes| - 1].slots[i] == SerializeSlot(ProcessEntry(i, entries[i], apiKey, brave, parse).1)
  {
    var tasks := Tasks(entries, apiKey, brave, parse);
    assert forall i :: 0 <= i < |tasks| ==> tasks[i].0 == i;
    var raw;
    done, raw := Collector.Run(tasks, order, SAVE_INTERVAL, Keep);
    writes := seq(|raw|, j requires 0 <= j < |raw| => Collector.Checkpoint(raw[j].sink, Serialize(raw[j].slots)));
    Collector.SavePointsCount(|entries|, SAVE_INTERVAL);
    forall j | 0 <= j < |writes| - 1
      ensures (j + 1) * SAVE_INTERVAL - 1 <= |entries|
      ensures writes[j] == Collector.Checkpoint(Collector.PartialSink,
           Serialize(Collector.Snapshot(tasks, order, (j + 1) * SAVE_INTERVAL - 1, Keep)))
    {
      Collector.SavePointsAt(|entries|, SAVE_INTERVAL, j);
    }
    var last := raw[|raw| - 1];
    assert writes[|writes| - 1] == Collector.Checkpoint(last.sink, Serialize(last.slots));
    forall i | 0 <= i < |entries|
      ensures writes[|writes| - 1].slots[i] == SerializeSlot(ProcessEntry(i, entries[i], apiKey, brave, parse).1)
    {
      assert last.slots[i] == Keep(tasks[i].1);
    }
  }
}
