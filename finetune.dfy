/** The fine-tuning export: the expansions joined with their news rows, each
    turned into a chat example (expanded text as the user turn, the original
    summary as the assistant turn), of which the last 1000 are written out
    with a fixed system instruction put in front. */
module FineTune {
  import opened Wrappers
  import Chat
  import Db

  const SYSTEM_PROMPT := "请将以下新闻总结为一条 200 字左右的新闻快报。请只保留最重要的信息。"
  /** How many of the last query rows are exported. */
  const EXPORT_LIMIT := 1000

  datatype Example = Example(messages: seq<Chat.Message>)

  /** One row of the join: an expansion and the news row it refers to. */
  datatype Joined = Joined(row: Db.ExpandedRow, item: Db.NewsRow)

  /** The join condition `ne.news_id = n.id`: the expansion refers to that news row. */
  predicate JoinsOn(j: Joined)
  {
    j.row.newsId == j.item.id
  }

  /** The query's row for a joined pair: the expanded text as the user turn,
      the original summary as the assistant turn. */
  function QueryExample(j: Joined): (r: Example)
    ensures |r.messages| == 2
    ensures r.messages[0].role == Chat.User && r.messages[0].content == j.row.expandedContent
    ensures r.messages[1].role == Chat.Assistant && r.messages[1].content == j.item.content
  {
    Example([Chat.Message(Chat.User, j.row.expandedContent), Chat.Message(Chat.Assistant, j.item.content)])
  }

  /** The rows `fetchall` returns, one example per joined pair; every pair
      satisfies the join condition. */
  function Query(joined: seq<Joined>): (rows: seq<Example>)
    requires forall p :: 0 <= p < |joined| ==> JoinsOn(joined[p])
    ensures |rows| == |joined|
    ensures forall p :: 0 <= p < |rows| ==> rows[p] == QueryExample(joined[p])
  {
    seq(|joined|, p requires 0 <= p < |joined| => QueryExample(joined[p]))
  }

  /** Python's `xs[-n:]` for a positive `n`: the last `n` items, or all of
      them when there are fewer. */
  function LastN<T>(xs: seq<T>, n: nat): (r: seq<T>)
    requires n > 0
    ensures |r| == Min(n, |xs|)
    ensures forall k :: 0 <= k < |r| ==> r[k] == xs[|xs| - |r| + k]
  {
    if |xs| <= n then xs else xs[|xs| - n..]
  }

  /** Python's `list.insert(i, x)`: a negative index counts from the end,
      and the index is clamped to the list's bounds. */
  function Insert<T>(xs: seq<T>, i: int, x: T): (r: seq<T>)
    ensures |r| == |xs| + 1
    ensures var at := if i < 0 then (if i + |xs| < 0 then 0 else i + |xs|) else (if i > |xs| then |xs| else i);
      && r[at] == x
      && (forall k :: 0 <= k < at ==> r[k] == xs[k])
      && (forall k :: at <= k < |xs| ==> r[k + 1] == xs[k])
  {
    var at := if i < 0 then (if i + |xs| < 0 then 0 else i + |xs|) else (if i > |xs| then |xs| else i);
    xs[..at] + [x] + xs[at..]
  }

  /** Inserting at position 0 puts the item in front of the list. */
  lemma InsertAtFront<T>(xs: seq<T>, x: T)
    ensures Insert(xs, 0, x) == [x] + xs
  {
    var r := Insert(xs, 0, x);
    assert forall k :: 0 <= k < |xs| ==> r[k + 1] == xs[k];
    assert r[0] == x;
  }

  /** The export loop: for each of the last 1000 query rows, in order, the
      system instruction is inserted at the front of its messages and the
      example is written as one line. */
  method Export(rows: seq<Example>) returns (lines: seq<Example>)
    ensures |lines| == Min(EXPORT_LIMIT, |rows|)
    ensures forall k :: 0 <= k < |lines| ==>
      lines[k].messages == [Chat.Message(Chat.System, SYSTEM_PROMPT)] + rows[|rows| - |lines| + k].messages
  {
    var selected := LastN(rows, EXPORT_LIMIT);
    lines := [];
    for k := 0 to |selected|
      invariant |lines| == k
      invariant forall j :: 0 <= j < k ==> lines[j].messages == [Chat.Message(Chat.System, SYSTEM_PROMPT)] + selected[j].messages
    {
      var example := selected[k];
      var messages := Insert(example.messages, 0, Chat.Message(Chat.System, SYSTEM_PROMPT));
      InsertAtFront(example.messages, Chat.Message(Chat.System, SYSTEM_PROMPT));
      lines := lines + [example.(messages := messages)];
    }
  }

  /** Every exported line is exactly system instruction, expanded text,
      original summary, for the joined pair it comes from. */
  lemma ExportedExample(joined: seq<Joined>, lines: seq<Example>, k: nat)
    requires forall p :: 0 <= p < |joined| ==> JoinsOn(joined[p])
    requires var rows := Query(joined);
      && |lines| == Min(EXPORT_LIMIT, |rows|)
      && forall j :: 0 <= j < |lines| ==>
        lines[j].messages == [Chat.Message(Chat.System, SYSTEM_PROMPT)] + rows[|rows| - |lines| + j].messages
    requires k < |lines|
    ensures var pair := joined[|joined| - |lines| + k];
      lines[k].messages == [
        Chat.Message(Chat.System, SYSTEM_PROMPT),
        Chat.Message(Chat.User, pair.row.expandedContent),
        Chat.Message(Chat.Assistant, pair.item.content)]
  {
    var rows := Query(joined);
    var m := rows[|rows| - |lines| + k].messages;
    assert m == QueryExample(joined[|joined| - |lines| + k]).messages;
  }
}
