/** The embedding script: one embedding request per news entry, the vector
    stored in the entry's slot, a partial save every time the completion
    counter meets the cadence rule and a final save. The vector type `V` is
    left abstract. */
module Embed {
  import opened Wrappers
  import Collector

  const SAVE_INTERVAL := 1000

  /** The `EmbeddingResult` dataclass. */
  datatype EmbeddingResult<V> = EmbeddingResult(embedding: V)

  /** `process_entry`: never raises; hands back its own index with the result
      on success and `None` on any failure. `embed` is the embedding service,
      with its retries already spent. */
  function ProcessEntry<V>(index: nat, entry: string, embed: string -> Outcome<EmbeddingResult<V>>)
    : (r: (nat, Option<EmbeddingResult<V>>))
    ensures r.0 == index
    ensures r.1.Some? <==> embed(entry).Ok?
    ensures r.1.Some? ==> r.1.value == embed(entry).value
  {
    match embed(entry)
    case Ok(result) => (index, Some(result))
    case Err(_) => (index, None)
  }

  /** `result.embedding if result else None`: what the loop stores in a slot. */
  function Slot<V>(result: Option<EmbeddingResult<V>>): (slot: Option<V>)
    ensures slot.Some? <==> result.Some?
    ensures slot.Some? ==> slot.value == result.value.embedding
  {
    match result
    case Some(r) => Some(r.embedding)
    case None => None
  }

  /** The task list `[process_entry(i, entry["entry"], …) for i, entry in enumerate(data)]`. */
  function Tasks<V>(entries: seq<string>, embed: string -> Outcome<EmbeddingResult<V>>): seq<(nat, Option<EmbeddingResult<V>>)>
  {
    seq(|entries|, i requires 0 <= i < |entries| => ProcessEntry(i, entries[i], embed))
  }

  /** `main`: slot i ends up holding entry i's vector, or `None` when its
      request failed, whatever the completion order; `(n + 1) / 1000` partial
      saves, the j-th one after `1000 * j + 999` completions, and one final save. */
  method EmbedAll<V>(entries: seq<string>, embed: string -> Outcome<EmbeddingResult<V>>, order: seq<nat>)
    returns (done: nat, writes: seq<Collector.Checkpoint<V>>)
    requires Collector.IsCompletionOrder(order, |entries|)
    ensures done == |entries|
    ensures |writes| == (|entries| + 1) / SAVE_INTERVAL + 1
    ensures forall j :: 0 <= j < |writes| - 1 ==>
      && (j + 1) * SAVE_INTERVAL - 1 <= |entries|
      && writes[j] == Collector.Checkpoint(Collector.PartialSink,
           Collector.Snapshot(Tasks(entries, embed), order, (j + 1) * SAVE_INTERVAL - 1, Slot))
    ensures writes[|writes| - 1].sink == Collector.FinalSink
    ensures |writes[|writes| - 1].slots| == |entries|
    ensures forall i :: 0 <= i < |entries| ==>
      (writes[|writes| - 1].slots[i].Some? <==> embed(entries[i]).Ok?) &&
      (embed(entries[i]).Ok? ==> writes[|writes| - 1].slots[i] == Some(embed(entries[i]).value.embedding))
  {
    var tasks := Tasks(entries, embed);
    assert forall i :: 0 <= i < |tasks| ==> tasks[i].0 == i;
    done, writes := Collector.Run(tasks, order, SAVE_INTERVAL, Slot);
    Collector.SavePointsCount(|entries|, SAVE_INTERVAL);
    forall j | 0 <= j < |writes| - 1
      ensures (j + 1) * SAVE_INTERVAL - 1 <= |entries|
      ensures writes[j] == Collector.Checkpoint(Collector.PartialSink,
           Collector.Snapshot(tasks, order, (j + 1) * SAVE_INTERVAL - 1, Slot))
    {
      Collector.SavePointsAt(|entries|, SAVE_INTERVAL, j);
    }
    forall i | 0 <= i < |entries|
      ensures writes[|writes| - 1].slots[i].Some? <==> embed(entries[i]).Ok?
      ensures embed(entries[i]).Ok? ==> writes[|writes| - 1].slots[i] == Some(embed(entries[i]).value.embedding)
    {
      assert writes[|writes| - 1].slots[i] == Slot(tasks[i].1);
    }
  }
}
