/** The order-preserving result collector shared by the search and embedding
    scripts: a pre-allocated buffer with one slot per entry, filled in the
    order in which `asyncio.as_completed` hands back the tasks, with a
    partial save whenever the completion counter hits the cadence rule and
    one final save after the loop. */
module Collector {
  import opened Wrappers

  /** The two files a run writes: the partial snapshot, overwritten by every
      partial save, and the final results file. */
  datatype Sink = PartialSink | FinalSink

  /** One save: which file, and the whole result buffer as it was then. */
  datatype Checkpoint<S> = Checkpoint(sink: Sink, slots: seq<Option<S>>)

  /** `order[k]` is the task that `as_completed` hands back k-th: every one
      of the `n` tasks, each exactly once, in an order nobody controls. */
  predicate IsCompletionOrder(order: seq<nat>, n: nat)
  {
    && |order| == n
    && (forall k :: 0 <= k < n ==> order[k] < n)
    && (forall j, k :: 0 <= j < k < n ==> order[j] != order[k])
  }

  /** The indices below `n`. */
  function Below(n: nat): (r: set<nat>)
    ensures forall i: nat :: i in r <==> i < n
    ensures |r| == n
  {
    if n == 0 then {} else Below(n - 1) + {n - 1}
  }

  /** The indices a completion order has handed back. */
  function Elements(s: seq<nat>): set<nat>
  {
    set x | x in s
  }

  lemma {:induction false} DistinctCardinality(s: seq<nat>)
    requires forall j, k :: 0 <= j < k < |s| ==> s[j] != s[k]
    ensures |Elements(s)| == |s|
  {
    if |s| > 0 {
      var init, last := s[..|s| - 1], s[|s| - 1];
      DistinctCardinality(init);
      assert s == init + [last];
      assert Elements(s) == Elements(init) + {last};
      assert last !in Elements(init);
    }
  }

  /** Every task is handed back at some point: a completion order misses no index. */
  lemma CompletionOrderCovers(order: seq<nat>, n: nat)
    requires IsCompletionOrder(order, n)
    ensures forall i :: 0 <= i < n ==> i in order
  {
    var seen := Elements(order);
    var all := Below(n);
    DistinctCardinality(order);
    assert seen <= all;
    assert seen * all == seen;
    assert |all - seen| == |all| - |seen|;
    assert all - seen == {};
    forall i | 0 <= i < n
      ensures i in order
    {
      assert i in all;
    }
  }

  /** The completion counts after which a partial save is written: the loop
      increments `done_so_far` first and then saves when
      `(done_so_far + 1) % interval == 0`. */
  function SavePoints(n: nat, interval: nat): (points: seq<nat>)
    requires interval > 0
    ensures forall j :: 0 <= j < |points| ==> 1 <= points[j] <= n && (points[j] + 1) % interval == 0
    ensures forall j, k :: 0 <= j < k < |points| ==> points[j] < points[k]
    ensures forall c :: 1 <= c <= n && (c + 1) % interval == 0 ==> c in points
  {
    if n == 0 then [] else SavePoints(n - 1, interval) + (if (n + 1) % interval == 0 then [n] else [])
  }

  lemma DivModUnique(a: int, m: int, q: int, r: int)
    requires m > 0 && 0 <= r < m && a == m * q + r
    ensures a / m == q && a % m == r
  {
    var d := q - a / m;
    assert m * d == a % m - r;
    if d > 0 {
      assert false;
    } else if d < 0 {
      assert false;
    }
  }

  lemma DivStep(a: nat, m: nat)
    requires m > 0
    ensures (a + 1) / m == a / m + (if (a + 1) % m == 0 then 1 else 0)
  {
    var q, r := a / m, a % m;
    if r + 1 < m {
      DivModUnique(a + 1, m, q, r + 1);
    } else {
      DivModUnique(a + 1, m, q + 1, 0);
    }
  }

  /** With an interval of at least two, `n` completions give `(n + 1) / interval`
      partial saves (with the search script's 100: one per 100 completions). */
  lemma {:induction false} SavePointsCount(n: nat, interval: nat)
    requires interval >= 2
    ensures |SavePoints(n, interval)| == (n + 1) / interval
  {
    if n == 0 {
      DivModUnique(1, interval, 0, 1);
    } else {
      SavePointsCount(n - 1, interval);
      DivStep(n, interval);
    }
  }

  /** The j-th partial save happens after `(j + 1) * interval - 1` completions:
      99, 199, ... for an interval of 100, although the script's comment
      speaks of every 10. */
  lemma {:induction false} SavePointsAt(n: nat, interval: nat, j: nat)
    requires interval >= 2
    requires j < |SavePoints(n, interval)|
    ensures SavePoints(n, interval)[j] == (j + 1) * interval - 1
  {
    var prev := SavePoints(n - 1, interval);
    assert SavePoints(n, interval) == prev + (if (n + 1) % interval == 0 then [n] else []);
    if j < |prev| {
      SavePointsAt(n - 1, interval, j);
    } else {
      LastSavePoint(n, interval);
      SavePointsCount(n - 1, interval);
    }
  }

  lemma LastSavePoint(n: nat, interval: nat)
    requires interval >= 2 && n > 0 && (n + 1) % interval == 0
    ensures n + 1 == (n / interval + 1) * interval
  {
    DivStep(n, interval);
    var q := (n + 1) / interval;
    assert n + 1 == interval * q + (n + 1) % interval;
    assert q == n / interval + 1;
  }

  /** The result buffer after the first `c` completions: the slot of every
      task already handed back holds its outcome, every other slot is `None`. */
  function Snapshot<R, S>(tasks: seq<(nat, Option<R>)>, order: seq<nat>, c: nat, toSlot: Option<R> -> Option<S>): seq<Option<S>>
    requires c <= |order|
  {
    seq(|tasks|, i requires 0 <= i < |tasks| => if i in order[..c] then toSlot(tasks[i].1) else None)
  }

  /** A partial snapshot never disagrees with the final results: each of its
      slots is either still empty or already holds that entry's final value. */
  lemma SnapshotAgreesWithFinal<R, S>(tasks: seq<(nat, Option<R>)>, order: seq<nat>, c: nat, toSlot: Option<R> -> Option<S>, i: nat)
    requires c <= |order| && i < |tasks|
    ensures |Snapshot(tasks, order, c, toSlot)| == |tasks|
    ensures Snapshot(tasks, order, c, toSlot)[i] in {None, toSlot(tasks[i].1)}
  {
  }

  /** The `as_completed` loop of `main`: each completion writes only the slot
      of its own returned index, the counter counts completions, partial saves
      follow the cadence rule and the final save is written once, at the end.
      `toSlot` is what the script stores for a task's result. */
  method Run<R, S>(tasks: seq<(nat, Option<R>)>, order: seq<nat>, interval: nat, toSlot: Option<R> -> Option<S>)
    returns (done: nat, writes: seq<Checkpoint<S>>)
    requires forall i :: 0 <= i < |tasks| ==> tasks[i].0 == i
    requires IsCompletionOrder(order, |tasks|)
    requires interval > 0
    ensures done == |tasks|
    ensures |writes| == |SavePoints(|tasks|, interval)| + 1
    ensures forall j :: 0 <= j < |writes| - 1 ==>
      writes[j] == Checkpoint(PartialSink, Snapshot(tasks, order, SavePoints(|tasks|, interval)[j], toSlot))
    ensures writes[|writes| - 1].sink == FinalSink
    ensures |writes[|writes| - 1].slots| == |tasks|
    ensures forall i :: 0 <= i < |tasks| ==> writes[|writes| - 1].slots[i] == toSlot(tasks[i].1)
  {
    var n := |tasks|;
    var results := new Option<S>[n](_ => None);
    done := 0;
    writes := [];
    var k := 0;
    while k < n
      invariant 0 <= k <= n && done == k
      invariant results[..] == Snapshot(tasks, order, k, toSlot)
      invariant |writes| == |SavePoints(k, interval)|
      invariant forall j :: 0 <= j < |writes| ==>
        writes[j] == Checkpoint(PartialSink, Snapshot(tasks, order, SavePoints(k, interval)[j], toSlot))
    {
      var (index, result) := tasks[order[k]];
      results[index] := toSlot(result);
      done := done + 1;
      assert order[..k + 1] == order[..k] + [order[k]];
      assert results[..] == Snapshot(tasks, order, k + 1, toSlot);
      if (done + 1) % interval == 0 {
        writes := writes + [Checkpoint(PartialSink, results[..])];
      }
      k := k + 1;
    }
    CompletionOrderCovers(order, n);
    assert order[..n] == order;
    writes := writes + [Checkpoint(FinalSink, results[..])];
  }
}
