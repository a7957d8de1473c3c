/**
  Where an enqueued event ends up (content_tool/observability/event_log.py): a committed
  flush writes all that was queued, and every event is in the table, in the queue, or
  lost to one flush that failed or one restart.
*/
module EventPlaces {
  import opened Wrappers
  import opened PyStr
  import opened EventLog

  // ------------------------------------------------------ what a flush writes

  /** `row` was made of the item processed at `pos`. */
  predicate MadeOf(row: Row, item: Item, pos: nat) {
    row.stream == item.env.stream && row.event == item.env.event && row.pos == pos
  }

  lemma {:induction false} BuiltInOrder(g: Log, items: seq<Item>)
    ensures var (g', built) := BuildAll(g, items);
            && |built| == |items|
            && g'.processed == g.processed + items
            && forall i :: 0 <= i < |items| ==> MadeOf(built[i], items[i], |g.processed| + i)
  {
    BatchIsProcessed(g, items);
    if items != [] {
      var n := |items| - 1;
      BuiltInOrder(g, items[..n]);
      BatchIsProcessed(g, items[..n]);
    }
  }

  /**
    A committed flush adds to the table, behind what it holds, one row for each queued
    event, with its stream and name and in queue order; it empties the queue and
    loses nothing. A flush that fails leaves the table alone.
  */
  lemma FlushWritesTheQueue(es: seq<Event>, outcome: FlushOutcome)
    ensures var g, g' := Run(es), Run(es + [Flush(outcome)]);
            && g'.queue == [] && g'.enqueued == g.enqueued
            && (outcome.Committed? ==>
                  && |g'.rows| == |g.rows| + |g.queue| && g.rows <= g'.rows
                  && g'.processed == g.processed + g.queue && g'.dropped == g.dropped
                  && forall i :: 0 <= i < |g.queue| ==>
                       MadeOf(g'.rows[|g.rows| + i], g.queue[i], |g.processed| + i))
            && (!outcome.Committed? ==> g'.rows == g.rows && g.processed <= g'.processed)
  {
    hide BuildAll;
    var g := Run(es);
    RunNext(es, Flush(outcome));
    var batch := g.queue[..Batched(|g.queue|, outcome)];
    BuiltInOrder(g.(queue := []), batch);
    BatchIsProcessed(g.(queue := []), batch);
    if outcome.Committed? {
      assert batch == g.queue;
    }
  }

  lemma RunNext(es: seq<Event>, e: Event)
    ensures Run(es + [e]) == Step(Run(es), e)
  {
    assert (es + [e])[..|es|] == es;
  }

  /** The event is queued: it is no thinking event, or these are kept. */
  predicate Kept(e: Event) {
    e.Enqueue? && (EndsWith(e.env.event, ".thinking") ==> e.persistThinking)
  }

  /** The events that were queued, in the order of their tickets. */
  function Queued(es: seq<Event>): seq<Envelope> {
    if es == [] then []
    else Queued(es[..|es| - 1]) + (if Kept(es[|es| - 1]) then [es[|es| - 1].env] else [])
  }

  lemma QueuedNext(es: seq<Event>, e: Event)
    ensures Queued(es + [e]) == Queued(es) + (if Kept(e) then [e.env] else [])
  {
    assert (es + [e])[..|es|] == es;
  }

  predicate Ticketed(items: seq<Item>, queued: seq<Envelope>) {
    forall i :: 0 <= i < |items| ==> items[i].ticket < |queued| && items[i].env == queued[items[i].ticket]
  }

  /** A ticket always stands for the event it was given to. */
  lemma {:induction false} TicketsAreTrue(es: seq<Event>)
    ensures Run(es).enqueued == |Queued(es)|
    ensures Ticketed(Run(es).processed, Queued(es)) && Ticketed(Run(es).queue, Queued(es))
  {
    if es != [] {
      var init, e := es[..|es| - 1], es[|es| - 1];
      assert es == init + [e];
      var g := Run(init);
      TicketsAreTrue(init);
      RunNext(init, e);
      QueuedNext(init, e);
      match e
      case Enqueue(env, persistThinking) =>
      case Restart =>
      case Flush(outcome) =>
        var batch := g.queue[..Batched(|g.queue|, outcome)];
        BatchIsProcessed(g.(queue := []), batch);
        FlushWritesTheQueue(init, outcome);
    }
  }

  // ------------------------------------------------------------- the places

  /** Row i was made of the event with ticket t. */
  predicate RowHolds(g: Log, i: nat, t: nat)
    requires i < |g.rows|
  {
    g.rows[i].pos < |g.processed| && g.processed[g.rows[i].pos].ticket == t
  }

  predicate InTable(g: Log, t: nat) {
    exists i :: 0 <= i < |g.rows| && RowHolds(g, i, t)
  }

  predicate InQueue(g: Log, t: nat) {
    exists i :: 0 <= i < |g.queue| && g.queue[i].ticket == t
  }

  /** Empties the queue without writing it. */
  predicate Loses(e: Event) {
    e.Restart? || (e.Flush? && !e.outcome.Committed?)
  }

  /** The k-th event lost ticket t. */
  predicate LostAt(es: seq<Event>, k: nat, t: nat) {
    k < |es| && Loses(es[k]) && InQueue(Run(es[..k]), t)
  }

  predicate Lost(es: seq<Event>, t: nat) {
    exists k: nat :: k < |es| && LostAt(es, k, t)
  }

  lemma LostNext(es: seq<Event>, e: Event, t: nat)
    ensures Lost(es + [e], t) <==> Lost(es, t) || (Loses(e) && InQueue(Run(es), t))
  {
    hide Run, InQueue;
    var es' := es + [e];
    assert es'[..|es|] == es;
    forall k: nat | k < |es|
      ensures LostAt(es', k, t) <==> LostAt(es, k, t)
    {
      assert es'[..k] == es[..k];
    }
    if Lost(es, t) {
      var k: nat :| k < |es| && LostAt(es, k, t);
      assert LostAt(es', k, t);
    }
    if Loses(e) && InQueue(Run(es), t) {
      assert LostAt(es', |es|, t);
    }
  }

  lemma TableNext(es: seq<Event>, e: Event, t: nat)
    ensures InTable(Run(es + [e]), t) <==>
            InTable(Run(es), t) || (e == Flush(Committed) && InQueue(Run(es), t))
  {
    hide Run, BuildAll;
    var g, g' := Run(es), Run(es + [e]);
    RunNext(es, e);
    AlwaysGood(es);
    forall i | 0 <= i < |g.rows|
      ensures g.rows[i].pos < |g.processed|
    {
      RankOf(g.rows, g.dropped, g.processed, i);
    }
    if e.Flush? {
      FlushWritesTheQueue(es, e.outcome);
      if e.outcome.Committed? {
        CommitMoves(g, g', t);
      } else {
        TableStays(g, g', t);
      }
    } else {
      TableStays(g, g', t);
    }
  }

  lemma TableStays(g: Log, g': Log, t: nat)
    requires forall i :: 0 <= i < |g.rows| ==> g.rows[i].pos < |g.processed|
    requires g'.rows == g.rows && g.processed <= g'.processed
    ensures InTable(g', t) <==> InTable(g, t)
  {
    assert forall i :: 0 <= i < |g.rows| ==> (RowHolds(g', i, t) <==> RowHolds(g, i, t));
  }

  lemma CommitMoves(g: Log, g': Log, t: nat)
    requires forall i :: 0 <= i < |g.rows| ==> g.rows[i].pos < |g.processed|
    requires |g'.rows| == |g.rows| + |g.queue| && g.rows <= g'.rows && g'.processed == g.processed + g.queue
    requires forall i :: 0 <= i < |g.queue| ==> MadeOf(g'.rows[|g.rows| + i], g.queue[i], |g.processed| + i)
    ensures InTable(g', t) <==> InTable(g, t) || InQueue(g, t)
  {
    hide RowHolds, MadeOf;
    var n := |g.rows|;
    forall i | 0 <= i < |g'.rows|
      ensures if i < n then RowHolds(g', i, t) <==> RowHolds(g, i, t)
              else RowHolds(g', i, t) <==> g.queue[i - n].ticket == t
    {
      RowMoves(g, g', i, t);
    }
    if InQueue(g, t) {
      var j :| 0 <= j < |g.queue| && g.queue[j].ticket == t;
      assert RowHolds(g', n + j, t);
    }
    if InTable(g, t) {
      var i :| 0 <= i < n && RowHolds(g, i, t);
      assert RowHolds(g', i, t);
    }
  }

  lemma RowMoves(g: Log, g': Log, i: nat, t: nat)
    requires |g'.rows| == |g.rows| + |g.queue| && i < |g'.rows|
    requires g.rows <= g'.rows && g'.processed == g.processed + g.queue
    requires if i < |g.rows| then g.rows[i].pos < |g.processed|
             else MadeOf(g'.rows[|g.rows| + (i - |g.rows|)], g.queue[i - |g.rows|], |g.processed| + (i - |g.rows|))
    ensures if i < |g.rows| then RowHolds(g', i, t) <==> RowHolds(g, i, t)
            else RowHolds(g', i, t) <==> g.queue[i - |g.rows|].ticket == t
  {
  }

  lemma QueueNext(es: seq<Event>, e: Event, t: nat)
    ensures InQueue(Run(es + [e]), t) <==>
            e.Enqueue? && (InQueue(Run(es), t) || (Kept(e) && t == Run(es).enqueued))
    ensures Run(es + [e]).enqueued == Run(es).enqueued + (if Kept(e) then 1 else 0)
  {
    hide Run, BuildAll;
    var g, g' := Run(es), Run(es + [e]);
    RunNext(es, e);
    if e.Flush? {
      FlushWritesTheQueue(es, e.outcome);
    } else if Kept(e) {
      assert g'.queue[|g.queue|].ticket == g.enqueued;
      assert forall i :: 0 <= i < |g.queue| ==> g'.queue[i] == g.queue[i];
    }
  }

  /** Exactly one of three. */
  predicate One(a: bool, b: bool, c: bool) {
    (a || b || c) && !(a && b) && !(b && c) && !(a && c)
  }

  /**
    In any run each event that was queued is in exactly one place: in the table, in the
    queue, or lost to a failed flush or a restart; and no other event is anywhere.
  */
  lemma {:induction false} EachInOnePlace(es: seq<Event>, t: nat)
    ensures if t < Run(es).enqueued then One(InTable(Run(es), t), InQueue(Run(es), t), Lost(es, t))
            else !InTable(Run(es), t) && !InQueue(Run(es), t) && !Lost(es, t)
  {
    if es != [] {
      hide Run, InTable, InQueue, Lost;
      var init, e := es[..|es| - 1], es[|es| - 1];
      assert es == init + [e];
      EachInOnePlace(init, t);
      TableNext(init, e, t);
      QueueNext(init, e, t);
      LostNext(init, e, t);
    }
  }

  /** A row in the table carries the stream and name of the event its ticket stands for. */
  lemma RowsAreTheEvents(es: seq<Event>, i: nat)
    requires i < |Run(es).rows|
    ensures var g := Run(es);
            && g.rows[i].pos < |g.processed|
            && var t := g.processed[g.rows[i].pos].ticket;
            && t < |Queued(es)|
            && g.rows[i].stream == Queued(es)[t].stream && g.rows[i].event == Queued(es)[t].event
  {
    hide Run;
    AlwaysGood(es);
    TicketsAreTrue(es);
    RankOf(Run(es).rows, Run(es).dropped, Run(es).processed, i);
  }

  // ------------------------------------------------------ numbers and steps

  function Rank(items: seq<Item>, stream: string): nat {
    if items == [] then 0
    else Rank(items[..|items| - 1], stream) + (if items[|items| - 1].env.stream == stream then 1 else 0)
  }

  /** The number that the stream's next row takes: the writer's own count, or what the table holds. */
  function NextNumber(g: Log, stream: string): int {
    if stream in g.seqs then g.seqs[stream] else MaxSeq(g.rows, stream) + 1
  }

  ghost predicate Counted(g: Log, g': Log, taken: seq<Item>) {
    && (forall st :: st in g'.seqs <==> st in g.seqs || Rank(taken, st) > 0)
    && (forall st :: st in g'.seqs ==> g'.seqs[st] == NextNumber(g, st) + Rank(taken, st))
  }

  lemma {:induction false} NumbersInOrder(g: Log, items: seq<Item>)
    ensures var (g', built) := BuildAll(g, items);
            && Counted(g, g', items) && |built| == |items|
            && forall i :: 0 <= i < |items| ==>
                 built[i].seqNo == NextNumber(g, items[i].env.stream) + Rank(items[..i], items[i].env.stream)
  {
    hide BuildAll, BuildRow, SeedSeq, Counted, Rank;
    if items == [] {
      NoneCounted(g);
    } else {
      var n := |items| - 1;
      var init := items[..n];
      NumbersInOrder(g, init);
      assert items == init + [items[n]];
      BuildAllNext(g, init, items[n]);
      CountedNext(g, BuildAll(g, init).0, init, items[n]);
      assert forall i :: 0 <= i < n ==> items[..i] == init[..i];
    }
  }

  lemma NoneCounted(g: Log)
    ensures BuildAll(g, []) == (g, []) && Counted(g, g, [])
  {
  }

  lemma CountedNext(g: Log, g1: Log, taken: seq<Item>, item: Item)
    requires Counted(g, g1, taken) && g1.rows == g.rows
    ensures var (g2, row) := BuildRow(SeedSeq(g1, item.env.stream), item);
            && Counted(g, g2, taken + [item])
            && row.seqNo == NextNumber(g, item.env.stream) + Rank(taken, item.env.stream)
  {
    hide Rank;
    RankNext(taken, item);
  }

  lemma RankNext(items: seq<Item>, item: Item)
    ensures forall st :: Rank(items + [item], st) == Rank(items, st) + (if item.env.stream == st then 1 else 0)
  {
    assert (items + [item])[..|items|] == items;
  }

  /** How many of `n` queued events take a number, by how the flush ends. */
  function Taking(n: nat, outcome: FlushOutcome): nat {
    match outcome
    case FailsAt(k) => if k <= n then k else n
    case RowFails(k) => if k + 1 <= n then k + 1 else n
    case _ => n
  }

  /**
    A flush numbers the queue stream by stream, each from where the stream stands. The rows
    of a committed flush carry these numbers; a flush that fails uses up the numbers of the
    events it reached, and only those.
  */
  lemma FlushNumbers(es: seq<Event>, outcome: FlushOutcome)
    ensures var g, g' := Run(es), Run(es + [Flush(outcome)]);
            && Taking(|g.queue|, outcome) <= |g.queue|
            && Counted(g, g', g.queue[..Taking(|g.queue|, outcome)])
            && (outcome.Committed? ==>
                  && |g'.rows| == |g.rows| + |g.queue|
                  && forall i :: 0 <= i < |g.queue| ==>
                       g'.rows[|g.rows| + i].seqNo
                       == NextNumber(g, g.queue[i].env.stream) + Rank(g.queue[..i], g.queue[i].env.stream))
  {
    hide BuildAll, Rank;
    var g := Run(es);
    RunNext(es, Flush(outcome));
    var batch := g.queue[..Batched(|g.queue|, outcome)];
    NumbersInOrder(g.(queue := []), batch);
    SameNumbers(g);
    if outcome.Committed? {
      assert batch == g.queue;
    }
  }

  lemma SameNumbers(g: Log)
    ensures forall st :: NextNumber(g.(queue := []), st) == NextNumber(g, st)
  {
  }

  /** A text ends with another exactly when it is something followed by it. */
  lemma EndsExactly(s: string, end: string)
    ensures EndsWith(s, end) <==> exists front :: s == front + end
  {
    if EndsWith(s, end) {
      assert s == s[..|s| - |end|] + end;
    }
  }

  /** An event's step: its last part, or the part before it when that names what happened. */
  lemma StepExactly(front: string, node: string, last: string)
    requires '.' !in node && '.' !in last
    ensures last in {"start", "done", "error", "thinking", "completed", "interrupted"} ==>
              && DeriveStep(last) == None && DeriveStep(node + ("." + last)) == Some(node)
              && DeriveStep(front + ("." + node) + ("." + last)) == Some(node)
    ensures last !in {"start", "done", "error", "thinking", "completed", "interrupted"} ==>
              DeriveStep(last) == Some(last) && DeriveStep(front + ("." + last)) == Some(last)
  {
    SplitPlain(last);
    SplitPlain(node);
    SplitLast(node, last);
    SplitLast(front, last);
    SplitLast(front, node);
    SplitLast(front + ("." + node), last);
  }
}
