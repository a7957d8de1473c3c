/**
  The batched event-log writer (content_tool/observability/event_log.py).

  Envelopes are queued; a flush drains the queue, numbers the rows of each stream
  and inserts them in one transaction. A flush may fail at any point: its batch
  is then lost, the writer's counters are not rolled back. A new process starts
  with an empty writer over the same table.
*/
module EventLog {
  import opened Wrappers
  import opened PyStr

  datatype Envelope = Envelope(stream: string, event: string, at: int)

  /** A queued envelope with its place in the order of all enqueues. */
  datatype Item = Item(ticket: nat, env: Envelope)

  /** A table row. It was built from the `pos`-th envelope processed, by the
      writer that began at `since`. */
  datatype Row = Row(stream: string, seqNo: int, event: string, step: Option<string>, duration: Option<int>,
                     since: nat, pos: nat)

  // ------------------------------------------------------- derived columns

  const VERBS := {"start", "done", "error", "thinking", "completed", "interrupted"}

  function Split(s: string): (parts: seq<string>)
    ensures parts != []
  {
    if s == "" then [""]
    else
      var rest := Split(s[1..]);
      if s[0] == '.' then [""] + rest else [[s[0]] + rest[0]] + rest[1..]
  }

  function DeriveStep(event: string): Option<string> {
    var parts := Split(event);
    var last := parts[|parts| - 1];
    if last in VERBS then (if |parts| > 1 then Some(parts[|parts| - 2]) else None)
    else Some(last)
  }

  /** The writer's memory of starts: per stream and step. */
  type Starts = map<(string, string), int>

  function DurationNow(env: Envelope, starts: Starts): Option<int> {
    var step := DeriveStep(env.event);
    if !EndsWith(env.event, ".done") || step.None? || step.value == "" || (env.stream, step.value) !in starts then None
    else Some(env.at - starts[(env.stream, step.value)])
  }

  function NoteStart(env: Envelope, starts: Starts): Starts {
    var step := DeriveStep(env.event);
    if EndsWith(env.event, ".start") && step.Some? then starts[(env.stream, step.value) := env.at] else starts
  }

  // ------------------------------------------------------------ the machine

  /** The table, the queue and the writer's counters; `processed` lists every
      envelope that ever took a number, `since` where the present writer began,
      `dropped` the numbers taken and lost, by stream. */
  datatype Log = Log(
    rows: seq<Row>,
    queue: seq<Item>,
    seqs: map<string, int>,
    starts: Starts,
    enqueued: nat,
    processed: seq<Item>,
    since: nat,
    dropped: multiset<string>)

  const EMPTY := Log([], [], map[], map[], 0, [], 0, multiset{})

  datatype FlushOutcome =
    | Committed
    | FailsAt(k: nat)     // the session, or seeding the k-th envelope's stream, fails
    | RowFails(k: nat)    // the k-th envelope's row takes its number and then raises
    | InsertFails         // the insert or the commit fails

  datatype Event =
    | Enqueue(env: Envelope, persistThinking: bool)
    | Flush(outcome: FlushOutcome)
    | Restart

  function MaxSeq(rows: seq<Row>, stream: string): int {
    if rows == [] then -1
    else
      var m, r := MaxSeq(rows[..|rows| - 1], stream), rows[|rows| - 1];
      if r.stream == stream && r.seqNo > m then r.seqNo else m
  }

  function SeedSeq(g: Log, stream: string): Log {
    if stream in g.seqs then g else g.(seqs := g.seqs[stream := MaxSeq(g.rows, stream) + 1])
  }

  /** Number one envelope and derive its columns. */
  function BuildRow(g: Log, item: Item): (Log, Row)
    requires item.env.stream in g.seqs
  {
    var env := item.env;
    var row := Row(env.stream, g.seqs[env.stream], env.event, DeriveStep(env.event), DurationNow(env, g.starts),
                   g.since, |g.processed|);
    (g.(seqs := g.seqs[env.stream := g.seqs[env.stream] + 1], starts := NoteStart(env, g.starts),
        processed := g.processed + [item]), row)
  }

  function BuildAll(g: Log, items: seq<Item>): (r: (Log, seq<Row>))
    ensures r.0.rows == g.rows && r.0.since == g.since && r.0.dropped == g.dropped
  {
    if items == [] then (g, [])
    else
      var (g1, built) := BuildAll(g, items[..|items| - 1]);
      var item := items[|items| - 1];
      var (g2, row) := BuildRow(SeedSeq(g1, item.env.stream), item);
      (g2, built + [row])
  }

  lemma NothingBuilt(g: Log)
    ensures BuildAll(g, []) == (g, [])
  {
  }

  lemma BuildAllNext(g: Log, items: seq<Item>, item: Item)
    ensures var (g1, built) := BuildAll(g, items);
            var (g2, row) := BuildRow(SeedSeq(g1, item.env.stream), item);
            BuildAll(g, items + [item]) == (g2, built + [row])
  {
    assert (items + [item])[..|items|] == items;
  }

  function Streams(rows: seq<Row>): multiset<string> {
    if rows == [] then multiset{} else Streams(rows[..|rows| - 1]) + multiset{rows[|rows| - 1].stream}
  }

  /** How many of n envelopes take a number. */
  function Batched(n: nat, outcome: FlushOutcome): (m: nat)
    ensures m <= n
  {
    match outcome
    case FailsAt(k) => if k < n then k else n
    case RowFails(k) => if k < n then k + 1 else n
    case _ => n
  }

  function FlushStep(g: Log, outcome: FlushOutcome): Log {
    var (g', built) := BuildAll(g.(queue := []), g.queue[..Batched(|g.queue|, outcome)]);
    if outcome.Committed? then g'.(rows := g.rows + built) else g'.(dropped := g.dropped + Streams(built))
  }

  function Step(g: Log, e: Event): Log {
    match e
    case Enqueue(env, persistThinking) =>
      if EndsWith(env.event, ".thinking") && !persistThinking then g
      else g.(queue := g.queue + [Item(g.enqueued, env)], enqueued := g.enqueued + 1)
    case Flush(outcome) => FlushStep(g, outcome)
    case Restart => g.(queue := [], seqs := map[], starts := map[], since := |g.processed|)
  }

  function Run(es: seq<Event>): Log {
    if es == [] then EMPTY else Step(Run(es[..|es| - 1]), es[|es| - 1])
  }

  /** The writer with its table. `enqueued`, `processed`, `since` and `dropped`
      are the account that the statements below are about. */
  class RunEventLogWriter {
    var rows: seq<Row>
    var queue: seq<Item>
    var seqs: map<string, int>
    var lastStartMs: Starts
    var enqueued: nat
    var processed: seq<Item>
    var since: nat
    var dropped: multiset<string>

    constructor ()
      ensures View() == EMPTY
    {
      rows, queue, seqs, lastStartMs := [], [], map[], map[];
      enqueued, processed, since, dropped := 0, [], 0, multiset{};
    }

    function View(): Log
      reads this
    {
      Log(rows, queue, seqs, lastStartMs, enqueued, processed, since, dropped)
    }

    method Enqueue(env: Envelope, persistThinking: bool)
      modifies this
      ensures View() == Step(old(View()), Event.Enqueue(env, persistThinking))
    {
      if EndsWith(env.event, ".thinking") && !persistThinking {
        return;
      }
      queue := queue + [Item(enqueued, env)];
      enqueued := enqueued + 1;
    }

    method SeedStream(stream: string)
      modifies this
      ensures View() == SeedSeq(old(View()), stream)
    {
      if stream !in seqs {
        seqs := seqs[stream := MaxSeq(rows, stream) + 1];
      }
    }

    method NextRow(item: Item) returns (row: Row)
      requires item.env.stream in seqs
      modifies this
      ensures (View(), row) == BuildRow(old(View()), item)
    {
      var env := item.env;
      row := Row(env.stream, seqs[env.stream], env.event, DeriveStep(env.event), DurationNow(env, lastStartMs),
                 since, |processed|);
      lastStartMs := NoteStart(env, lastStartMs);
      seqs := seqs[env.stream := seqs[env.stream] + 1];
      processed := processed + [item];
    }

    method AppendRow(item: Item) returns (row: Row)
      modifies this
      ensures (View(), row) == BuildRow(SeedSeq(old(View()), item.env.stream), item)
    {
      SeedStream(item.env.stream);
      row := NextRow(item);
    }

    /** Build rows until the batch ends, the database fails or a row raises. */
    method BuildBatch(batch: seq<Item>, outcome: FlushOutcome) returns (built: seq<Row>)
      modifies this
      ensures (View(), built) == BuildAll(old(View()), batch[..Batched(|batch|, outcome)])
    {
      hide BuildAll, BuildRow, SeedSeq;
      ghost var start := View();
      built := [];
      var i := 0;
      NothingBuilt(start);
      assert batch[..0] == [];
      while i < |batch| && outcome != FailsAt(i)
        invariant 0 <= i <= Batched(|batch|, outcome)
        invariant outcome.RowFails? ==> i <= outcome.k
        invariant (View(), built) == BuildAll(start, batch[..i])
      {
        ghost var sofar := batch[..i];
        var row := AppendRow(batch[i]);
        built := built + [row];
        BuildAllNext(start, sofar, batch[i]);
        assert (View(), built) == BuildAll(start, sofar + [batch[i]]);
        assert batch[..i + 1] == sofar + [batch[i]];
        if outcome == RowFails(i) {
          return;              // what was built is not inserted
        }
        i := i + 1;
      }
    }

    /** Drain the queue and write the batch; `outcome` is the database's doing. */
    method Flush(outcome: FlushOutcome)
      modifies this
      ensures View() == FlushStep(old(View()), outcome)
    {
      var batch := queue;
      queue := [];
      var built := BuildBatch(batch, outcome);
      if outcome.Committed? {
        rows := rows + built;
      } else {
        dropped := dropped + Streams(built);
      }
    }

    method Restart()
      modifies this
      ensures View() == Step(old(View()), Event.Restart)
    {
      queue, seqs, lastStartMs, since := [], map[], map[], |processed|;
    }
  }

  // ------------------------------------------------------ order and numbering

  function Count(rows: seq<Row>, stream: string): nat {
    if rows == [] then 0
    else Count(rows[..|rows| - 1], stream) + (if rows[|rows| - 1].stream == stream then 1 else 0)
  }

  /** `r` may follow `rows`: it was processed later, its number is above its
      stream's, and that number is its rank plus at most the dropped rows. */
  predicate MayFollow(rows: seq<Row>, r: Row, dropped: multiset<string>, processed: seq<Item>) {
    && MaxSeq(rows, r.stream) < r.seqNo
    && Count(rows, r.stream) <= r.seqNo <= Count(rows, r.stream) + dropped[r.stream]
    && (rows != [] ==> rows[|rows| - 1].pos < r.pos)
    && r.since <= r.pos < |processed|
    && r.stream == processed[r.pos].env.stream && r.event == processed[r.pos].env.event
  }

  predicate Numbered(rows: seq<Row>, dropped: multiset<string>, processed: seq<Item>) {
    rows == [] ||
    (Numbered(rows[..|rows| - 1], dropped, processed)
     && MayFollow(rows[..|rows| - 1], rows[|rows| - 1], dropped, processed))
  }

  lemma NumberedNext(rows: seq<Row>, r: Row, dropped: multiset<string>, processed: seq<Item>)
    ensures Numbered(rows + [r], dropped, processed) <==>
            Numbered(rows, dropped, processed) && MayFollow(rows, r, dropped, processed)
  {
    assert (rows + [r])[..|rows|] == rows;
  }

  lemma {:induction false} NumberedLater(rows: seq<Row>, d: multiset<string>, p: seq<Item>,
                                         d': multiset<string>, p': seq<Item>)
    requires Numbered(rows, d, p) && d <= d' && p <= p'
    ensures Numbered(rows, d', p')
  {
    if rows != [] {
      NumberedLater(rows[..|rows| - 1], d, p, d', p');
    }
  }

  lemma {:induction false} MaxSeqRank(rows: seq<Row>, stream: string, dropped: multiset<string>, processed: seq<Item>)
    requires Numbered(rows, dropped, processed)
    ensures Count(rows, stream) <= MaxSeq(rows, stream) + 1 <= Count(rows, stream) + dropped[stream]
  {
    if rows != [] {
      MaxSeqRank(rows[..|rows| - 1], stream, dropped, processed);
    }
  }

  /** The counters stand above every row and agree with the ranks. */
  predicate CountersAhead(rows: seq<Row>, seqs: map<string, int>, dropped: multiset<string>) {
    forall st :: st in seqs ==>
      MaxSeq(rows, st) < seqs[st] && Count(rows, st) <= seqs[st] <= Count(rows, st) + dropped[st]
  }

  /** `rows` is the table together with the part of a batch built so far. */
  predicate Consistent(rows: seq<Row>, g: Log) {
    && Numbered(rows, g.dropped, g.processed)
    && CountersAhead(rows, g.seqs, g.dropped)
    && (rows != [] ==> rows[|rows| - 1].pos < |g.processed|)
    && g.since <= |g.processed|
  }

  lemma AppendCounts(rows: seq<Row>, r: Row, stream: string)
    ensures Count(rows + [r], stream) == Count(rows, stream) + (if r.stream == stream then 1 else 0)
    ensures MaxSeq(rows + [r], stream)
            == if r.stream == stream && r.seqNo > MaxSeq(rows, stream) then r.seqNo else MaxSeq(rows, stream)
  {
    assert (rows + [r])[..|rows|] == rows;
  }

  lemma BuildKeeps(rows: seq<Row>, g: Log, item: Item)
    requires Consistent(rows, g) && item.env.stream in g.seqs
    ensures Consistent(rows + [BuildRow(g, item).1], BuildRow(g, item).0)
  {
    var (g', row) := BuildRow(g, item);
    NumberedLater(rows, g.dropped, g.processed, g.dropped, g'.processed);
    NumberedNext(rows, row, g.dropped, g'.processed);
    forall st | st in g'.seqs
      ensures var all := rows + [row];
              MaxSeq(all, st) < g'.seqs[st] && Count(all, st) <= g'.seqs[st] <= Count(all, st) + g.dropped[st]
    {
      AppendCounts(rows, row, st);
    }
  }

  /** Seeding reads the table only; that is enough while the batch has no row of
      the stream yet. */
  lemma SeedKeeps(rows: seq<Row>, g: Log, stream: string)
    requires Consistent(rows, g)
    requires stream !in g.seqs ==> MaxSeq(rows, stream) == MaxSeq(g.rows, stream)
    ensures Consistent(rows, SeedSeq(g, stream))
  {
    MaxSeqRank(rows, stream, g.dropped, g.processed);
  }

  predicate AllSeeded(built: seq<Row>, seqs: map<string, int>) {
    forall i :: 0 <= i < |built| ==> built[i].stream in seqs
  }

  lemma {:induction false} AbsentTail(rows: seq<Row>, built: seq<Row>, stream: string)
    requires forall i :: 0 <= i < |built| ==> built[i].stream != stream
    ensures MaxSeq(rows + built, stream) == MaxSeq(rows, stream)
  {
    if built == [] {
      assert rows + built == rows;
    } else {
      var init, r := built[..|built| - 1], built[|built| - 1];
      AbsentTail(rows, init, stream);
      assert rows + built == (rows + init) + [r];
      AppendCounts(rows + init, r, stream);
    }
  }

  lemma RowKeeps(g: Log, built: seq<Row>, item: Item)
    requires Consistent(g.rows + built, g) && AllSeeded(built, g.seqs)
    ensures var (g', row) := BuildRow(SeedSeq(g, item.env.stream), item);
            Consistent(g.rows + (built + [row]), g') && AllSeeded(built + [row], g'.seqs)
  {
    var all, stream := g.rows + built, item.env.stream;
    if stream !in g.seqs {
      AbsentTail(g.rows, built, stream);
    }
    SeedKeeps(all, g, stream);
    SeededRowKeeps(all, SeedSeq(g, stream), built, item);
    assert all + [BuildRow(SeedSeq(g, stream), item).1] == g.rows + (built + [BuildRow(SeedSeq(g, stream), item).1]);
  }

  lemma SeededRowKeeps(all: seq<Row>, g: Log, built: seq<Row>, item: Item)
    requires Consistent(all, g) && AllSeeded(built, g.seqs) && item.env.stream in g.seqs
    ensures var (g', row) := BuildRow(g, item); Consistent(all + [row], g') && AllSeeded(built + [row], g'.seqs)
  {
    BuildKeeps(all, g, item);
  }

  lemma {:induction false} BatchKeeps(g: Log, items: seq<Item>)
    requires Consistent(g.rows, g)
    ensures var (g', built) := BuildAll(g, items); Consistent(g.rows + built, g') && AllSeeded(built, g'.seqs)
  {
    if items == [] {
      assert g.rows + [] == g.rows;
    } else {
      var init := items[..|items| - 1];
      BatchKeeps(g, init);
      RowKeeps(BuildAll(g, init).0, BuildAll(g, init).1, items[|items| - 1]);
    }
  }

  lemma {:induction false} BatchIsProcessed(g: Log, items: seq<Item>)
    ensures var g' := BuildAll(g, items).0;
            g'.processed == g.processed + items && g'.queue == g.queue && g'.enqueued == g.enqueued
  {
    if items != [] {
      BatchIsProcessed(g, items[..|items| - 1]);
    }
  }

  /** Losing a batch keeps the rows before it in order. */
  lemma {:induction false} DropKeeps(rows: seq<Row>, built: seq<Row>, g: Log)
    requires Consistent(rows + built, g)
    ensures Consistent(rows, g.(dropped := g.dropped + Streams(built)))
    decreases |built|
  {
    if built == [] {
      assert rows + built == rows;
      assert g.dropped + Streams(built) == g.dropped;
    } else {
      var init, r := built[..|built| - 1], built[|built| - 1];
      assert rows + built == (rows + init) + [r];
      NumberedNext(rows + init, r, g.dropped, g.processed);
      var g1 := g.(dropped := g.dropped + multiset{r.stream});
      NumberedLater(rows + init, g.dropped, g.processed, g1.dropped, g.processed);
      forall st | st in g.seqs
        ensures var all := rows + init;
                MaxSeq(all, st) < g.seqs[st] && Count(all, st) <= g.seqs[st] <= Count(all, st) + g1.dropped[st]
      {
        AppendCounts(rows + init, r, st);
      }
      DropKeeps(rows, init, g1);
      assert g1.dropped + Streams(init) == g.dropped + Streams(built);
    }
  }

  // ------------------------------------------------------- enqueue order

  predicate Rising(items: seq<Item>) {
    forall i, j :: 0 <= i < j < |items| ==> items[i].ticket < items[j].ticket
  }

  /** Processed before queued before to come. */
  predicate Sequenced(g: Log) {
    && Rising(g.processed + g.queue)
    && (forall i :: 0 <= i < |g.processed + g.queue| ==> (g.processed + g.queue)[i].ticket < g.enqueued)
  }

  predicate Good(g: Log) {
    Consistent(g.rows, g) && Sequenced(g)
  }

  lemma FlushSequenced(g: Log, outcome: FlushOutcome)
    requires Good(g)
    ensures Sequenced(FlushStep(g, outcome))
  {
    var n := Batched(|g.queue|, outcome);
    BatchIsProcessed(g.(queue := []), g.queue[..n]);
    var all, kept := g.processed + g.queue, g.processed + g.queue[..n];
    assert FlushStep(g, outcome).processed + FlushStep(g, outcome).queue == kept == all[..|g.processed| + n];
  }

  lemma FlushKeeps(g: Log, outcome: FlushOutcome)
    requires Good(g)
    ensures Good(FlushStep(g, outcome))
  {
    FlushSequenced(g, outcome);
    var g0 := g.(queue := []);
    BatchKeeps(g0, g.queue[..Batched(|g.queue|, outcome)]);
    var (g', built) := BuildAll(g0, g.queue[..Batched(|g.queue|, outcome)]);
    if !outcome.Committed? {
      DropKeeps(g.rows, built, g');
    }
  }

  lemma StepKeeps(g: Log, e: Event)
    requires Good(g)
    ensures Good(Step(g, e))
  {
    match e
    case Enqueue(env, persistThinking) =>
      var all := g.processed + g.queue;
      assert g.processed + (g.queue + [Item(g.enqueued, env)]) == all + [Item(g.enqueued, env)];
    case Flush(outcome) =>
      FlushKeeps(g, outcome);
    case Restart =>
      assert g.processed + [] == (g.processed + g.queue)[..|g.processed|];
  }

  lemma {:induction false} AlwaysGood(es: seq<Event>)
    ensures Good(Run(es))
  {
    if es != [] {
      AlwaysGood(es[..|es| - 1]);
      StepKeeps(Run(es[..|es| - 1]), es[|es| - 1]);
    }
  }

  lemma {:induction false} AboveAll(rows: seq<Row>, stream: string)
    ensures forall i :: 0 <= i < |rows| && rows[i].stream == stream ==> rows[i].seqNo <= MaxSeq(rows, stream)
  {
    if rows != [] {
      AboveAll(rows[..|rows| - 1], stream);
    }
  }

  lemma {:induction false} PairInOrder(rows: seq<Row>, d: multiset<string>, p: seq<Item>, i: nat, j: nat)
    requires Numbered(rows, d, p) && i < j < |rows|
    ensures rows[i].pos < rows[j].pos < |p|
    ensures rows[i].stream == rows[j].stream ==> rows[i].seqNo < rows[j].seqNo
    decreases |rows|, j - i
  {
    var init := rows[..|rows| - 1];
    if j < |rows| - 1 {
      PairInOrder(init, d, p, i, j);
    } else {
      AboveAll(init, rows[j].stream);
      if i < j - 1 {
        PairInOrder(init, d, p, i, j - 1);
      }
    }
  }

  lemma {:induction false} RankOf(rows: seq<Row>, d: multiset<string>, p: seq<Item>, i: nat)
    requires Numbered(rows, d, p) && i < |rows|
    ensures Count(rows[..i], rows[i].stream) <= rows[i].seqNo <= Count(rows[..i], rows[i].stream) + d[rows[i].stream]
    ensures rows[i].pos < |p|
    ensures rows[i].stream == p[rows[i].pos].env.stream && rows[i].event == p[rows[i].pos].env.event
  {
    var init := rows[..|rows| - 1];
    if i < |rows| - 1 {
      RankOf(init, d, p, i);
      assert init[..i] == rows[..i];
    }
  }

  /** Under any mix of enqueues, flushes, lost batches and restarts: the rows of a
      stream are committed in the order their envelopes were enqueued, under
      strictly increasing numbers. */
  lemma CommittedInOrder(es: seq<Event>, i: nat, j: nat)
    requires i < j < |Run(es).rows| && Run(es).rows[i].stream == Run(es).rows[j].stream
    ensures var g := Run(es);
            && g.rows[i].seqNo < g.rows[j].seqNo
            && g.rows[i].pos < g.rows[j].pos < |g.processed|
            && g.processed[g.rows[i].pos].ticket < g.processed[g.rows[j].pos].ticket
  {
    AlwaysGood(es);
    var g := Run(es);
    PairInOrder(g.rows, g.dropped, g.processed, i, j);
    assert forall k :: 0 <= k < |g.processed| ==> (g.processed + g.queue)[k] == g.processed[k];
  }

  lemma CommitLosesNothing(g: Log, e: Event)
    requires |Step(g, e).rows| > |g.rows|
    ensures Step(g, e).dropped == g.dropped
  {
    hide BuildAll;
  }

  /** A row's number is its rank in its stream plus at most the rows that stream had
      lost before event k committed it; so as long as a stream loses nothing it is
      numbered 0, 1, 2, ... */
  lemma {:induction false} GapsAreLosses(es: seq<Event>, i: nat) returns (k: nat)
    requires i < |Run(es).rows|
    ensures k < |es| && |Run(es[..k]).rows| <= i < |Run(es[..k + 1]).rows| && Run(es[..k + 1]).rows <= Run(es).rows
    ensures var g := Run(es);
            var r, rank, lost := g.rows[i], Count(g.rows[..i], g.rows[i].stream), Run(es[..k]).dropped;
            && rank <= r.seqNo <= rank + lost[r.stream]
            && (lost[r.stream] == 0 ==> r.seqNo == rank)
            && r.pos < |g.processed|
            && r.stream == g.processed[r.pos].env.stream && r.event == g.processed[r.pos].env.event
  {
    hide Step;
    AlwaysGood(es);
    RankOf(Run(es).rows, Run(es).dropped, Run(es).processed, i);
    NothingRunsToEmpty(es);
    var before := es[..|es| - 1];
    assert es == before + [es[|es| - 1]];
    CommitsGoUp(before, es[|es| - 1]);
    if i < |Run(before).rows| {
      k := GapsAreLosses(before, i);
      assert before[..k] == es[..k] && before[..k + 1] == es[..k + 1];
      assert Run(es).rows[..i] == Run(before).rows[..i];
    } else {
      k := |es| - 1;
      assert es[..k + 1] == es;
      CommitLosesNothing(Run(before), es[|es| - 1]);
    }
  }

  lemma NothingRunsToEmpty(es: seq<Event>)
    requires Run(es).rows != []
    ensures es != []
  {
  }

  /** One more event leaves the committed rows in place, and what it adds to a
      stream is numbered above everything that stream had. */
  lemma CommitsGoUp(es: seq<Event>, e: Event)
    ensures Run(es).rows <= Run(es + [e]).rows
    ensures forall i, j :: 0 <= i < |Run(es).rows| <= j < |Run(es + [e]).rows|
                           && Run(es + [e]).rows[i].stream == Run(es + [e]).rows[j].stream ==>
              Run(es + [e]).rows[i].seqNo < Run(es + [e]).rows[j].seqNo
  {
    assert (es + [e])[..|es|] == es;
    var g := Run(es + [e]);
    forall i, j | 0 <= i < |Run(es).rows| <= j < |g.rows| && g.rows[i].stream == g.rows[j].stream
      ensures g.rows[i].seqNo < g.rows[j].seqNo
    {
      CommittedInOrder(es + [e], i, j);
    }
  }

  // ----------------------------------------------------------- durations

  /** The latest `.start` of the stream and step among `items`. */
  function LatestStart(items: seq<Item>, stream: string, step: string): Option<int> {
    if items == [] then None
    else
      var env := items[|items| - 1].env;
      if env.stream == stream && EndsWith(env.event, ".start") && DeriveStep(env.event) == Some(step) then Some(env.at)
      else LatestStart(items[..|items| - 1], stream, step)
  }

  function DurationFrom(before: seq<Item>, env: Envelope): Option<int> {
    var step := DeriveStep(env.event);
    if !EndsWith(env.event, ".done") || step.None? || step.value == "" then None
    else match LatestStart(before, env.stream, step.value)
      case None => None
      case Some(t) => Some(env.at - t)
  }

  ghost predicate Remembers(starts: Starts, items: seq<Item>) {
    forall st, step ::
      LatestStart(items, st, step) == if (st, step) in starts then Some(starts[(st, step)]) else None
  }

  /** Every row's duration was measured from the latest earlier start that its
      own writer had processed. */
  predicate Timed(rows: seq<Row>, processed: seq<Item>) {
    forall i :: 0 <= i < |rows| ==>
      && rows[i].since <= rows[i].pos < |processed|
      && rows[i].duration == DurationFrom(processed[rows[i].since..rows[i].pos], processed[rows[i].pos].env)
  }

  lemma NotedStart(starts: Starts, items: seq<Item>, item: Item)
    requires Remembers(starts, items)
    ensures Remembers(NoteStart(item.env, starts), items + [item])
  {
    hide DeriveStep, EndsWith;
    assert (items + [item])[..|items|] == items;
  }

  lemma NowIsFrom(starts: Starts, items: seq<Item>, env: Envelope)
    requires Remembers(starts, items)
    ensures DurationNow(env, starts) == DurationFrom(items, env)
  {
  }

  lemma TimedNext(rows: seq<Row>, processed: seq<Item>, row: Row, item: Item)
    requires Timed(rows, processed) && row.since <= row.pos == |processed|
    requires row.duration == DurationFrom(processed[row.since..], item.env)
    ensures Timed(rows + [row], processed + [item])
  {
    hide DurationFrom;
    var p' := processed + [item];
    assert forall i :: 0 <= i < |rows| ==> p'[rows[i].since..rows[i].pos] == processed[rows[i].since..rows[i].pos];
    assert p'[row.since..row.pos] == processed[row.since..];
  }

  lemma BuildTimes(rows: seq<Row>, g: Log, item: Item)
    requires item.env.stream in g.seqs && g.since <= |g.processed|
    requires Timed(rows, g.processed) && Remembers(g.starts, g.processed[g.since..])
    ensures var (g', row) := BuildRow(g, item);
            Timed(rows + [row], g'.processed) && Remembers(g'.starts, g'.processed[g'.since..])
  {
    hide DurationFrom, DurationNow, Timed, Remembers, NoteStart;
    var (g', row) := BuildRow(g, item);
    NowIsFrom(g.starts, g.processed[g.since..], item.env);
    TimedNext(rows, g.processed, row, item);
    NotedStart(g.starts, g.processed[g.since..], item);
    assert g'.processed[g.since..] == g.processed[g.since..] + [item];
  }

  lemma {:induction false} BatchTimes(g: Log, items: seq<Item>)
    requires g.since <= |g.processed|
    requires Timed(g.rows, g.processed) && Remembers(g.starts, g.processed[g.since..])
    ensures var (g', built) := BuildAll(g, items);
            && g'.since <= |g'.processed|
            && Timed(g.rows + built, g'.processed) && Remembers(g'.starts, g'.processed[g'.since..])
  {
    if items == [] {
      assert g.rows + [] == g.rows;
    } else {
      var init, item := items[..|items| - 1], items[|items| - 1];
      BatchTimes(g, init);
      var (g1, built) := BuildAll(g, init);
      var g2 := SeedSeq(g1, item.env.stream);
      BuildTimes(g.rows + built, g2, item);
      assert (g.rows + built) + [BuildRow(g2, item).1] == g.rows + (built + [BuildRow(g2, item).1]);
    }
  }

  lemma TimedPrefix(rows: seq<Row>, more: seq<Row>, processed: seq<Item>)
    requires Timed(rows + more, processed)
    ensures Timed(rows, processed)
  {
    assert forall i :: 0 <= i < |rows| ==> (rows + more)[i] == rows[i];
  }

  /** In every run, a `.done` row carries the time since the latest `.start` of
      its stream and step that the same writer processed before it, and nothing
      when there is none; no other row carries a duration. */
  lemma {:induction false} DurationsAreFromLatestStart(es: seq<Event>)
    ensures Timed(Run(es).rows, Run(es).processed)
    ensures Run(es).since <= |Run(es).processed|
    ensures Remembers(Run(es).starts, Run(es).processed[Run(es).since..])
  {
    if es != [] {
      var g, e := Run(es[..|es| - 1]), es[|es| - 1];
      DurationsAreFromLatestStart(es[..|es| - 1]);
      if e.Flush? {
        var n := Batched(|g.queue|, e.outcome);
        BatchTimes(g.(queue := []), g.queue[..n]);
        var (g', built) := BuildAll(g.(queue := []), g.queue[..n]);
        TimedPrefix(g.rows, built, g'.processed);
      } else if e.Restart? {
        assert g.processed[|g.processed|..] == [];
      }
    }
  }

  // ------------------------------------------------ starts pair with dones

  lemma {:induction false} SplitPlain(s: string)
    requires forall i :: 0 <= i < |s| ==> s[i] != '.'
    ensures Split(s) == [s]
  {
    if s != "" {
      SplitPlain(s[1..]);
      assert [s[0]] + s[1..] == s;
    }
  }

  lemma {:induction false} SplitLast(head: string, tail: string)
    requires forall i :: 0 <= i < |tail| ==> tail[i] != '.'
    ensures Split(head + ("." + tail)) == Split(head) + [tail]
    decreases |head|
  {
    var s := head + ("." + tail);
    if head == "" {
      assert s == "." + tail && s[1..] == tail;
      SplitPlain(tail);
    } else {
      assert s[1..] == head[1..] + ("." + tail);
      SplitLast(head[1..], tail);
    }
  }

  /** Under any two prefixes, the `.start` and the `.done` of one node have that
      node as their step. */
  lemma StepOfNode(prefix: string, node: string, verb: string)
    requires (forall i :: 0 <= i < |node| ==> node[i] != '.') && verb in {"start", "done"}
    ensures DeriveStep(prefix + ("." + node) + ("." + verb)) == Some(node)
    ensures EndsWith(prefix + ("." + node) + ("." + verb), "." + verb)
  {
    SplitLast(prefix, node);
    SplitLast(prefix + ("." + node), verb);
  }
}
