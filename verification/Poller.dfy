/**
  The debug panel's incremental reader (web/components/DebugLogPanel.tsx,
  web/lib/debug-log.ts) over the paged query
  (content_tool/observability/event_log_query.py) of the event-log table.

  Polls ask for rows above the highest number already held and merge what comes
  back. Commits, questions, answers and deliveries interleave freely; several
  polls may be under way and answers may arrive late or never.
*/
module Poller {
  import opened Wrappers
  import opened EventLog

  const MAX_LIMIT := 10000
  const PAGE_LIMIT := 2000

  // --------------------------------------------------------------- the query

  /** The rows of a stream above `since`, in table order. */
  function Matching(rows: seq<Row>, stream: string, since: Option<int>): seq<Row> {
    if rows == [] then []
    else
      var init, r := Matching(rows[..|rows| - 1], stream, since), rows[|rows| - 1];
      if r.stream == stream && (since.None? || r.seqNo > since.value) then init + [r] else init
  }

  /** Put a row in its place by number; a row of the same number is replaced. */
  function Put(rows: seq<Row>, r: Row): seq<Row> {
    if rows == [] then [r]
    else
      var init, last := rows[..|rows| - 1], rows[|rows| - 1];
      if last.seqNo < r.seqNo then rows + [r]
      else if last.seqNo == r.seqNo then init + [r]
      else Put(init, r) + [last]
  }

  function PutAll(rows: seq<Row>, more: seq<Row>): seq<Row> {
    if more == [] then rows else Put(PutAll(rows, more[..|more| - 1]), more[|more| - 1])
  }

  function CappedLimit(limit: int): (n: nat)
    ensures 1 <= n <= MAX_LIMIT
  {
    if limit > MAX_LIMIT then MAX_LIMIT else if limit < 1 then 1 else limit
  }

  /** Filter, order by number, cut. Numbers are unique within a stream, so
      ordering by Put loses nothing. */
  function QueryEventLogs(rows: seq<Row>, stream: string, since: Option<int>, limit: int): seq<Row> {
    var ordered := PutAll([], Matching(rows, stream, since));
    if |ordered| <= CappedLimit(limit) then ordered else ordered[..CappedLimit(limit)]
  }

  // --------------------------------------------------------------- the panel

  function HighestSeq(rows: seq<Row>): (m: int)
    ensures m >= 0
  {
    if rows == [] then 0
    else
      var m := HighestSeq(rows[..|rows| - 1]);
      if rows[|rows| - 1].seqNo > m then rows[|rows| - 1].seqNo else m
  }

  datatype Panel = Panel(cursor: int, persisted: seq<Row>)

  function Absorb(p: Panel, page: seq<Row>): Panel {
    if page == [] then p
    else
      var cursor := if HighestSeq(page) > p.cursor then HighestSeq(page) else p.cursor;
      Panel(cursor, PutAll(PutAll([], p.persisted), page))
  }

  method ComputeHighestSeq(rows: seq<Row>) returns (max: int)
    ensures max == HighestSeq(rows)
  {
    max := 0;
    for i := 0 to |rows|
      invariant max == HighestSeq(rows[..i])
    {
      assert rows[..i + 1][..i] == rows[..i];
      if rows[i].seqNo > max {
        max := rows[i].seqNo;
      }
    }
    assert rows[..|rows|] == rows;
  }

  class DebugLogPanel {
    var highWater: int
    var persisted: seq<Row>

    constructor ()
      ensures State() == Panel(0, [])
    {
      highWater, persisted := 0, [];
    }

    function State(): Panel
      reads this
    {
      Panel(highWater, persisted)
    }

    /** What the poll's continuation does with a page. */
    method OnPage(page: seq<Row>)
      modifies this
      ensures State() == Absorb(old(State()), page)
    {
      if |page| > 0 {
        var newest := ComputeHighestSeq(page);
        if newest > highWater {
          highWater := newest;
        }
        var bySeq: seq<Row> := [];
        for i := 0 to |persisted|
          invariant bySeq == PutAll([], persisted[..i])
        {
          assert persisted[..i + 1][..i] == persisted[..i];
          bySeq := Put(bySeq, persisted[i]);
        }
        assert persisted[..|persisted|] == persisted;
        for i := 0 to |page|
          invariant bySeq == PutAll(PutAll([], persisted), page[..i])
        {
          assert page[..i + 1][..i] == page[..i];
          bySeq := Put(bySeq, page[i]);
        }
        assert page[..|page|] == page;
        persisted := bySeq;
      }
    }
  }

  // -------------------------------------------------------------- the system

  datatype Poll = Asked(since: Option<int>) | Answered(page: seq<Row>) | Over

  datatype World = World(logged: seq<EventLog.Event>, panel: Panel, polls: seq<Poll>)

  datatype Event =
    | Logs(e: EventLog.Event)
    | Ask
    | Answer(poll: nat)
    | Deliver(poll: nat)
    | Lose(poll: nat)

  function Table(w: World): seq<Row> {
    Run(w.logged).rows
  }

  function Next(w: World, stream: string, e: Event): World {
    match e
    case Logs(e) => w.(logged := w.logged + [e])
    case Ask => w.(polls := w.polls + [Asked(if w.panel.cursor > 0 then Some(w.panel.cursor) else None)])
    case Answer(i) =>
      if i < |w.polls| && w.polls[i].Asked? then
        w.(polls := w.polls[i := Answered(QueryEventLogs(Table(w), stream, w.polls[i].since, PAGE_LIMIT))])
      else w
    case Deliver(i) =>
      if i < |w.polls| && w.polls[i].Answered? then
        w.(panel := Absorb(w.panel, w.polls[i].page), polls := w.polls[i := Over])
      else w
    case Lose(i) =>
      if i < |w.polls| then w.(polls := w.polls[i := Over]) else w
  }

  function Reach(stream: string, es: seq<Event>): World {
    if es == [] then World([], Panel(0, []), []) else Next(Reach(stream, es[..|es| - 1]), stream, es[|es| - 1])
  }

  // ------------------------------------------------- sorted rows and prefixes

  predicate Ascending(rows: seq<Row>) {
    && (forall i :: 0 <= i < |rows| ==> rows[i].seqNo >= 0)
    && (forall i, j :: 0 <= i < j < |rows| ==> rows[i].seqNo < rows[j].seqNo)
  }

  lemma AscendingSlice(all: seq<Row>, b: nat, c: nat)
    requires Ascending(all) && b <= c <= |all|
    ensures Ascending(all[b..c]) && Ascending(all[..c]) && Ascending(all[b..])
  {
  }

  lemma LaterArePositive(all: seq<Row>)
    requires Ascending(all)
    ensures forall i :: 0 < i < |all| ==> all[i].seqNo > 0
  {
    assert forall i :: 0 < i < |all| ==> all[0].seqNo < all[i].seqNo;
  }

  lemma {:induction false} PutAgain(rows: seq<Row>, i: nat)
    requires Ascending(rows) && i < |rows|
    ensures Put(rows, rows[i]) == rows
    decreases |rows|
  {
    var init, last := rows[..|rows| - 1], rows[|rows| - 1];
    assert rows == init + [last];
    if i < |rows| - 1 {
      PutAgain(init, i);
    }
  }

  lemma PutNew(all: seq<Row>, n: nat)
    requires Ascending(all) && n < |all|
    ensures Put(all[..n], all[n]) == all[..n + 1]
  {
    assert all[..n + 1] == all[..n] + [all[n]];
  }

  lemma PutOld(all: seq<Row>, a: nat, i: nat)
    requires Ascending(all) && i < a <= |all|
    ensures Put(all[..a], all[i]) == all[..a]
  {
    assert all[..a][i] == all[i];
    PutAgain(all[..a], i);
  }

  lemma PutAllNext(rows: seq<Row>, more: seq<Row>, r: Row)
    ensures PutAll(rows, more + [r]) == Put(PutAll(rows, more), r)
  {
    assert (more + [r])[..|more|] == more && (more + [r])[|more|] == r;
  }

  function Max(a: nat, b: nat): nat {
    if a < b then b else a
  }

  lemma PutWithin(all: seq<Row>, a: nat, c: nat)
    requires Ascending(all) && a <= |all| && 0 < c <= |all|
    ensures Put(all[..Max(a, c - 1)], all[c - 1]) == all[..Max(a, c)]
  {
    if a < c {
      PutNew(all, c - 1);
    } else {
      PutOld(all, a, c - 1);
    }
  }

  lemma PutStretchNext(all: seq<Row>, a: nat, sofar: seq<Row>, c: nat)
    requires Ascending(all) && a <= |all| && 0 < c <= |all|
    requires PutAll(all[..a], sofar) == all[..Max(a, c - 1)]
    ensures PutAll(all[..a], sofar + [all[c - 1]]) == all[..Max(a, c)]
  {
    PutAllNext(all[..a], sofar, all[c - 1]);
    PutWithin(all, a, c);
  }

  /** Merging a stretch of an ascending sequence into a prefix that reaches it
      gives the longer prefix. */
  lemma {:induction false} PutStretch(all: seq<Row>, a: nat, b: nat, c: nat)
    requires Ascending(all) && b <= a <= |all| && b <= c <= |all|
    ensures PutAll(all[..a], all[b..c]) == all[..Max(a, c)]
    decreases c - b
  {
    if b == c {
      EmptyStretch(all[..a], all[b..c]);
    } else {
      PutStretch(all, a, b, c - 1);
      PutStretchNext(all, a, all[b..c - 1], c);
      SliceNext(all, b, c);
    }
  }

  lemma EmptyStretch(rows: seq<Row>, none: seq<Row>)
    requires |none| == 0
    ensures PutAll(rows, none) == rows
  {
  }

  lemma SliceNext(all: seq<Row>, b: nat, c: nat)
    requires b < c <= |all|
    ensures all[b..c] == all[b..c - 1] + [all[c - 1]]
  {
  }

  lemma PutFromEmpty(all: seq<Row>)
    requires Ascending(all)
    ensures PutAll([], all) == all
  {
    PutStretch(all, 0, 0, |all|);
    assert all[..0] == [] && all[0..|all|] == all && all[..|all|] == all;
  }

  lemma {:induction false} HighestIsLast(rows: seq<Row>)
    requires Ascending(rows)
    ensures HighestSeq(rows) == if rows == [] then 0 else rows[|rows| - 1].seqNo
  {
    if rows != [] {
      HighestIsLast(rows[..|rows| - 1]);
    }
  }

  // --------------------------------------------------- one stream of the table

  function StreamRows(rows: seq<Row>, stream: string): seq<Row> {
    Matching(rows, stream, None)
  }

  lemma StreamRowsNext(rows: seq<Row>, stream: string)
    requires rows != []
    ensures var before, r := StreamRows(rows[..|rows| - 1], stream), rows[|rows| - 1];
            StreamRows(rows, stream) == if r.stream == stream then before + [r] else before
  {
  }

  lemma {:induction false} MatchingInside(rows: seq<Row>, stream: string, bound: int)
    requires forall i :: 0 <= i < |rows| && rows[i].stream == stream ==> 0 <= rows[i].seqNo < bound
    ensures forall i :: 0 <= i < |StreamRows(rows, stream)| ==> 0 <= StreamRows(rows, stream)[i].seqNo < bound
  {
    if rows != [] {
      MatchingInside(rows[..|rows| - 1], stream, bound);
      StreamRowsNext(rows, stream);
    }
  }

  predicate StreamAscends(rows: seq<Row>, stream: string) {
    && (forall i :: 0 <= i < |rows| ==> rows[i].seqNo >= 0)
    && (forall i, j :: 0 <= i < j < |rows| && rows[i].stream == rows[j].stream == stream ==>
          rows[i].seqNo < rows[j].seqNo)
  }

  lemma {:induction false} StreamIsAscending(rows: seq<Row>, stream: string)
    requires StreamAscends(rows, stream)
    ensures Ascending(StreamRows(rows, stream))
  {
    if rows != [] {
      var init, r := rows[..|rows| - 1], rows[|rows| - 1];
      StreamIsAscending(init, stream);
      StreamRowsNext(rows, stream);
      if r.stream == stream {
        MatchingInside(init, stream, r.seqNo);
      }
    }
  }

  /** Asking for what lies above the b-th row yields the rest of the stream. */
  lemma {:induction false} MatchingAbove(rows: seq<Row>, stream: string, b: nat)
    requires StreamAscends(rows, stream) && 0 < b <= |StreamRows(rows, stream)|
    ensures Matching(rows, stream, Some(StreamRows(rows, stream)[b - 1].seqNo)) == StreamRows(rows, stream)[b..]
  {
    assert rows != [];
    var init, r := rows[..|rows| - 1], rows[|rows| - 1];
    var all, before := StreamRows(rows, stream), StreamRows(init, stream);
    StreamIsAscending(rows, stream);
    StreamRowsNext(rows, stream);
    if b <= |before| {
      assert before[b - 1] == all[b - 1];
      MatchingAbove(init, stream, b);
      if r.stream == stream {
        assert all[|before|] == r;
        assert all[b..] == before[b..] + [r];
      }
    } else {
      NothingAbove(init, stream, r.seqNo);
      assert all[b..] == [];
    }
  }

  lemma {:induction false} NothingAbove(rows: seq<Row>, stream: string, bound: int)
    requires forall i :: 0 <= i < |rows| && rows[i].stream == stream ==> rows[i].seqNo <= bound
    ensures Matching(rows, stream, Some(bound)) == []
  {
    if rows != [] {
      NothingAbove(rows[..|rows| - 1], stream, bound);
    }
  }

  lemma {:induction false} MatchingGrows(rows: seq<Row>, more: seq<Row>, stream: string)
    requires rows <= more
    ensures StreamRows(rows, stream) <= StreamRows(more, stream)
    decreases |more|
  {
    if |rows| == |more| {
      assert rows == more;
    } else {
      MatchingGrows(rows, more[..|more| - 1], stream);
      StreamRowsNext(more, stream);
    }
  }

  lemma TableAscends(es: seq<EventLog.Event>, stream: string)
    ensures StreamAscends(Run(es).rows, stream)
  {
    var rows := Run(es).rows;
    forall i | 0 <= i < |rows| ensures rows[i].seqNo >= 0 {
      var _ := GapsAreLosses(es, i);
    }
    forall i, j | 0 <= i < j < |rows| && rows[i].stream == rows[j].stream == stream
      ensures rows[i].seqNo < rows[j].seqNo
    {
      CommittedInOrder(es, i, j);
    }
  }

  // ---------------------------------------------------------- the invariant

  /** `since` marks the end of the first b rows. */
  predicate Marks(all: seq<Row>, since: Option<int>, b: nat) {
    b <= |all| && (if since.None? then b == 0 else b > 0 && all[b - 1].seqNo == since.value)
  }

  /** A poll under way will bring a stretch that begins inside the first `held` rows. */
  predicate PollFits(all: seq<Row>, held: nat, p: Poll) {
    match p
    case Asked(since) => exists b: nat :: b <= held && Marks(all, since, b)
    case Answered(page) => exists b: nat, c: nat :: b <= held && b <= c <= |all| && page == all[b..c]
    case Over => true
  }

  predicate Held(all: seq<Row>, p: Panel, held: nat) {
    && held <= |all|
    && p.persisted == all[..held]
    && p.cursor == if held == 0 then 0 else all[held - 1].seqNo
  }

  predicate Fits(all: seq<Row>, p: Panel, polls: seq<Poll>) {
    && |p.persisted| <= |all|
    && Held(all, p, |p.persisted|)
    && (forall i :: 0 <= i < |polls| ==> PollFits(all, |p.persisted|, polls[i]))
  }

  lemma PollFitsLater(all: seq<Row>, more: seq<Row>, held: nat, held': nat, p: Poll)
    requires all <= more && held <= held' && PollFits(all, held, p)
    ensures PollFits(more, held', p)
  {
    match p
    case Asked(since) =>
      var b: nat :| b <= held && Marks(all, since, b);
      assert Marks(more, since, b);
    case Answered(page) =>
      var b: nat, c: nat :| b <= held && b <= c <= |all| && page == all[b..c];
      assert page == more[b..c];
    case Over =>
  }

  lemma GrowthKeepsFits(all: seq<Row>, more: seq<Row>, p: Panel, polls: seq<Poll>)
    requires Fits(all, p, polls) && all <= more
    ensures Fits(more, p, polls)
  {
    forall i | 0 <= i < |polls| ensures PollFits(more, |p.persisted|, polls[i]) {
      PollFitsLater(all, more, |p.persisted|, |p.persisted|, polls[i]);
    }
  }

  lemma AskFits(all: seq<Row>, p: Panel, polls: seq<Poll>)
    requires Fits(all, p, polls) && Ascending(all)
    ensures Fits(all, p, polls + [Asked(if p.cursor > 0 then Some(p.cursor) else None)])
  {
    var since := if p.cursor > 0 then Some(p.cursor) else None;
    assert Marks(all, since, if p.cursor > 0 then |p.persisted| else 0);
  }

  /** The query's answer to a question that marks the first b rows. */
  lemma PageIsStretch(rows: seq<Row>, stream: string, since: Option<int>, b: nat)
    requires StreamAscends(rows, stream) && Marks(StreamRows(rows, stream), since, b)
    ensures var all := StreamRows(rows, stream);
            var end := if b + PAGE_LIMIT < |all| then b + PAGE_LIMIT else |all|;
            QueryEventLogs(rows, stream, since, PAGE_LIMIT) == all[b..end]
  {
    var all := StreamRows(rows, stream);
    StreamIsAscending(rows, stream);
    if since.Some? {
      MatchingAbove(rows, stream, b);
    } else {
      assert all[0..] == all;
    }
    AscendingSlice(all, b, |all|);
    PutFromEmpty(all[b..]);
    FirstPage(all, b);
  }

  lemma FirstPage(all: seq<Row>, b: nat)
    requires b <= |all|
    ensures (if |all[b..]| <= CappedLimit(PAGE_LIMIT) then all[b..] else all[b..][..CappedLimit(PAGE_LIMIT)])
            == all[b..if b + PAGE_LIMIT < |all| then b + PAGE_LIMIT else |all|]
  {
  }

  lemma AnswerFits(rows: seq<Row>, stream: string, held: nat, since: Option<int>)
    requires StreamAscends(rows, stream) && held <= |StreamRows(rows, stream)|
    requires PollFits(StreamRows(rows, stream), held, Asked(since))
    ensures PollFits(StreamRows(rows, stream), held, Answered(QueryEventLogs(rows, stream, since, PAGE_LIMIT)))
  {
    var b: nat :| b <= held && Marks(StreamRows(rows, stream), since, b);
    PageIsStretch(rows, stream, since, b);
  }

  lemma HighestOfStretch(all: seq<Row>, b: nat, c: nat)
    requires Ascending(all) && b < c <= |all|
    ensures HighestSeq(all[b..c]) == all[c - 1].seqNo
  {
    AscendingSlice(all, b, c);
    HighestIsLast(all[b..c]);
  }

  /** Absorbing a stretch that begins inside the held prefix. */
  lemma AbsorbStretch(all: seq<Row>, p: Panel, a: nat, b: nat, c: nat)
    requires Ascending(all) && Held(all, p, a) && b <= a && b <= c <= |all|
    ensures Held(all, Absorb(p, all[b..c]), Max(a, c))
  {
    if b < c {
      AscendingSlice(all, 0, a);
      PutFromEmpty(all[..a]);
      PutStretch(all, a, b, c);
      HighestOfStretch(all, b, c);
      MergedCursor(all, p, a, c, Absorb(p, all[b..c]));
    }
  }

  lemma MergedCursor(all: seq<Row>, p: Panel, a: nat, c: nat, p': Panel)
    requires Ascending(all) && Held(all, p, a) && 0 < c <= |all|
    requires p'.persisted == all[..Max(a, c)]
    requires p'.cursor == if all[c - 1].seqNo > p.cursor then all[c - 1].seqNo else p.cursor
    ensures Held(all, p', Max(a, c))
  {
  }

  lemma DeliverFits(all: seq<Row>, p: Panel, page: seq<Row>)
    requires Ascending(all) && |p.persisted| <= |all| && Held(all, p, |p.persisted|)
    requires PollFits(all, |p.persisted|, Answered(page))
    ensures var p' := Absorb(p, page);
            |p.persisted| <= |p'.persisted| <= |all| && Held(all, p', |p'.persisted|)
  {
    var a := |p.persisted|;
    var b: nat, c: nat :| b <= a && b <= c <= |all| && page == all[b..c];
    AbsorbStretch(all, p, a, b, c);
    assert |Absorb(p, page).persisted| == Max(a, c);
  }

  lemma StepFits(w: World, stream: string, e: Event)
    requires Fits(StreamRows(Table(w), stream), w.panel, w.polls)
    ensures var w' := Next(w, stream, e); Fits(StreamRows(Table(w'), stream), w'.panel, w'.polls)
  {
    var all, held := StreamRows(Table(w), stream), |w.panel.persisted|;
    TableAscends(w.logged, stream);
    StreamIsAscending(Table(w), stream);
    match e
    case Logs(le) =>
      CommitsGoUp(w.logged, le);
      MatchingGrows(Table(w), Run(w.logged + [le]).rows, stream);
      GrowthKeepsFits(all, StreamRows(Run(w.logged + [le]).rows, stream), w.panel, w.polls);
    case Ask =>
      AskFits(all, w.panel, w.polls);
    case Answer(i) =>
      if i < |w.polls| && w.polls[i].Asked? {
        AnswerFits(Table(w), stream, held, w.polls[i].since);
      }
    case Deliver(i) =>
      if i < |w.polls| && w.polls[i].Answered? {
        DeliverFits(all, w.panel, w.polls[i].page);
        var w' := Next(w, stream, e);
        forall k | 0 <= k < |w'.polls| ensures PollFits(all, |w'.panel.persisted|, w'.polls[k]) {
          if k != i {
            PollFitsLater(all, all, held, |w'.panel.persisted|, w.polls[k]);
          }
        }
      }
    case Lose(i) =>
  }

  lemma {:induction false} AlwaysFits(stream: string, es: seq<Event>)
    ensures var w := Reach(stream, es); Fits(StreamRows(Table(w), stream), w.panel, w.polls)
  {
    if es != [] {
      AlwaysFits(stream, es[..|es| - 1]);
      StepFits(Reach(stream, es[..|es| - 1]), stream, es[|es| - 1]);
    }
  }

  /** Rows of the stream numbered at most `cursor`, in table order. */
  function UpTo(rows: seq<Row>, stream: string, cursor: int): seq<Row> {
    if rows == [] then []
    else
      var init, r := UpTo(rows[..|rows| - 1], stream, cursor), rows[|rows| - 1];
      if r.stream == stream && r.seqNo <= cursor then init + [r] else init
  }

  lemma {:induction false} UpToIsPrefix(rows: seq<Row>, stream: string, held: nat)
    requires StreamAscends(rows, stream) && 0 < held <= |StreamRows(rows, stream)|
    ensures UpTo(rows, stream, StreamRows(rows, stream)[held - 1].seqNo) == StreamRows(rows, stream)[..held]
  {
    var init, r := rows[..|rows| - 1], rows[|rows| - 1];
    var all, before := StreamRows(rows, stream), StreamRows(init, stream);
    StreamIsAscending(rows, stream);
    if held <= |before| {
      assert before[held - 1] == all[held - 1];
      UpToIsPrefix(init, stream, held);
      assert before[..held] == all[..held];
      if r.stream == stream {
        assert all == before + [r] && all[|before|] == r;
      }
    } else {
      assert r.stream == stream && all == before + [r];
      assert all[..held] == all;
      AllUpTo(init, stream, r.seqNo);
    }
  }

  lemma {:induction false} AllUpTo(rows: seq<Row>, stream: string, bound: int)
    requires forall i :: 0 <= i < |rows| && rows[i].stream == stream ==> rows[i].seqNo <= bound
    ensures UpTo(rows, stream, bound) == StreamRows(rows, stream)
  {
    if rows != [] {
      AllUpTo(rows[..|rows| - 1], stream, bound);
    }
  }

  /** In every interleaving of logging, crashes, polls, late and lost answers: the
      panel's rows are in strictly ascending order, so none appears twice, and
      once the cursor is positive they are exactly the committed rows of the
      stream up to the cursor. Before that the panel holds at most row 0. */
  lemma PanelIsComplete(stream: string, es: seq<Event>)
    ensures var w := Reach(stream, es);
            && Ascending(w.panel.persisted)
            && (w.panel.cursor > 0 ==> w.panel.persisted == UpTo(Table(w), stream, w.panel.cursor))
            && (w.panel.cursor <= 0 ==> w.panel.cursor == 0 && |w.panel.persisted| <= 1
                                        && w.panel.persisted <= StreamRows(Table(w), stream))
  {
    AlwaysFits(stream, es);
    var w := Reach(stream, es);
    TableAscends(w.logged, stream);
    HeldIsComplete(Table(w), stream, w.panel);
  }

  lemma HeldIsComplete(rows: seq<Row>, stream: string, p: Panel)
    requires StreamAscends(rows, stream)
    requires |p.persisted| <= |StreamRows(rows, stream)| && Held(StreamRows(rows, stream), p, |p.persisted|)
    ensures Ascending(p.persisted)
    ensures p.cursor > 0 ==> p.persisted == UpTo(rows, stream, p.cursor)
    ensures p.cursor <= 0 ==> p.cursor == 0 && |p.persisted| <= 1 && p.persisted <= StreamRows(rows, stream)
  {
    var all, held := StreamRows(rows, stream), |p.persisted|;
    StreamIsAscending(rows, stream);
    AscendingSlice(all, 0, held);
    if p.cursor > 0 {
      UpToIsPrefix(rows, stream, held);
    } else {
      LaterArePositive(all);
    }
  }

  /** A poll that nothing interrupts brings the next page: the panel then holds
      the stream up to the page limit past what it held, or all of it. While the
      cursor is zero the page is counted from the beginning. */
  lemma QuietPollCatchesUp(w: World, stream: string)
    requires Fits(StreamRows(Table(w), stream), w.panel, w.polls)
    ensures var i := |w.polls|;
            var w' := Next(Next(Next(w, stream, Ask), stream, Answer(i)), stream, Deliver(i));
            var all, from := StreamRows(Table(w), stream), if w.panel.cursor > 0 then |w.panel.persisted| else 0;
            w'.panel.persisted == if from + 2000 < |all| then all[..from + 2000] else all
  {
    hide Run, PutAll, Matching;
    var all, held := StreamRows(Table(w), stream), |w.panel.persisted|;
    var from := if w.panel.cursor > 0 then held else 0;
    TableAscends(w.logged, stream);
    StreamIsAscending(Table(w), stream);
    HeldIsComplete(Table(w), stream, w.panel);
    var c := if from + PAGE_LIMIT < |all| then from + PAGE_LIMIT else |all|;
    PageIsStretch(Table(w), stream, if w.panel.cursor > 0 then Some(w.panel.cursor) else None, from);
    AbsorbStretch(all, w.panel, held, from, c);
    assert all[..|all|] == all;
  }
}
