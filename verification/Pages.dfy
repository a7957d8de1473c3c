/**
  What a page of the event log holds (content_tool/observability/event_log_query.py) and
  what merging one by number makes of it (web/components/DebugLogPanel.tsx), for tables,
  panels and pages of any kind.
*/
module Pages {
  import opened Wrappers
  import opened EventLog
  import opened Poller

  predicate Rising(rows: seq<Row>) {
    forall i, j :: 0 <= i < j < |rows| ==> rows[i].seqNo < rows[j].seqNo
  }

  // ------------------------------------------------------------ merging

  /** A row put among others takes the place of the one with its number. */
  lemma {:induction false} PutExactly(rows: seq<Row>, r: Row, x: Row)
    requires Rising(rows)
    ensures x in Put(rows, r) <==> x == r || (x in rows && x.seqNo != r.seqNo)
    decreases |rows|
  {
    if rows != [] {
      var init, last := rows[..|rows| - 1], rows[|rows| - 1];
      assert rows == init + [last];
      if last.seqNo > r.seqNo {
        PutExactly(init, r, x);
      }
    }
  }

  lemma {:induction false} PutRises(rows: seq<Row>, r: Row)
    requires Rising(rows)
    ensures Rising(Put(rows, r))
    ensures forall i :: 0 <= i < |Put(rows, r)| && rows != [] && r.seqNo < rows[|rows| - 1].seqNo ==>
              Put(rows, r)[i].seqNo <= rows[|rows| - 1].seqNo
    decreases |rows|
  {
    if rows != [] {
      var init, last := rows[..|rows| - 1], rows[|rows| - 1];
      assert rows == init + [last];
      if last.seqNo > r.seqNo {
        PutRises(init, r);
        forall i | 0 <= i < |Put(init, r)|
          ensures Put(init, r)[i].seqNo < last.seqNo
        {
          PutExactly(init, r, Put(init, r)[i]);
        }
      }
    }
  }

  /** `x` is the last row of `more` with its number. */
  ghost predicate LastOfItsNumber(more: seq<Row>, x: Row) {
    exists i :: 0 <= i < |more| && more[i] == x && forall j :: i < j < |more| ==> more[j].seqNo != x.seqNo
  }

  predicate HasNumber(more: seq<Row>, n: int) {
    exists i :: 0 <= i < |more| && more[i].seqNo == n
  }

  /**
    Merging rows by number: the result rises, and holds of each number the last row that
    came with it, or the one that was there.
  */
  lemma {:induction false} MergedExactly(rows: seq<Row>, more: seq<Row>, x: Row)
    requires Rising(rows)
    ensures Rising(PutAll(rows, more))
    ensures x in PutAll(rows, more) <==> LastOfItsNumber(more, x) || (x in rows && !HasNumber(more, x.seqNo))
    decreases |more|
  {
    if more != [] {
      var init, r := more[..|more| - 1], more[|more| - 1];
      MergedExactly(rows, init, x);
      PutRises(PutAll(rows, init), r);
      PutExactly(PutAll(rows, init), r, x);
      OneMore(init, r, x);
      assert init + [r] == more;
    }
  }

  lemma OneMore(init: seq<Row>, r: Row, x: Row)
    ensures LastOfItsNumber(init + [r], x) <==> x == r || (LastOfItsNumber(init, x) && x.seqNo != r.seqNo)
    ensures HasNumber(init + [r], x.seqNo) <==> HasNumber(init, x.seqNo) || r.seqNo == x.seqNo
  {
    var more := init + [r];
    assert more[|init|] == r;
    if LastOfItsNumber(init, x) && x.seqNo != r.seqNo {
      var i :| 0 <= i < |init| && init[i] == x && forall j :: i < j < |init| ==> init[j].seqNo != x.seqNo;
      assert more[i] == x;
    }
    if LastOfItsNumber(more, x) && x != r {
      var i :| 0 <= i < |more| && more[i] == x && forall j :: i < j < |more| ==> more[j].seqNo != x.seqNo;
      assert init[i] == x;
      assert forall j :: i < j < |init| ==> init[j] == more[j];
    }
    if HasNumber(init, x.seqNo) {
      var i :| 0 <= i < |init| && init[i].seqNo == x.seqNo;
      assert more[i].seqNo == x.seqNo;
    }
  }

  /** The highest number of a page, and zero at least. */
  lemma {:induction false} HighestExactly(rows: seq<Row>)
    ensures forall i :: 0 <= i < |rows| ==> rows[i].seqNo <= HighestSeq(rows)
    ensures HighestSeq(rows) == 0 || exists i :: 0 <= i < |rows| && rows[i].seqNo == HighestSeq(rows)
  {
    if rows != [] {
      var init := rows[..|rows| - 1];
      HighestExactly(init);
      if i :| 0 <= i < |init| && init[i].seqNo == HighestSeq(init) {
        assert rows[i].seqNo == HighestSeq(init);
      }
    }
  }

  /**
    What a page does to a panel in order: an empty one nothing; any other moves the cursor
    to its highest number if that is higher, and its rows replace those of their numbers.
  */
  lemma AbsorbedExactly(p: Panel, page: seq<Row>, x: Row)
    requires Rising(p.persisted)
    ensures var p' := Absorb(p, page);
            && Rising(p'.persisted)
            && (x in p'.persisted <==>
                  LastOfItsNumber(page, x) || (x in p.persisted && !HasNumber(page, x.seqNo)))
            && p.cursor <= p'.cursor && (page == [] ==> p' == p)
            && (forall i :: 0 <= i < |page| ==> page[i].seqNo <= p'.cursor)
            && (p'.cursor > p.cursor && p'.cursor != 0 ==> HasNumber(page, p'.cursor))
  {
    HighestExactly(page);
    MergedExactly([], p.persisted, x);
    MergedExactly(PutAll([], p.persisted), page, x);
    LastInRising(p.persisted, x);
  }

  lemma LastInRising(rows: seq<Row>, x: Row)
    requires Rising(rows)
    ensures LastOfItsNumber(rows, x) <==> x in rows
  {
    if x in rows {
      var i :| 0 <= i < |rows| && rows[i] == x;
      assert forall j :: i < j < |rows| ==> rows[j].seqNo != x.seqNo;
    }
  }

  // ------------------------------------------------------------- a page

  /** A row that is asked for. */
  predicate Wanted(r: Row, rows: seq<Row>, stream: string, since: Option<int>) {
    r in rows && r.stream == stream && (since.Some? ==> r.seqNo > since.value)
  }

  lemma {:induction false} MatchingExactly(rows: seq<Row>, stream: string, since: Option<int>, x: Row)
    ensures x in Matching(rows, stream, since) <==> Wanted(x, rows, stream, since)
  {
    if rows != [] {
      var init := rows[..|rows| - 1];
      assert rows == init + [rows[|rows| - 1]];
      MatchingExactly(init, stream, since, x);
    }
  }

  /** No two rows of the stream share a number. */
  predicate OneOfEach(rows: seq<Row>, stream: string) {
    forall i, j :: 0 <= i < |rows| && 0 <= j < |rows|
                   && rows[i].stream == rows[j].stream == stream && rows[i].seqNo == rows[j].seqNo ==>
      rows[i] == rows[j]
  }

  lemma {:induction false} LastExists(rows: seq<Row>, x: Row)
    requires x in rows && forall y :: y in rows && y.seqNo == x.seqNo ==> y == x
    ensures LastOfItsNumber(rows, x)
  {
    var init, r := rows[..|rows| - 1], rows[|rows| - 1];
    assert rows == init + [r];
    OneMore(init, r, x);
    if r != x {
      assert x in init && r in rows;
      assert forall y :: y in init ==> y in rows;
      LastExists(init, x);
    }
  }

  lemma OrderedExactly(rows: seq<Row>, stream: string, since: Option<int>, x: Row)
    requires OneOfEach(rows, stream)
    ensures var ordered := PutAll([], Matching(rows, stream, since));
            Rising(ordered) && (x in ordered <==> Wanted(x, rows, stream, since))
  {
    var matching := Matching(rows, stream, since);
    MergedExactly([], matching, x);
    MatchingExactly(rows, stream, since, x);
    if x in matching {
      forall y | y in matching && y.seqNo == x.seqNo
        ensures y == x
      {
        MatchingExactly(rows, stream, since, y);
        assert y in rows && x in rows;
      }
      LastExists(matching, x);
    }
  }

  /**
    A page holds rows that are asked for, in ascending order, at most the limit of them,
    which is kept between 1 and 10000; it leaves one out only when it is full, and then
    only one above all it holds.
  */
  lemma PageExactly(rows: seq<Row>, stream: string, since: Option<int>, limit: int, x: Row)
    requires OneOfEach(rows, stream)
    ensures var page := QueryEventLogs(rows, stream, since, limit);
            var cap := if limit > 10000 then 10000 else if limit < 1 then 1 else limit;
            && Rising(page) && |page| <= cap
            && (x in page ==> Wanted(x, rows, stream, since))
            && (Wanted(x, rows, stream, since) && x !in page ==>
                  |page| == cap && forall i :: 0 <= i < |page| ==> page[i].seqNo < x.seqNo)
  {
    OrderedExactly(rows, stream, since, x);
    var ordered := PutAll([], Matching(rows, stream, since));
    if x in ordered {
      var k :| 0 <= k < |ordered| && ordered[k] == x;
      assert k < CappedLimit(limit) && |ordered| > CappedLimit(limit) ==> ordered[..CappedLimit(limit)][k] == x;
    }
  }

  /** The writer's table has no two rows of a stream with one number, whatever happened. */
  lemma TableHasOneOfEach(es: seq<EventLog.Event>, stream: string)
    ensures OneOfEach(Run(es).rows, stream)
  {
    TableAscends(es, stream);
  }

  // ------------------------------------------------------------- whole runs

  lemma ReachNext(stream: string, es: seq<Poller.Event>, e: Poller.Event)
    ensures Reach(stream, es + [e]) == Next(Reach(stream, es), stream, e)
  {
    assert (es + [e])[..|es|] == es;
  }

  /**
    In any run, a poll that nothing interrupts brings the panel all of the stream, or 2000
    rows more than it held.
  */
  lemma QuietRunCatchesUp(stream: string, es: seq<Poller.Event>)
    ensures var w := Reach(stream, es);
            var n := |w.polls|;
            var w' := Reach(stream, es + [Ask, Answer(n), Deliver(n)]);
            var all, from := Matching(Table(w), stream, None), if w.panel.cursor > 0 then |w.panel.persisted| else 0;
            w'.panel.persisted == if from + 2000 < |all| then all[..from + 2000] else all
  {
    hide Reach, Next, Fits, QueryEventLogs;
    var w := Reach(stream, es);
    var n := |w.polls|;
    AlwaysFits(stream, es);
    QuietPollCatchesUp(w, stream);
    ReachNext(stream, es, Ask);
    ReachNext(stream, es + [Ask], Answer(n));
    ReachNext(stream, es + [Ask] + [Answer(n)], Deliver(n));
    assert es + [Ask, Answer(n), Deliver(n)] == es + [Ask] + [Answer(n)] + [Deliver(n)];
  }

  /** A lost poll is over, and changes neither panel nor table; so is a delivered one. */
  lemma PollsEnd(w: World, stream: string, i: nat)
    requires i < |w.polls|
    ensures Next(w, stream, Lose(i)) == w.(polls := w.polls[i := Over])
    ensures w.polls[i].Answered? ==> Next(w, stream, Deliver(i)).polls == w.polls[i := Over]
  {
  }
}
