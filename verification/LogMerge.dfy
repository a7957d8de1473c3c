/**
  The rows the debug panel shows: what is persisted, and behind it the live events that
  are not (web/lib/debug-log.ts).

  `parse` stands for `Date.parse`; every timestamp is taken to be one.
*/
module LogMerge {
  datatype Persisted = Persisted(seqNo: int, event: string, recordedAt: string)

  datatype Live = Live(event: string, timestamp: string)

  datatype Shown = FromTable(row: Persisted) | FromStream(ev: Live)

  // ---------------------------------------------------------- a stable sort

  function Insert<T>(s: seq<T>, x: T, key: T -> int): seq<T> {
    if s == [] || key(s[|s| - 1]) <= key(x) then s + [x] else Insert(s[..|s| - 1], x, key) + [s[|s| - 1]]
  }

  function Sorted<T>(s: seq<T>, key: T -> int): seq<T> {
    if s == [] then [] else Insert(Sorted(s[..|s| - 1], key), s[|s| - 1], key)
  }

  ghost predicate Ordered<T>(s: seq<T>, key: T -> int) {
    forall i, j :: 0 <= i < j < |s| ==> key(s[i]) <= key(s[j])
  }

  lemma {:induction false} InsertKeeps<T>(s: seq<T>, x: T, key: T -> int)
    ensures multiset(Insert(s, x, key)) == multiset(s) + multiset{x}
  {
    if s != [] && key(s[|s| - 1]) > key(x) {
      InsertKeeps(s[..|s| - 1], x, key);
      assert s == s[..|s| - 1] + [s[|s| - 1]];
    }
  }

  ghost predicate AtMost<T>(s: seq<T>, key: T -> int, top: int) {
    forall i :: 0 <= i < |s| ==> key(s[i]) <= top
  }

  lemma {:induction false} InsertAtMost<T>(s: seq<T>, x: T, key: T -> int, top: int)
    requires AtMost(s, key, top) && key(x) <= top
    ensures AtMost(Insert(s, x, key), key, top)
  {
    if s != [] && key(s[|s| - 1]) > key(x) {
      InsertAtMost(s[..|s| - 1], x, key, top);
    }
  }

  lemma {:induction false} InsertOrders<T>(s: seq<T>, x: T, key: T -> int)
    requires Ordered(s, key)
    ensures Ordered(Insert(s, x, key), key)
  {
    if s != [] {
      var init, last := s[..|s| - 1], s[|s| - 1];
      assert AtMost(init, key, key(last)) && AtMost(s, key, key(last));
      if key(last) > key(x) {
        InsertOrders(init, x, key);
        InsertAtMost(init, x, key, key(last));
      }
    }
  }

  /** Sorting keeps every element and puts them in order. */
  lemma {:induction false} SortedOrders<T>(s: seq<T>, key: T -> int)
    ensures Ordered(Sorted(s, key), key) && multiset(Sorted(s, key)) == multiset(s)
  {
    if s != [] {
      var init, last := s[..|s| - 1], s[|s| - 1];
      SortedOrders(init, key);
      InsertOrders(Sorted(init, key), last, key);
      InsertKeeps(Sorted(init, key), last, key);
      SnocMultiset(init, last, s);
    }
  }

  lemma SnocMultiset<T>(init: seq<T>, last: T, s: seq<T>)
    requires s != [] && init == s[..|s| - 1] && last == s[|s| - 1]
    ensures multiset(s) == multiset(init) + multiset{last}
  {
    assert s == init + [last];
  }

  /** The elements with this key, in order. */
  function WithKey<T>(s: seq<T>, key: T -> int, v: int): seq<T> {
    if s == [] then []
    else WithKey(s[..|s| - 1], key, v) + (if key(s[|s| - 1]) == v then [s[|s| - 1]] else [])
  }

  lemma WithKeySnoc<T>(init: seq<T>, last: T, key: T -> int, v: int)
    ensures WithKey(init + [last], key, v) == WithKey(init, key, v) + (if key(last) == v then [last] else [])
  {
    assert (init + [last])[..|init|] == init;
  }

  lemma {:induction false} InsertIsStable<T>(s: seq<T>, x: T, key: T -> int, v: int)
    requires Ordered(s, key)
    ensures WithKey(Insert(s, x, key), key, v) == WithKey(s, key, v) + (if key(x) == v then [x] else [])
  {
    if s == [] || key(s[|s| - 1]) <= key(x) {
      WithKeySnoc(s, x, key, v);
    } else {
      var init, last := s[..|s| - 1], s[|s| - 1];
      assert s == init + [last];
      InsertIsStable(init, x, key, v);
      WithKeySnoc(Insert(init, x, key), last, key, v);
      WithKeySnoc(init, last, key, v);
    }
  }

  /** Elements with equal keys stay in the order in which they came. */
  lemma {:induction false} SortedIsStable<T>(s: seq<T>, key: T -> int, v: int)
    ensures WithKey(Sorted(s, key), key, v) == WithKey(s, key, v)
  {
    if s != [] {
      var init, last := s[..|s| - 1], s[|s| - 1];
      assert s == init + [last];
      SortedIsStable(init, key, v);
      SortedOrders(init, key);
      InsertIsStable(Sorted(init, key), last, key, v);
      WithKeySnoc(init, last, key, v);
    }
  }

  // -------------------------------------------------------------- the merge

  function RowIdentity(r: Persisted): string {
    r.event + ":" + r.recordedAt
  }

  function Identity(ev: Live): string {
    ev.event + ":" + ev.timestamp
  }

  function Identities(rows: seq<Persisted>): set<string> {
    set r | r in rows :: RowIdentity(r)
  }

  /** The latest recorded time, 0 for none. */
  function Frontier(rows: seq<Persisted>, parse: string -> int): (t: int)
    ensures t >= 0
  {
    if rows == [] then 0
    else
      var t := Frontier(rows[..|rows| - 1], parse);
      if parse(rows[|rows| - 1].recordedAt) > t then parse(rows[|rows| - 1].recordedAt) else t
  }

  predicate Newer(ev: Live, frontier: int, parse: string -> int) {
    frontier > 0 ==> parse(ev.timestamp) > frontier
  }

  /** The live events worth showing, `known` being the identities shown before them. */
  function Tail(evs: seq<Live>, known: set<string>, frontier: int, parse: string -> int): seq<Live> {
    if evs == [] then []
    else if Identity(evs[0]) in known || !Newer(evs[0], frontier, parse) then Tail(evs[1..], known, frontier, parse)
    else [evs[0]] + Tail(evs[1..], known + {Identity(evs[0])}, frontier, parse)
  }

  function TableRows(rows: seq<Persisted>): seq<Shown> {
    seq(|rows|, i requires 0 <= i < |rows| => FromTable(rows[i]))
  }

  function StreamRows(evs: seq<Live>): (shown: seq<Shown>)
    ensures |shown| == |evs| && forall i :: 0 <= i < |evs| ==> shown[i] == FromStream(evs[i])
  {
    seq(|evs|, i requires 0 <= i < |evs| => FromStream(evs[i]))
  }

  function BySeq(rows: seq<Persisted>): seq<Persisted> {
    Sorted(rows, (r: Persisted) => r.seqNo)
  }

  function ByTime(evs: seq<Live>, parse: string -> int): seq<Live> {
    Sorted(evs, (ev: Live) => parse(ev.timestamp))
  }

  function LiveTail(persisted: seq<Persisted>, live: seq<Live>, parse: string -> int): seq<Live> {
    var ordered := BySeq(persisted);
    Tail(ByTime(live, parse), Identities(ordered), Frontier(ordered, parse), parse)
  }

  lemma TailNext(evs: seq<Live>, i: nat, known: set<string>, frontier: int, parse: string -> int)
    requires i < |evs|
    ensures Tail(evs[i..], known, frontier, parse)
            == if Identity(evs[i]) in known || !Newer(evs[i], frontier, parse) then
                 Tail(evs[i + 1..], known, frontier, parse)
               else [evs[i]] + Tail(evs[i + 1..], known + {Identity(evs[i])}, frontier, parse)
  {
    assert evs[i..][0] == evs[i] && evs[i..][1..] == evs[i + 1..];
  }

  lemma StreamRowsCons(rows: seq<Shown>, ev: Live, more: seq<Live>)
    ensures (rows + [FromStream(ev)]) + StreamRows(more) == rows + StreamRows([ev] + more)
  {
  }

  method LatestRecorded(ordered: seq<Persisted>, parse: string -> int) returns (maxRecordedAt: int)
    ensures maxRecordedAt == Frontier(ordered, parse)
  {
    maxRecordedAt := 0;
    for i := 0 to |ordered|
      invariant maxRecordedAt == Frontier(ordered[..i], parse)
    {
      assert ordered[..i + 1][..i] == ordered[..i];
      var t := parse(ordered[i].recordedAt);
      if t > maxRecordedAt {
        maxRecordedAt := t;
      }
    }
    assert ordered[..|ordered|] == ordered;
  }

  /** The loop over the live events, with its `seenLive`. */
  method PushLive(pushed: seq<Shown>, orderedLive: seq<Live>, persistedKeys: set<string>, maxRecordedAt: int,
                  parse: string -> int)
    returns (rows: seq<Shown>)
    ensures rows == pushed + StreamRows(Tail(orderedLive, persistedKeys, maxRecordedAt, parse))
  {
    rows := pushed;
    var seenLive: set<string> := {};
    assert persistedKeys + seenLive == persistedKeys && orderedLive[0..] == orderedLive;
    ghost var all := pushed + StreamRows(Tail(orderedLive, persistedKeys, maxRecordedAt, parse));
    for i := 0 to |orderedLive|
      invariant rows + StreamRows(Tail(orderedLive[i..], persistedKeys + seenLive, maxRecordedAt, parse)) == all
    {
      var ev := orderedLive[i];
      var identity := Identity(ev);
      TailNext(orderedLive, i, persistedKeys + seenLive, maxRecordedAt, parse);
      if identity in persistedKeys {
        continue;
      }
      if identity in seenLive {
        continue;
      }
      if maxRecordedAt > 0 && parse(ev.timestamp) <= maxRecordedAt {
        continue;
      }
      assert persistedKeys + (seenLive + {identity}) == (persistedKeys + seenLive) + {identity};
      seenLive := seenLive + {identity};
      StreamRowsCons(rows, ev, Tail(orderedLive[i + 1..], persistedKeys + seenLive, maxRecordedAt, parse));
      rows := rows + [FromStream(ev)];
    }
  }

  /** `mergeLogRows`. */
  method MergeLogRows(persisted: seq<Persisted>, live: seq<Live>, parse: string -> int) returns (rows: seq<Shown>)
    ensures rows == Merged(persisted, live, parse)
  {
    var ordered := BySeq(persisted);
    var maxRecordedAt := LatestRecorded(ordered, parse);
    rows := PushLive(TableRows(ordered), ByTime(live, parse), Identities(ordered), maxRecordedAt, parse);
  }

  // ----------------------------------------------------- what is shown, once

  /** The tail holds, of each identity that is neither known nor old, exactly one event. */
  lemma {:induction false} TailExactly(evs: seq<Live>, known: set<string>, frontier: int, parse: string -> int)
    ensures var tail := Tail(evs, known, frontier, parse);
            && (forall ev :: ev in tail ==> ev in evs && Identity(ev) !in known && Newer(ev, frontier, parse))
            && (forall i, j :: 0 <= i < j < |tail| ==> Identity(tail[i]) != Identity(tail[j]))
  {
    if evs != [] {
      var skipped := Identity(evs[0]) in known || !Newer(evs[0], frontier, parse);
      var more := if skipped then known else known + {Identity(evs[0])};
      TailExactly(evs[1..], more, frontier, parse);
      assert evs == [evs[0]] + evs[1..];
      assert forall ev :: ev in Tail(evs[1..], more, frontier, parse) ==> ev in evs[1..];
    }
  }

  lemma {:induction false} TailMissesNone(evs: seq<Live>, known: set<string>, frontier: int, parse: string -> int,
                                          ev: Live)
    requires ev in evs && Identity(ev) !in known && Newer(ev, frontier, parse)
    ensures exists i :: 0 <= i < |Tail(evs, known, frontier, parse)|
              && Identity(Tail(evs, known, frontier, parse)[i]) == Identity(ev)
  {
    assert evs == [evs[0]] + evs[1..];
    var tail := Tail(evs, known, frontier, parse);
    if Identity(evs[0]) in known || !Newer(evs[0], frontier, parse) {
      TailMissesNone(evs[1..], known, frontier, parse, ev);
    } else if Identity(evs[0]) == Identity(ev) {
      assert tail[0] == evs[0];
    } else {
      var rest := Tail(evs[1..], known + {Identity(evs[0])}, frontier, parse);
      TailMissesNone(evs[1..], known + {Identity(evs[0])}, frontier, parse, ev);
      var i :| 0 <= i < |rest| && Identity(rest[i]) == Identity(ev);
      assert tail[i + 1] == rest[i];
    }
  }

  lemma {:induction false} TailOrdered(evs: seq<Live>, known: set<string>, frontier: int, parse: string -> int)
    requires Ordered(evs, (ev: Live) => parse(ev.timestamp))
    ensures Ordered(Tail(evs, known, frontier, parse), (ev: Live) => parse(ev.timestamp))
  {
    if evs != [] {
      var skipped := Identity(evs[0]) in known || !Newer(evs[0], frontier, parse);
      var more := if skipped then known else known + {Identity(evs[0])};
      TailOrdered(evs[1..], more, frontier, parse);
      TailExactly(evs[1..], more, frontier, parse);
      var rest := Tail(evs[1..], more, frontier, parse);
      forall i | 0 <= i < |rest|
        ensures parse(evs[0].timestamp) <= parse(rest[i].timestamp)
      {
        assert rest[i] in rest;
        var j :| 0 <= j < |evs[1..]| && evs[1..][j] == rest[i];
        assert evs[j + 1] == rest[i];
      }
    }
  }

  lemma SameMembers<T>(a: seq<T>, b: seq<T>, x: T)
    requires multiset(a) == multiset(b)
    ensures x in a <==> x in b
  {
    assert x in a <==> x in multiset(a);
    assert x in b <==> x in multiset(b);
  }

  /**
    Among the live rows no event is shown twice, all lie beyond the latest persisted
    time, and they are in order of time.
  */
  lemma ShownOnce(persisted: seq<Persisted>, live: seq<Live>, parse: string -> int)
    ensures var tail := LiveTail(persisted, live, parse);
            && (forall i, j :: 0 <= i < j < |tail| ==> Identity(tail[i]) != Identity(tail[j]))
            && (forall i :: 0 <= i < |tail| ==>
                  tail[i] in live && Newer(tail[i], Frontier(BySeq(persisted), parse), parse))
            && Ordered(tail, (ev: Live) => parse(ev.timestamp))
  {
    var ordered, evs := BySeq(persisted), ByTime(live, parse);
    SortedOrders(live, (ev: Live) => parse(ev.timestamp));
    TailExactly(evs, Identities(ordered), Frontier(ordered, parse), parse);
    TailOrdered(evs, Identities(ordered), Frontier(ordered, parse), parse);
    var tail := LiveTail(persisted, live, parse);
    forall i | 0 <= i < |tail|
      ensures tail[i] in live && Newer(tail[i], Frontier(ordered, parse), parse)
    {
      assert tail[i] in tail;
      SameMembers(evs, live, tail[i]);
    }
  }

  lemma KnownExactly(persisted: seq<Persisted>, id: string)
    ensures id in Identities(BySeq(persisted)) <==> exists r :: r in persisted && RowIdentity(r) == id
  {
    var ordered := BySeq(persisted);
    SortedOrders(persisted, (r: Persisted) => r.seqNo);
    forall r: Persisted
      ensures r in ordered <==> r in persisted
    {
      SameMembers(ordered, persisted, r);
    }
  }

  predicate AmongLive(tail: seq<Live>, id: string) {
    exists i :: 0 <= i < |tail| && Identity(tail[i]) == id
  }

  /** An event lies beyond what is persisted: later than every row with a time after the epoch. */
  predicate Beyond(persisted: seq<Persisted>, ev: Live, parse: string -> int) {
    forall r :: r in persisted && parse(r.recordedAt) > 0 ==> parse(ev.timestamp) > parse(r.recordedAt)
  }

  lemma {:induction false} FrontierIsLatest(rows: seq<Persisted>, parse: string -> int)
    ensures forall r :: r in rows ==> parse(r.recordedAt) <= Frontier(rows, parse)
    ensures Frontier(rows, parse) == 0 || exists r :: r in rows && parse(r.recordedAt) == Frontier(rows, parse)
  {
    if rows != [] {
      var init, last := rows[..|rows| - 1], rows[|rows| - 1];
      assert rows == init + [last];
      FrontierIsLatest(init, parse);
      if Frontier(init, parse) != 0 && Frontier(rows, parse) == Frontier(init, parse) {
        var r :| r in init && parse(r.recordedAt) == Frontier(init, parse);
        assert r in rows;
      }
    }
  }

  lemma NewerIsBeyond(persisted: seq<Persisted>, ev: Live, parse: string -> int)
    ensures Newer(ev, Frontier(BySeq(persisted), parse), parse) <==> Beyond(persisted, ev, parse)
  {
    var ordered := BySeq(persisted);
    FrontierIsLatest(ordered, parse);
    SortedOrders(persisted, (r: Persisted) => r.seqNo);
    forall r: Persisted
      ensures r in ordered <==> r in persisted
    {
      SameMembers(ordered, persisted, r);
    }
  }

  /** An event that is persisted is not shown as live, and one that is not, and lies beyond, is. */
  lemma ShownIfNew(persisted: seq<Persisted>, live: seq<Live>, parse: string -> int, ev: Live)
    requires ev in live && Newer(ev, Frontier(BySeq(persisted), parse), parse)
    ensures AmongLive(LiveTail(persisted, live, parse), Identity(ev)) <==>
            !(exists r :: r in persisted && RowIdentity(r) == Identity(ev))
  {
    var evs := ByTime(live, parse);
    var known, frontier := Identities(BySeq(persisted)), Frontier(BySeq(persisted), parse);
    SortedOrders(live, (e: Live) => parse(e.timestamp));
    SameMembers(evs, live, ev);
    KnownExactly(persisted, Identity(ev));
    TailExactly(evs, known, frontier, parse);
    if Identity(ev) !in known {
      TailMissesNone(evs, known, frontier, parse, ev);
    }
    var tail := LiveTail(persisted, live, parse);
    assert forall i :: 0 <= i < |tail| ==> tail[i] in tail;
  }

  /** A live row with this name and time stands among `rows`. */
  predicate ShowsLive(rows: seq<Shown>, text: string) {
    exists i :: 0 <= i < |rows| && rows[i].FromStream? && rows[i].ev.event + ":" + rows[i].ev.timestamp == text
  }

  lemma StreamShows(table: seq<Shown>, evs: seq<Live>, text: string)
    requires forall i :: 0 <= i < |table| ==> table[i].FromTable?
    ensures ShowsLive(table + StreamRows(evs), text) <==>
            exists i :: 0 <= i < |evs| && evs[i].event + ":" + evs[i].timestamp == text
  {
    var rows := table + StreamRows(evs);
    forall i | 0 <= i < |evs|
      ensures rows[|table| + i] == FromStream(evs[i])
    {
    }
    if i :| 0 <= i < |evs| && evs[i].event + ":" + evs[i].timestamp == text {
      assert rows[|table| + i] == FromStream(evs[i]);
    }
    if ShowsLive(rows, text) {
      var i :| 0 <= i < |rows| && rows[i].FromStream? && rows[i].ev.event + ":" + rows[i].ev.timestamp == text;
      assert rows[|table| + (i - |table|)] == FromStream(evs[i - |table|]);
    }
  }

  /** What `mergeLogRows` returns. */
  function Merged(persisted: seq<Persisted>, live: seq<Live>, parse: string -> int): seq<Shown> {
    TableRows(BySeq(persisted)) + StreamRows(LiveTail(persisted, live, parse))
  }

  /**
    A live row with a given name and time is shown if and only if some live event that
    has them is later than every persisted row, and no persisted row has them.
  */
  lemma ShownExactly(persisted: seq<Persisted>, live: seq<Live>, parse: string -> int, text: string)
    ensures ShowsLive(Merged(persisted, live, parse), text) <==>
            && (exists ev :: ev in live && ev.event + ":" + ev.timestamp == text && Beyond(persisted, ev, parse))
            && !(exists r :: r in persisted && r.event + ":" + r.recordedAt == text)
  {
    var tail := LiveTail(persisted, live, parse);
    StreamShows(TableRows(BySeq(persisted)), tail, text);
    assert (exists r :: r in persisted && r.event + ":" + r.recordedAt == text)
      <==> (exists r :: r in persisted && RowIdentity(r) == text);
    if ev :| ev in live && ev.event + ":" + ev.timestamp == text && Beyond(persisted, ev, parse) {
      NewerIsBeyond(persisted, ev, parse);
      ShownIfNew(persisted, live, parse, ev);
    }
    if i :| 0 <= i < |tail| && tail[i].event + ":" + tail[i].timestamp == text {
      ShownOnce(persisted, live, parse);
      NewerIsBeyond(persisted, tail[i], parse);
      ShownIfNew(persisted, live, parse, tail[i]);
      assert Identity(tail[i]) == text;
    }
  }

  /**
    The persisted rows come first, all of them in the order of their numbers; behind them
    live events, in order of time, none twice, and each later than every persisted row.
  */
  lemma ShownInOrder(persisted: seq<Persisted>, live: seq<Live>, parse: string -> int) returns (tail: seq<Live>)
    ensures var ordered := BySeq(persisted);
            && Merged(persisted, live, parse) == TableRows(ordered) + StreamRows(tail)
            && multiset(ordered) == multiset(persisted)
            && (forall i, j :: 0 <= i < j < |ordered| ==> ordered[i].seqNo <= ordered[j].seqNo)
            && (forall i, j :: 0 <= i < j < |tail| ==> parse(tail[i].timestamp) <= parse(tail[j].timestamp))
            && (forall i, j :: 0 <= i < j < |tail| ==>
                  tail[i].event + ":" + tail[i].timestamp != tail[j].event + ":" + tail[j].timestamp)
            && (forall i :: 0 <= i < |tail| ==> tail[i] in live && Beyond(persisted, tail[i], parse))
  {
    tail := LiveTail(persisted, live, parse);
    SortedOrders(persisted, (r: Persisted) => r.seqNo);
    ShownOnce(persisted, live, parse);
    forall i | 0 <= i < |tail|
      ensures Beyond(persisted, tail[i], parse)
    {
      NewerIsBeyond(persisted, tail[i], parse);
    }
    var byTime := (ev: Live) => parse(ev.timestamp);
    assert forall i :: 0 <= i < |tail| ==> byTime(tail[i]) == parse(tail[i].timestamp);
    var bySeq := (r: Persisted) => r.seqNo;
    var ordered := BySeq(persisted);
    assert Ordered(ordered, bySeq);
    assert forall i :: 0 <= i < |ordered| ==> bySeq(ordered[i]) == ordered[i].seqNo;
    assert forall i :: 0 <= i < |tail| ==> Identity(tail[i]) == tail[i].event + ":" + tail[i].timestamp;
  }
}
