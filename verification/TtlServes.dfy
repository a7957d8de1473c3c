/**
  That the cache serves its callers (content_tool/api/wp_options_cache.py): nobody is
  stuck, a crowd is served by one load, and an entry counts exactly for its time-to-live.
*/
module TtlServes {
  import opened Wrappers
  import opened TtlCache

  lemma RunNext(ttl: real, es: seq<Event>, e: Event)
    ensures Run(ttl, es + [e]) == Step(Run(ttl, es), ttl, e)
  {
    assert (es + [e])[..|es|] == es;
  }

  lemma RunTwo(ttl: real, es: seq<Event>, e: Event, f: Event)
    ensures Run(ttl, es + [e, f]) == Step(Step(Run(ttl, es), ttl, e), ttl, f)
  {
    RunNext(ttl, es, e);
    RunNext(ttl, es + [e], f);
    assert es + [e] + [f] == es + [e, f];
  }

  lemma RunThree(ttl: real, es: seq<Event>, e: Event, f: Event, g: Event)
    ensures Run(ttl, es + [e, f, g]) == Step(Step(Step(Run(ttl, es), ttl, e), ttl, f), ttl, g)
  {
    RunTwo(ttl, es, e, f);
    RunNext(ttl, es + [e, f], g);
    assert es + [e, f] + [g] == es + [e, f, g];
  }

  // --------------------------------------------------------------- nobody stuck

  predicate Returned(call: Call) {
    call.progress.Hit? || call.progress.Miss?
  }

  /** A loading call whose loader comes back returns what it loaded. */
  lemma LoaderReturns(s: State, ttl: real, c: nat)
    requires IsLoading(s, c)
    ensures var s' := Step(s, ttl, Finish(c));
            && |s'.calls| == |s.calls| && s'.now == s.now && |s'.loads| == |s.loads|
            && s'.calls[c] == s.calls[c].(progress := Miss(s.calls[c].progress.load))
            && s'.calls[c].key !in s'.holder
            && s'.entries == s.entries[s.calls[c].key := Entry(s.now, s.calls[c].progress.load)]
            && forall d :: 0 <= d < |s.calls| && d != c ==> s'.calls[d] == s.calls[d]
  {
  }

  /** A waiting call that gets a free lock returns a fresh entry, or loads. */
  lemma GrantServes(s: State, ttl: real, c: nat)
    requires c < |s.calls| && s.calls[c].progress.Waiting? && s.calls[c].key !in s.holder
    ensures var s' := Step(s, ttl, Grant(c));
            var key := s.calls[c].key;
            && |s'.calls| == |s.calls| && s'.now == s.now && s'.entries == s.entries && s'.calls[c].key == key
            && (forall d :: 0 <= d < |s.calls| && d != c ==> s'.calls[d] == s.calls[d])
            && (if key in s.entries && s.now - s.entries[key].at < ttl then
                  && s'.calls[c].progress == Hit(s.entries[key].load, s.now)
                  && s'.loads == s.loads && s'.holder == s.holder
                else
                  && IsLoading(s', c) && s'.loads == s.loads + [Load(key, c, s.now, InFlight)]
                  && key in s'.holder && s'.holder[key] == c)
  {
  }

  /**
    In any run a call that has not ended can still return: when the loader it waits for
    comes back, the lock passes to it, and its own loader, should it need one, comes back.
  */
  lemma CallCanReturn(ttl: real, es: seq<Event>, c: nat) returns (more: seq<Event>)
    requires c < |Run(ttl, es).calls| && !Run(ttl, es).calls[c].progress.Failed?
    ensures |more| <= 3 && |Run(ttl, es + more).calls| == |Run(ttl, es).calls|
    ensures Returned(Run(ttl, es + more).calls[c])
  {
    hide Run, Step, LoadingOwns, InFlightOwned, TimesInPast, EntriesAreLatest, Spaced, GoodReturns;
    var s := Run(ttl, es);
    AlwaysGood(ttl, es);
    if Returned(s.calls[c]) {
      more := [];
      assert es + [] == es;
    } else if s.calls[c].progress.Loading? {
      LoadsInFlight(s, ttl, c);
      LoaderReturns(s, ttl, c);
      RunNext(ttl, es, Finish(c));
      more := [Finish(c)];
    } else if s.calls[c].key !in s.holder {
      GrantServes(s, ttl, c);
      RunNext(ttl, es, Grant(c));
      var s1 := Step(s, ttl, Grant(c));
      if Returned(s1.calls[c]) {
        more := [Grant(c)];
      } else {
        LoaderReturns(s1, ttl, c);
        RunTwo(ttl, es, Grant(c), Finish(c));
        more := [Grant(c), Finish(c)];
      }
    } else {
      var h := s.holder[s.calls[c].key];
      HolderLoads(s, ttl, s.calls[c].key);
      LoaderReturns(s, ttl, h);
      var s1 := Step(s, ttl, Finish(h));
      GrantServes(s1, ttl, c);
      var s2 := Step(s1, ttl, Grant(c));
      if Returned(s2.calls[c]) {
        RunTwo(ttl, es, Finish(h), Grant(c));
        more := [Finish(h), Grant(c)];
      } else {
        LoaderReturns(s2, ttl, c);
        RunThree(ttl, es, Finish(h), Grant(c), Finish(c));
        more := [Finish(h), Grant(c), Finish(c)];
      }
    }
  }

  lemma LoadsInFlight(s: State, ttl: real, c: nat)
    requires Good(s, ttl) && c < |s.calls| && s.calls[c].progress.Loading?
    ensures IsLoading(s, c)
  {
  }

  lemma HolderLoads(s: State, ttl: real, key: string)
    requires Good(s, ttl) && key in s.holder
    ensures var h := s.holder[key]; IsLoading(s, h) && s.calls[h].key == key
  {
  }

  // ------------------------------------------------------ a crowd, one load

  predicate AllWaitFor(s: State, key: string, ds: seq<nat>) {
    forall i :: 0 <= i < |ds| ==>
      ds[i] < |s.calls| && s.calls[ds[i]].key == key && s.calls[ds[i]].progress.Waiting?
  }

  function Grants(ds: seq<nat>): (es: seq<Event>)
    ensures |es| == |ds|
  {
    seq(|ds|, i requires 0 <= i < |ds| => Grant(ds[i]))
  }

  predicate Different(ds: seq<nat>) {
    forall i, j :: 0 <= i < j < |ds| ==> ds[i] != ds[j]
  }

  lemma {:induction false} GrantsServe(ttl: real, es: seq<Event>, key: string, ds: seq<nat>)
    requires AllWaitFor(Run(ttl, es), key, ds) && Different(ds)
    requires key !in Run(ttl, es).holder && Fresh(Run(ttl, es), ttl, key)
    ensures var s, s' := Run(ttl, es), Run(ttl, es + Grants(ds));
            && s'.loads == s.loads && s'.entries == s.entries && s'.now == s.now && s'.holder == s.holder
            && |s'.calls| == |s.calls|
            && forall i :: 0 <= i < |ds| ==> s'.calls[ds[i]].progress == Hit(s.entries[key].load, s.now)
  {
    hide Run, Step;
    if ds == [] {
      assert es + Grants(ds) == es;
    } else {
      var n := |ds| - 1;
      var init, d := ds[..n], ds[n];
      assert AllWaitFor(Run(ttl, es), key, init);
      GrantsServe(ttl, es, key, init);
      GrantsLeave(ttl, es, init, d);
      var s1 := Run(ttl, es + Grants(init));
      assert Grants(ds) == Grants(init) + [Grant(d)];
      assert es + Grants(ds) == (es + Grants(init)) + [Grant(d)];
      RunNext(ttl, es + Grants(init), Grant(d));
      GrantServes(s1, ttl, d);
    }
  }

  /** Granting the lock to others leaves a call alone. */
  lemma {:induction false} GrantsLeave(ttl: real, es: seq<Event>, ds: seq<nat>, d: nat)
    requires d !in ds && d < |Run(ttl, es).calls|
    ensures var s, s' := Run(ttl, es), Run(ttl, es + Grants(ds));
            |s'.calls| == |s.calls| && s'.calls[d] == s.calls[d]
  {
    hide Run;
    if ds == [] {
      assert es + Grants(ds) == es;
    } else {
      var n := |ds| - 1;
      GrantsLeave(ttl, es, ds[..n], d);
      assert Grants(ds) == Grants(ds[..n]) + [Grant(ds[n])];
      assert es + Grants(ds) == (es + Grants(ds[..n])) + [Grant(ds[n])];
      RunNext(ttl, es + Grants(ds[..n]), Grant(ds[n]));
    }
  }

  /**
    Whoever waits while a value is loaded gets that value and starts no load of its own,
    however many there are.
  */
  lemma CrowdIsServedByOneLoad(ttl: real, es: seq<Event>, c: nat, ds: seq<nat>)
    requires ttl > 0.0 && IsLoading(Run(ttl, es), c)
    requires AllWaitFor(Run(ttl, es), Run(ttl, es).calls[c].key, ds) && Different(ds)
    ensures var s, s' := Run(ttl, es), Run(ttl, es + [Finish(c)] + Grants(ds));
            var l := s.calls[c].progress.load;
            && |s'.loads| == |s.loads| && |s'.calls| == |s.calls|
            && forall i :: 0 <= i < |ds| ==> s'.calls[ds[i]].progress == Hit(l, s.now)
  {
    hide Run, Step;
    var s := Run(ttl, es);
    RunNext(ttl, es, Finish(c));
    LoaderReturns(s, ttl, c);
    GrantsServe(ttl, es + [Finish(c)], s.calls[c].key, ds);
  }

  // ------------------------------------------------------- the time-to-live

  /** What a call does that comes in when nobody holds the lock or waits for it. */
  lemma EnterServes(s: State, ttl: real, key: string)
    requires key !in s.holder
    ensures var s' := Step(s, ttl, Enter(key, false));
            var c := |s.calls|;
            && |s'.calls| == c + 1 && s'.calls[c].key == key && s'.calls[c].entered == s.now
            && (if key in s.entries && s.now - s.entries[key].at < ttl then
                  s'.calls[c].progress == Hit(s.entries[key].load, s.now) && s'.loads == s.loads
                else IsLoading(s', c) && s'.loads == s.loads + [Load(key, c, s.now, InFlight)])
  {
  }

  /** A call that comes in while others hold the lock or wait, with no fresh entry, waits. */
  lemma EnterQueues(s: State, ttl: real, key: string, queue: bool)
    requires (queue || key in s.holder) && !Fresh(s, ttl, key)
    ensures Step(s, ttl, Enter(key, queue)) == s.(calls := s.calls + [Call(key, s.now, Waiting)])
  {
  }

  /**
    A loaded value is returned to those who come less than the time-to-live after it was
    stored, and loaded again for the first who comes later.
  */
  lemma ServedForItsTime(ttl: real, es: seq<Event>, c: nat, dt: real)
    requires IsLoading(Run(ttl, es), c) && dt >= 0.0
    ensures var s := Run(ttl, es);
            var key, l, n := s.calls[c].key, s.calls[c].progress.load, |s.calls|;
            var s' := Run(ttl, es + [Finish(c), Tick(dt), Enter(key, false)]);
            && |s'.calls| == n + 1
            && if dt < ttl then s'.calls[n].progress == Hit(l, s.now + dt) && |s'.loads| == |s.loads|
               else IsLoading(s', n) && |s'.loads| == |s.loads| + 1
  {
    hide Run;
    var s := Run(ttl, es);
    var key := s.calls[c].key;
    LoaderReturns(s, ttl, c);
    var s1 := Step(s, ttl, Finish(c));
    var s2 := Step(s1, ttl, Tick(dt));
    assert s2 == s1.(now := s1.now + dt);
    EnterServes(s2, ttl, key);
    RunThree(ttl, es, Finish(c), Tick(dt), Enter(key, false));
  }

  /** A loader that raises stores nothing and leaves the lock free: its call fails, and
      the next one loads. */
  lemma FailureIsRetried(ttl: real, es: seq<Event>, c: nat)
    requires IsLoading(Run(ttl, es), c)
    ensures var s := Run(ttl, es);
            var key, n := s.calls[c].key, |s.calls|;
            var s' := Run(ttl, es + [Raise(c), Enter(key, false)]);
            && |s'.calls| == n + 1 && s'.calls[c].progress == Failed && s'.entries == s.entries
            && IsLoading(s', n) && |s'.loads| == |s.loads| + 1
  {
    hide Run;
    var s := Run(ttl, es);
    var key := s.calls[c].key;
    AlwaysGood(ttl, es);
    StaleWhileLoading(s, ttl, c);
    var s1 := Step(s, ttl, Raise(c));
    assert key !in s1.holder && s1.now == s.now && s1.entries == s.entries;
    EnterServes(s1, ttl, key);
    RunTwo(ttl, es, Raise(c), Enter(key, false));
  }

  lemma StaleWhileLoading(s: State, ttl: real, c: nat)
    requires Good(s, ttl) && IsLoading(s, c)
    ensures !Fresh(s, ttl, s.calls[c].key)
  {
    var key, l := s.calls[c].key, s.calls[c].progress.load;
    if key in s.entries {
      var e := s.entries[key].load;
      assert s.loads[e].state == Stored(s.entries[key].at) && s.loads[l].state.InFlight? && e != l;
      InFlightIsLast(s, ttl, c);
      assert Apart(s.loads[e], s.loads[l], ttl);
    }
  }

  /** A waiting call that is cancelled fails, and nothing else happens. */
  lemma CancelDoesNoMore(s: State, ttl: real, c: nat)
    requires c < |s.calls| && s.calls[c].progress.Waiting?
    ensures Step(s, ttl, Cancel(c)) == s.(calls := s.calls[c := s.calls[c].(progress := Failed)])
  {
  }
}
