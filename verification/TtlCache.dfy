/**
  The single-flight TTL cache behind the option endpoints
  (content_tool/api/wp_options_cache.py).

  Any number of coroutines call `get_or_set`. Each runs undisturbed between its
  awaits, so a run of the system is a sequence of these events: a call comes in,
  a waiting call gets its key's lock, a loader finishes or raises, time passes.
*/
module TtlCache {
  import opened Wrappers

  datatype LoadState = InFlight | Stored(at: real) | Raised(when: real)

  /** One run of a loader; its position in the history stands for its value. */
  datatype Load = Load(key: string, caller: nat, started: real, state: LoadState)

  datatype Entry = Entry(at: real, load: nat)

  datatype Progress =
    | Waiting                              // for the key's lock
    | Loading(load: nat)                   // holding it
    | Hit(load: nat, seen: real)           // returned a value found fresh at clock reading `seen`
    | Miss(load: nat)                      // returned the value it loaded
    | Failed                               // the loader raised, or the call was cancelled

  datatype Call = Call(key: string, entered: real, progress: Progress)

  datatype State = State(
    now: real,
    entries: map<string, Entry>,
    holder: map<string, nat>,              // key -> call holding its lock
    calls: seq<Call>,
    loads: seq<Load>)

  datatype Event =
    | Tick(dt: real)
    | Enter(key: string, queue: bool)      // queue: others already wait for the lock
    | Grant(call: nat)
    | Finish(call: nat)
    | Raise(call: nat)
    | Cancel(call: nat)

  const INIT := State(0.0, map[], map[], [], [])

  predicate Fresh(s: State, ttl: real, key: string) {
    key in s.entries && s.now - s.entries[key].at < ttl
  }

  function SetProgress(s: State, c: nat, p: Progress): State
    requires c < |s.calls|
  {
    s.(calls := s.calls[c := s.calls[c].(progress := p)])
  }

  /** With the lock in hand: look again, then load. */
  function Locked(s: State, ttl: real, c: nat): State
    requires c < |s.calls|
  {
    var key := s.calls[c].key;
    if Fresh(s, ttl, key) then SetProgress(s, c, Hit(s.entries[key].load, s.now))
    else
      SetProgress(s, c, Loading(|s.loads|)).(
        holder := s.holder[key := c],
        loads := s.loads + [Load(key, c, s.now, InFlight)])
  }

  predicate IsLoading(s: State, c: nat) {
    c < |s.calls| && s.calls[c].progress.Loading? && s.calls[c].progress.load < |s.loads|
  }

  function EndLoad(s: State, c: nat, end: LoadState, p: Progress): State
    requires IsLoading(s, c)
  {
    var l := s.calls[c].progress.load;
    SetProgress(s, c, p).(
      holder := s.holder - {s.calls[c].key},
      loads := s.loads[l := s.loads[l].(state := end)])
  }

  function Step(s: State, ttl: real, e: Event): State {
    match e
    case Tick(dt) => if dt >= 0.0 then s.(now := s.now + dt) else s
    case Enter(key, queue) =>
      var c := |s.calls|;
      if Fresh(s, ttl, key) then
        s.(calls := s.calls + [Call(key, s.now, Hit(s.entries[key].load, s.now))])
      else
        var s' := s.(calls := s.calls + [Call(key, s.now, Waiting)]);
        if queue || key in s.holder then s' else Locked(s', ttl, c)
    case Grant(c) =>
      if c < |s.calls| && s.calls[c].progress.Waiting? && s.calls[c].key !in s.holder then Locked(s, ttl, c) else s
    case Finish(c) =>
      if IsLoading(s, c) then
        var l := s.calls[c].progress.load;
        EndLoad(s, c, Stored(s.now), Miss(l)).(entries := s.entries[s.calls[c].key := Entry(s.now, l)])
      else s
    case Raise(c) =>
      if IsLoading(s, c) then EndLoad(s, c, Raised(s.now), Failed) else s
    case Cancel(c) =>
      if c < |s.calls| && s.calls[c].progress.Waiting? then SetProgress(s, c, Failed) else s
  }

  function Run(ttl: real, es: seq<Event>): State {
    if es == [] then INIT else Step(Run(ttl, es[..|es| - 1]), ttl, es[|es| - 1])
  }

  /** The cache object: each method is what one coroutine does between two awaits. */
  class Cache {
    const ttl: real
    var now: real
    var entries: map<string, Entry>
    var holder: map<string, nat>
    var calls: seq<Call>
    var loads: seq<Load>

    constructor (ttl: real)
      ensures this.ttl == ttl && View() == INIT
    {
      this.ttl := ttl;
      now, entries, holder, calls, loads := 0.0, map[], map[], [], [];
    }

    ghost function View(): State
      reads this
    {
      State(now, entries, holder, calls, loads)
    }

    /** `get_or_set` up to its first await: a fresh entry is returned, else the lock is asked for. */
    method Enter(key: string, queue: bool) returns (value: Option<nat>)
      modifies this
      ensures View() == Step(old(View()), ttl, Event.Enter(key, queue))
      ensures value.Some? <==> Fresh(old(View()), ttl, key)
      ensures value.Some? ==> value.value == old(entries[key].load)
    {
      if key in entries && now - entries[key].at < ttl {
        calls := calls + [Call(key, now, Hit(entries[key].load, now))];
        return Some(entries[key].load);
      }
      var c := |calls|;
      calls := calls + [Call(key, now, Waiting)];
      if !queue && key !in holder {
        Recheck(c);
      }
      return None;
    }

    /** The lock is held: the entry is looked at again, and the loader started if it is not fresh. */
    method Recheck(c: nat)
      requires c < |calls|
      modifies this
      ensures View() == Locked(old(View()), ttl, c)
    {
      var call := calls[c];
      if call.key in entries && now - entries[call.key].at < ttl {
        calls := calls[c := call.(progress := Hit(entries[call.key].load, now))];
      } else {
        calls := calls[c := call.(progress := Loading(|loads|))];
        holder := holder[call.key := c];
        loads := loads + [Load(call.key, c, now, InFlight)];
      }
    }

    /** The loader is back: its value is stored with the time, and the lock released. */
    method Finish(c: nat)
      requires IsLoading(View(), c)
      modifies this
      ensures View() == Step(old(View()), ttl, Event.Finish(c))
    {
      var call := calls[c];
      var l := call.progress.load;
      calls := calls[c := call.(progress := Miss(l))];
      loads := loads[l := loads[l].(state := Stored(now))];
      entries := entries[call.key := Entry(now, l)];
      holder := holder - {call.key};
    }

    /** The loader raised: nothing is stored, and the lock is released. */
    method Raise(c: nat)
      requires IsLoading(View(), c)
      modifies this
      ensures View() == Step(old(View()), ttl, Event.Raise(c))
    {
      var call := calls[c];
      var l := call.progress.load;
      calls := calls[c := call.(progress := Failed)];
      loads := loads[l := loads[l].(state := Raised(now))];
      holder := holder - {call.key};
    }
  }

  // --------------------------------------------------------------- invariants

  function EndOf(l: Load): real
    requires !l.state.InFlight?
  {
    if l.state.Stored? then l.state.at else l.state.when
  }

  /** A loading call holds its key's lock and owns one load in flight. */
  ghost predicate LoadingOwns(holder: map<string, nat>, calls: seq<Call>, loads: seq<Load>) {
    forall c :: 0 <= c < |calls| && calls[c].progress.Loading? ==>
      var l := calls[c].progress.load;
      && l < |loads| && loads[l].key == calls[c].key && loads[l].caller == c && loads[l].state.InFlight?
      && calls[c].key in holder && holder[calls[c].key] == c
  }

  /** A held lock has a loading holder, and so has every load in flight. */
  ghost predicate InFlightOwned(holder: map<string, nat>, calls: seq<Call>, loads: seq<Load>) {
    && (forall k :: k in holder ==>
          holder[k] < |calls| && calls[holder[k]].key == k && calls[holder[k]].progress.Loading?)
    && (forall l :: 0 <= l < |loads| && loads[l].state.InFlight? ==>
          loads[l].caller < |calls| && calls[loads[l].caller].progress == Loading(l))
  }

  ghost predicate TimesInPast(now: real, calls: seq<Call>, loads: seq<Load>) {
    && (forall l :: 0 <= l < |loads| ==>
          loads[l].started <= now && (!loads[l].state.InFlight? ==> loads[l].started <= EndOf(loads[l]) <= now))
    && (forall c :: 0 <= c < |calls| ==> calls[c].entered <= now)
  }

  /** The cached entry of a key is its latest stored load. */
  ghost predicate EntriesAreLatest(entries: map<string, Entry>, loads: seq<Load>) {
    && (forall k :: k in entries ==>
          entries[k].load < |loads| && loads[entries[k].load].key == k
          && loads[entries[k].load].state == Stored(entries[k].at))
    && (forall l :: 0 <= l < |loads| && loads[l].state.Stored? ==>
          loads[l].key in entries && loads[l].state.at <= entries[loads[l].key].at)
  }

  /** Of two loads of one key the earlier has ended before the later starts, and
      a stored value has gone stale by then. */
  ghost predicate Spaced(loads: seq<Load>, ttl: real) {
    forall i, j :: 0 <= i < j < |loads| && loads[i].key == loads[j].key ==> Apart(loads[i], loads[j], ttl)
  }

  ghost predicate Apart(a: Load, b: Load, ttl: real) {
    && !a.state.InFlight?
    && EndOf(a) <= b.started
    && (a.state.Stored? ==> b.started - a.state.at >= ttl)
  }

  /** What call number c may have returned. */
  ghost predicate GoodReturn(call: Call, c: nat, loads: seq<Load>, now: real, ttl: real) {
    match call.progress
    case Hit(l, seen) =>
      && l < |loads| && loads[l].key == call.key && loads[l].state.Stored?
      && call.entered <= seen <= now
      && seen - loads[l].state.at < ttl
    case Miss(l) =>
      l < |loads| && loads[l].key == call.key && loads[l].state.Stored? && loads[l].caller == c
    case _ => true
  }

  ghost predicate GoodReturns(calls: seq<Call>, loads: seq<Load>, now: real, ttl: real) {
    forall c :: 0 <= c < |calls| ==> GoodReturn(calls[c], c, loads, now, ttl)
  }

  ghost predicate Good(s: State, ttl: real) {
    && LoadingOwns(s.holder, s.calls, s.loads)
    && InFlightOwned(s.holder, s.calls, s.loads)
    && TimesInPast(s.now, s.calls, s.loads)
    && EntriesAreLatest(s.entries, s.loads)
    && Spaced(s.loads, ttl)
    && GoodReturns(s.calls, s.loads, s.now, ttl)
  }

  // --------------------------------------------------- every step keeps them

  lemma NewCallKeeps(s: State, ttl: real, call: Call)
    requires Good(s, ttl) && call.entered == s.now && !call.progress.Loading?
    requires GoodReturn(call, |s.calls|, s.loads, s.now, ttl)
    ensures Good(s.(calls := s.calls + [call]), ttl)
  {
    var calls := s.calls + [call];
    assert forall c :: 0 <= c < |s.calls| ==> calls[c] == s.calls[c];
    assert LoadingOwns(s.holder, calls, s.loads);
    assert InFlightOwned(s.holder, calls, s.loads);
    assert TimesInPast(s.now, calls, s.loads);
    assert GoodReturns(calls, s.loads, s.now, ttl);
  }

  lemma SettledKeeps(s: State, ttl: real, c: nat, p: Progress)
    requires Good(s, ttl) && c < |s.calls| && s.calls[c].progress.Waiting? && !p.Loading?
    requires GoodReturn(s.calls[c].(progress := p), c, s.loads, s.now, ttl)
    ensures Good(SetProgress(s, c, p), ttl)
  {
    var calls := SetProgress(s, c, p).calls;
    assert LoadingOwns(s.holder, calls, s.loads);
    assert InFlightOwned(s.holder, calls, s.loads);
    assert TimesInPast(s.now, calls, s.loads);
    assert GoodReturns(calls, s.loads, s.now, ttl);
  }

  lemma InFlightLocks(s: State, ttl: real, i: nat)
    requires Good(s, ttl) && i < |s.loads|
    ensures s.loads[i].state.InFlight? ==> s.loads[i].key in s.holder
  {
    if s.loads[i].state.InFlight? {
      assert s.calls[s.loads[i].caller].progress == Loading(i);
    }
  }

  /** A load that starts now under a free lock with a stale entry is apart from
      every earlier load of the key. */
  lemma NewLoadApart(s: State, ttl: real, key: string, i: nat, l: Load)
    requires Good(s, ttl) && key !in s.holder && !Fresh(s, ttl, key)
    requires i < |s.loads| && s.loads[i].key == key && l.started == s.now
    ensures Apart(s.loads[i], l, ttl)
  {
    InFlightLocks(s, ttl, i);
  }

  lemma StartKeepsLoads(s: State, ttl: real, key: string, l: Load)
    requires Good(s, ttl) && key !in s.holder && !Fresh(s, ttl, key)
    requires l.key == key && l.started == s.now && l.state.InFlight?
    ensures Spaced(s.loads + [l], ttl) && EntriesAreLatest(s.entries, s.loads + [l])
  {
    var loads := s.loads + [l];
    assert forall i :: 0 <= i < |s.loads| ==> loads[i] == s.loads[i];
    forall i, j | 0 <= i < j < |loads| && loads[i].key == loads[j].key ensures Apart(loads[i], loads[j], ttl) {
      if j == |s.loads| {
        NewLoadApart(s, ttl, key, i, l);
      }
    }
  }

  lemma StartKeepsOwners(s: State, ttl: real, c: nat)
    requires Good(s, ttl) && c < |s.calls| && s.calls[c].progress.Waiting? && s.calls[c].key !in s.holder
    requires !Fresh(s, ttl, s.calls[c].key)
    ensures var s' := Locked(s, ttl, c);
            && LoadingOwns(s'.holder, s'.calls, s'.loads)
            && InFlightOwned(s'.holder, s'.calls, s'.loads)
  {
    var s' := Locked(s, ttl, c);
    assert forall i :: 0 <= i < |s.loads| ==> s'.loads[i] == s.loads[i];
    assert forall d :: 0 <= d < |s.calls| && d != c ==> s'.calls[d] == s.calls[d];
  }

  lemma StartKeepsReturns(s: State, ttl: real, c: nat)
    requires Good(s, ttl) && c < |s.calls| && s.calls[c].progress.Waiting? && s.calls[c].key !in s.holder
    requires !Fresh(s, ttl, s.calls[c].key)
    ensures var s' := Locked(s, ttl, c);
            && TimesInPast(s'.now, s'.calls, s'.loads)
            && GoodReturns(s'.calls, s'.loads, s'.now, ttl)
  {
    var s' := Locked(s, ttl, c);
    forall d | 0 <= d < |s.calls| ensures GoodReturn(s'.calls[d], d, s'.loads, s'.now, ttl) {
      assert GoodReturn(s.calls[d], d, s.loads, s.now, ttl);
    }
  }

  lemma LockedKeeps(s: State, ttl: real, c: nat)
    requires Good(s, ttl) && c < |s.calls| && s.calls[c].progress.Waiting? && s.calls[c].key !in s.holder
    ensures Good(Locked(s, ttl, c), ttl)
  {
    var key := s.calls[c].key;
    if Fresh(s, ttl, key) {
      SettledKeeps(s, ttl, c, Hit(s.entries[key].load, s.now));
    } else {
      StartKeepsLoads(s, ttl, key, Load(key, c, s.now, InFlight));
      StartKeepsOwners(s, ttl, c);
      StartKeepsReturns(s, ttl, c);
    }
  }

  predicate EndsNow(s: State, end: LoadState, p: Progress, l: nat) {
    (end == Stored(s.now) && p == Miss(l)) || (end == Raised(s.now) && p == Failed)
  }

  /** A load in flight is its key's last. */
  lemma InFlightIsLast(s: State, ttl: real, c: nat)
    requires Good(s, ttl) && IsLoading(s, c)
    ensures forall j :: s.calls[c].progress.load < j < |s.loads| ==> s.loads[j].key != s.calls[c].key
  {
    var l := s.calls[c].progress.load;
    assert forall j :: l < j < |s.loads| ==> !Apart(s.loads[l], s.loads[j], ttl);
  }

  lemma EndKeepsLoads(s: State, ttl: real, c: nat, end: LoadState, p: Progress)
    requires Good(s, ttl) && IsLoading(s, c) && EndsNow(s, end, p, s.calls[c].progress.load)
    ensures Spaced(EndLoad(s, c, end, p).loads, ttl)
    ensures TimesInPast(s.now, EndLoad(s, c, end, p).calls, EndLoad(s, c, end, p).loads)
  {
    var l, loads := s.calls[c].progress.load, EndLoad(s, c, end, p).loads;
    InFlightIsLast(s, ttl, c);
    forall i, j | 0 <= i < j < |loads| && loads[i].key == loads[j].key ensures Apart(loads[i], loads[j], ttl) {
      assert Apart(s.loads[i], s.loads[j], ttl);
    }
  }

  lemma EndKeepsOwners(s: State, ttl: real, c: nat, end: LoadState, p: Progress)
    requires Good(s, ttl) && IsLoading(s, c) && EndsNow(s, end, p, s.calls[c].progress.load)
    ensures var s' := EndLoad(s, c, end, p);
            && LoadingOwns(s'.holder, s'.calls, s'.loads)
            && InFlightOwned(s'.holder, s'.calls, s'.loads)
  {
    var l, key, s' := s.calls[c].progress.load, s.calls[c].key, EndLoad(s, c, end, p);
    forall d | 0 <= d < |s.calls| && s'.calls[d].progress.Loading?
      ensures s.calls[d].progress.load != l && s.calls[d].key != key
    {
      assert s.holder[s.calls[d].key] == d;
    }
  }

  lemma EndKeepsReturns(s: State, ttl: real, c: nat, end: LoadState, p: Progress)
    requires Good(s, ttl) && IsLoading(s, c) && EndsNow(s, end, p, s.calls[c].progress.load)
    ensures GoodReturns(EndLoad(s, c, end, p).calls, EndLoad(s, c, end, p).loads, s.now, ttl)
  {
    var s' := EndLoad(s, c, end, p);
    forall d | 0 <= d < |s.calls| ensures GoodReturn(s'.calls[d], d, s'.loads, s.now, ttl) {
      assert GoodReturn(s.calls[d], d, s.loads, s.now, ttl);
    }
  }

  lemma EndKeepsEntries(s: State, ttl: real, c: nat)
    requires Good(s, ttl) && IsLoading(s, c)
    ensures EntriesAreLatest(Step(s, ttl, Finish(c)).entries, Step(s, ttl, Finish(c)).loads)
    ensures EntriesAreLatest(Step(s, ttl, Raise(c)).entries, Step(s, ttl, Raise(c)).loads)
  {
    var l := s.calls[c].progress.load;
    var f, r := Step(s, ttl, Finish(c)), Step(s, ttl, Raise(c));
    assert s.loads[l].state.InFlight? && s.loads[l].key == s.calls[c].key;
    assert forall i :: 0 <= i < |s.loads| && i != l ==> f.loads[i] == s.loads[i] && r.loads[i] == s.loads[i];
    assert f.loads[l].state == Stored(s.now) && r.loads[l].state == Raised(s.now);
  }

  lemma EndKeepsCalls(s: State, ttl: real, c: nat, end: LoadState, p: Progress)
    requires Good(s, ttl) && IsLoading(s, c) && EndsNow(s, end, p, s.calls[c].progress.load)
    ensures var s' := EndLoad(s, c, end, p);
            && LoadingOwns(s'.holder, s'.calls, s'.loads)
            && InFlightOwned(s'.holder, s'.calls, s'.loads)
            && TimesInPast(s'.now, s'.calls, s'.loads)
            && Spaced(s'.loads, ttl)
            && GoodReturns(s'.calls, s'.loads, s'.now, ttl)
  {
    EndKeepsLoads(s, ttl, c, end, p);
    EndKeepsOwners(s, ttl, c, end, p);
    EndKeepsReturns(s, ttl, c, end, p);
  }

  lemma EndLoadKeeps(s: State, ttl: real, c: nat)
    requires Good(s, ttl) && IsLoading(s, c)
    ensures Good(Step(s, ttl, Finish(c)), ttl)
    ensures Good(Step(s, ttl, Raise(c)), ttl)
  {
    EndKeepsEntries(s, ttl, c);
    EndKeepsCalls(s, ttl, c, Stored(s.now), Miss(s.calls[c].progress.load));
    EndKeepsCalls(s, ttl, c, Raised(s.now), Failed);
  }

  lemma TickKeeps(s: State, ttl: real, dt: real)
    requires Good(s, ttl) && dt >= 0.0
    ensures Good(s.(now := s.now + dt), ttl)
  {
    forall d | 0 <= d < |s.calls| ensures GoodReturn(s.calls[d], d, s.loads, s.now + dt, ttl) {
      assert GoodReturn(s.calls[d], d, s.loads, s.now, ttl);
    }
  }

  lemma StepKeeps(s: State, ttl: real, e: Event)
    requires Good(s, ttl)
    ensures Good(Step(s, ttl, e), ttl)
  {
    match e
    case Tick(dt) => if dt >= 0.0 { TickKeeps(s, ttl, dt); }
    case Enter(key, queue) => EnterKeeps(s, ttl, key, queue);
    case Grant(c) =>
      if c < |s.calls| && s.calls[c].progress.Waiting? && s.calls[c].key !in s.holder {
        LockedKeeps(s, ttl, c);
      }
    case Finish(c) => if IsLoading(s, c) { EndLoadKeeps(s, ttl, c); }
    case Raise(c) => if IsLoading(s, c) { EndLoadKeeps(s, ttl, c); }
    case Cancel(c) =>
      if c < |s.calls| && s.calls[c].progress.Waiting? {
        SettledKeeps(s, ttl, c, Failed);
      }
  }

  lemma EnterKeeps(s: State, ttl: real, key: string, queue: bool)
    requires Good(s, ttl)
    ensures Good(Step(s, ttl, Enter(key, queue)), ttl)
  {
    if Fresh(s, ttl, key) {
      NewCallKeeps(s, ttl, Call(key, s.now, Hit(s.entries[key].load, s.now)));
    } else {
      NewCallKeeps(s, ttl, Call(key, s.now, Waiting));
      if !queue && key !in s.holder {
        LockedKeeps(s.(calls := s.calls + [Call(key, s.now, Waiting)]), ttl, |s.calls|);
      }
    }
  }

  lemma {:induction false} AlwaysGood(ttl: real, es: seq<Event>)
    ensures Good(Run(ttl, es), ttl)
  {
    if es != [] {
      AlwaysGood(ttl, es[..|es| - 1]);
      StepKeeps(Run(ttl, es[..|es| - 1]), ttl, es[|es| - 1]);
    }
  }

  /** In every run: loads of one key never overlap; stored loads of one key are
      at least the time-to-live apart; and a call returns either the value it
      loaded itself or one that was younger than the time-to-live at a clock
      reading taken during the call. */
  lemma SingleFlightFreshness(ttl: real, es: seq<Event>)
    ensures var s := Run(ttl, es);
            && (forall i, j :: 0 <= i < j < |s.loads| && s.loads[i].key == s.loads[j].key ==>
                  !s.loads[i].state.InFlight? && EndOf(s.loads[i]) <= s.loads[j].started)
            && (forall i, j :: 0 <= i < j < |s.loads| && s.loads[i].key == s.loads[j].key
                               && s.loads[i].state.Stored? && s.loads[j].state.Stored? ==>
                  s.loads[j].state.at - s.loads[i].state.at >= ttl)
            && (forall c :: 0 <= c < |s.calls| ==> GoodReturn(s.calls[c], c, s.loads, s.now, ttl))
  {
    AlwaysGood(ttl, es);
    var s := Run(ttl, es);
    forall i, j | 0 <= i < j < |s.loads| && s.loads[i].key == s.loads[j].key
      ensures Apart(s.loads[i], s.loads[j], ttl) && s.loads[j].started <= s.now
      ensures s.loads[j].state.Stored? ==> s.loads[j].started <= s.loads[j].state.at
    {
    }
  }

  /** A key whose entry is fresh is never loaded: a call that comes in returns
      the entry at once. */
  lemma FreshEntryServes(ttl: real, es: seq<Event>, key: string, queue: bool)
    requires Fresh(Run(ttl, es), ttl, key)
    ensures var s, s' := Run(ttl, es), Run(ttl, es + [Enter(key, queue)]);
            && s'.loads == s.loads
            && s'.calls == s.calls + [Call(key, s.now, Hit(s.entries[key].load, s.now))]
  {
    assert (es + [Enter(key, queue)])[..|es|] == es;
  }
}
