/**
  Publishing over whole runs: the publish step of `Publish`, each of its calls served
  by the WordPress client of `WpClient`, on the posts of all instances.

  A create run remembers its post only when a call succeeds. A call that failed may
  have left a post all the same, and the next attempt then makes a second one.
*/
module PublishRuns {
  import opened Wrappers
  import opened StripAnchors
  import opened WpClient
  import Publish

  /** What changes the row from outside the publish step. */
  type RowEvent = e: Publish.Event | !e.PublishNow? witness Publish.TakeClient

  /** A change of the row, or one call of the publish step, by the graph or a route:
      the rendered body, what the network does, and the link WordPress gives. */
  datatype Deed =
    | Change(event: RowEvent)
    | Call(content: seq<Token>, net: nat -> Exchange, link: string)

  datatype Made = Made(site: string, id: PostId)

  /** The row, the posts of each instance, and the posts the run has created. */
  datatype State = State(row: Publish.RunRow, sites: map<string, seq<Post>>, made: seq<Made>)

  function Site(sites: map<string, seq<Post>>, site: string): seq<Post> {
    if site in sites then sites[site] else []
  }

  /** The call that the publish step makes on this row, if it gets that far. */
  function CallOf(row: Publish.RunRow, hostOk: string -> bool): Option<Publish.Write> {
    Publish.PublishStep(row, Publish.PushFailed(""), hostOk).2
  }

  /** How the publish step records what the client answers or raises. */
  function ResultOf(o: Outcome, link: string): Publish.PushResult {
    match o
    case Done(post) => Publish.Pushed(post.id, link)
    case ConflictError => Publish.PushFailed("conflict")
    case ShapeError => Publish.PushFailed("transport_error")
    case _ => Publish.PushFailed("wp_error")
  }

  /** The client's answer to the call `w`, and what it leaves. */
  function Answer(cfg: Config, s: State, w: Publish.Write, content: seq<Token>, net: nat -> Exchange)
    : (Outcome, World)
  {
    Upsert(cfg, Payload(w.postId, s.row.slug, content), net, Site(s.sites, w.through))
  }

  function MadeAt(site: string, ids: seq<PostId>): (made: seq<Made>)
    ensures |made| == |ids|
  {
    seq(|ids|, i requires 0 <= i < |ids| => Made(site, ids[i]))
  }

  /** What the deed is to the row: the publish step's result is the client's answer. */
  function EventOf(cfg: Config, s: State, d: Deed, hostOk: string -> bool): Publish.Event {
    match d
    case Change(event) => event
    case Call(content, net, link) =>
      match CallOf(s.row, hostOk)
      case None => Publish.PublishNow(Publish.PushFailed(""))
      case Some(w) => Publish.PublishNow(ResultOf(Answer(cfg, s, w, content, net).0, link))
  }

  function Step(cfg: Config, s: State, d: Deed, hostOk: string -> bool): State {
    var row := Publish.Step(s.row, EventOf(cfg, s, d, hostOk), hostOk).0;
    if d.Change? || CallOf(s.row, hostOk).None? then s.(row := row)
    else
      var w := CallOf(s.row, hostOk).value;
      var left := Answer(cfg, s, w, d.content, d.net).1;
      State(row, s.sites[w.through := left.posts], s.made + MadeAt(w.through, left.created))
  }

  /** A run: how the client is configured, where it begins, and what happens. */
  datatype Run = Run(cfg: Config, start: State, deeds: seq<Deed>, hostOk: string -> bool)

  function At(r: Run, k: nat): State
    requires k <= |r.deeds|
  {
    if k == 0 then r.start else Step(r.cfg, At(r, k - 1), r.deeds[k - 1], r.hostOk)
  }

  function Events(r: Run, k: nat): (es: seq<Publish.Event>)
    requires k <= |r.deeds|
    ensures |es| == k
  {
    if k == 0 then [] else Events(r, k - 1) + [EventOf(r.cfg, At(r, k - 1), r.deeds[k - 1], r.hostOk)]
  }

  /** The row goes through the run of `Publish` with these events, so all that is
      proved there holds here. */
  lemma {:induction false} RowFollowsPublish(r: Run, k: nat)
    requires k <= |r.deeds|
    ensures At(r, k).row == Publish.After(r.start.row, Events(r, k), r.hostOk)
  {
    hide EventOf, Publish.Step;
    if k > 0 {
      var e := EventOf(r.cfg, At(r, k - 1), r.deeds[k - 1], r.hostOk);
      RowFollowsPublish(r, k - 1);
      assert (Events(r, k - 1) + [e])[..k - 1] == Events(r, k - 1);
      StepRow(r.cfg, At(r, k - 1), r.deeds[k - 1], r.hostOk);
    }
  }

  lemma StepRow(cfg: Config, s: State, d: Deed, hostOk: string -> bool)
    ensures Step(cfg, s, d, hostOk).row == Publish.Step(s.row, EventOf(cfg, s, d, hostOk), hostOk).0
  {
  }

  // ------------------------------------------------- the posts a run creates

  /** Deed k asks WordPress for a new post. */
  predicate AsksNew(r: Run, k: nat)
    requires k < |r.deeds|
  {
    && r.deeds[k].Call?
    && CallOf(At(r, k).row, r.hostOk).Some?
    && CallOf(At(r, k).row, r.hostOk).value.postId.None?
  }

  function AnswerAt(r: Run, k: nat): (Outcome, World)
    requires k < |r.deeds| && AsksNew(r, k)
  {
    Answer(r.cfg, At(r, k), CallOf(At(r, k).row, r.hostOk).value, r.deeds[k].content, r.deeds[k].net)
  }

  /** ... and the last request it sends for it is applied. */
  predicate CreatesAt(r: Run, k: nat)
    requires k < |r.deeds|
  {
    AsksNew(r, k) && r.deeds[k].net(AnswerAt(r, k).1.sent).origin.Applied?
  }

  /** ... though the call reports a failure. */
  predicate LeavesBehindAt(r: Run, k: nat)
    requires k < |r.deeds|
  {
    CreatesAt(r, k) && !AnswerAt(r, k).0.Done?
  }

  /** How many of the first k deeds ask for a new post. */
  function Asked(r: Run, k: nat): nat
    requires k <= |r.deeds|
  {
    if k == 0 then 0 else Asked(r, k - 1) + (if AsksNew(r, k - 1) then 1 else 0)
  }

  /** A deed creates one post or none. */
  lemma MadeNext(r: Run, k: nat)
    requires k < |r.deeds|
    ensures |At(r, k + 1).made| == |At(r, k).made| + (if CreatesAt(r, k) then 1 else 0)
  {
    hide Upsert, Publish.PublishStep, Publish.Step;
    var s, d := At(r, k), r.deeds[k];
    var call := CallOf(s.row, r.hostOk);
    if d.Call? && call.Some? {
      var p := Payload(call.value.postId, s.row.slug, d.content);
      var posts := Site(s.sites, call.value.through);
      if p.postId.None? {
        CreateLeavesAPostExactly(r.cfg, p, d.net, posts);
      } else {
        UpdateTouchesOnlyItsTarget(r.cfg, p, d.net, posts);
      }
    }
  }

  /** A run, of either mode, never creates more posts than it has asked for. */
  lemma {:induction false} OnePostPerAttempt(r: Run, k: nat)
    requires k <= |r.deeds|
    ensures |r.start.made| <= |At(r, k).made| <= |r.start.made| + Asked(r, k)
  {
    hide AsksNew, CreatesAt, At;
    if k == 0 {
      AtStart(r);
    } else {
      OnePostPerAttempt(r, k - 1);
      MadeNext(r, k - 1);
      CreatingAsks(r, k - 1);
    }
  }

  lemma AtStart(r: Run)
    ensures At(r, 0) == r.start
  {
  }

  lemma CreatingAsks(r: Run, k: nat)
    requires k < |r.deeds|
    ensures CreatesAt(r, k) ==> AsksNew(r, k)
  {
  }

  /** A create run that has not pushed yet, and has created nothing. */
  predicate Fresh(s: State) {
    s.row.mode.CreateMode? && s.row.pushed.None? && s.made == []
  }

  /** Once a call has succeeded the run knows its post, and asks for no other. */
  lemma {:induction false} NoneAfterSuccess(r: Run, i: nat, j: nat)
    requires i < j < |r.deeds| && r.start.row.mode.CreateMode?
    requires AsksNew(r, i) && AnswerAt(r, i).0.Done?
    ensures !AsksNew(r, j)
  {
    hide AsksNew, AnswerAt, At;
    KnowsItsPost(r, i);
    KeepsItsPost(r, i + 1, j);
    ModeIsFixed(r, j);
    AskingIsUnpushed(r, j);
  }

  lemma AskingIsUnpushed(r: Run, j: nat)
    requires j < |r.deeds|
    ensures At(r, j).row.mode.CreateMode? && AsksNew(r, j) ==> At(r, j).row.pushed.None?
  {
  }

  lemma KnowsItsPost(r: Run, i: nat)
    requires i < |r.deeds| && AsksNew(r, i) && AnswerAt(r, i).0.Done?
    ensures At(r, i + 1).row.pushed.Some?
  {
    hide Upsert;
    StepRow(r.cfg, At(r, i), r.deeds[i], r.hostOk);
  }

  lemma PushedStays(row: Publish.RunRow, e: Publish.Event, hostOk: string -> bool)
    ensures row.pushed.Some? ==> Publish.Step(row, e, hostOk).0.pushed.Some?
    ensures Publish.Step(row, e, hostOk).0.mode == row.mode
  {
  }

  lemma {:induction false} KeepsItsPost(r: Run, i: nat, k: nat)
    requires i <= k <= |r.deeds| && At(r, i).row.pushed.Some?
    ensures At(r, k).row.pushed.Some?
  {
    hide EventOf, Publish.Step;
    if i < k {
      KeepsItsPost(r, i, k - 1);
      StepRow(r.cfg, At(r, k - 1), r.deeds[k - 1], r.hostOk);
      PushedStays(At(r, k - 1).row, EventOf(r.cfg, At(r, k - 1), r.deeds[k - 1], r.hostOk), r.hostOk);
    }
  }

  lemma {:induction false} ModeIsFixed(r: Run, k: nat)
    requires k <= |r.deeds|
    ensures At(r, k).row.mode == r.start.row.mode
  {
    hide EventOf, Publish.Step;
    if k > 0 {
      ModeIsFixed(r, k - 1);
      StepRow(r.cfg, At(r, k - 1), r.deeds[k - 1], r.hostOk);
      PushedStays(At(r, k - 1).row, EventOf(r.cfg, At(r, k - 1), r.deeds[k - 1], r.hostOk), r.hostOk);
    }
  }

  /** Of two deeds that create a post the earlier one reported a failure. */
  lemma FirstOfTwoFailed(r: Run, i: nat, j: nat)
    requires i < j < |r.deeds| && r.start.row.mode.CreateMode? && CreatesAt(r, i) && CreatesAt(r, j)
    ensures LeavesBehindAt(r, i)
  {
    hide At, Answer, AnswerAt;
    if AnswerAt(r, i).0.Done? {
      NoneAfterSuccess(r, i, j);
    }
  }

  /** Deed i leaves a post behind, and a later one creates another. */
  predicate Duplicates(r: Run, i: nat, j: nat)
    requires i < j < |r.deeds|
  {
    LeavesBehindAt(r, i) && CreatesAt(r, j)
  }

  /** Some deed before k creates a post, once anything was made. */
  lemma {:induction false} SomeCreates(r: Run, k: nat) returns (i: nat)
    requires k <= |r.deeds| && |At(r, k).made| > |r.start.made|
    ensures i < k && CreatesAt(r, i)
  {
    hide At, CreatesAt;
    AtStart(r);
    MadeNext(r, k - 1);
    if CreatesAt(r, k - 1) {
      i := k - 1;
    } else {
      i := SomeCreates(r, k - 1);
    }
  }

  lemma {:induction false} TwoCreate(r: Run, k: nat) returns (i: nat, j: nat)
    requires k <= |r.deeds| && |At(r, k).made| > |r.start.made| + 1
    ensures i < j < k && CreatesAt(r, i) && CreatesAt(r, j)
  {
    hide At, CreatesAt;
    AtStart(r);
    MadeNext(r, k - 1);
    if CreatesAt(r, k - 1) {
      i := SomeCreates(r, k - 1);
      j := k - 1;
    } else {
      i, j := TwoCreate(r, k - 1);
    }
  }

  lemma {:induction false} MadeGrows(r: Run, i: nat, k: nat)
    requires i <= k <= |r.deeds|
    ensures |At(r, i).made| <= |At(r, k).made|
  {
    hide At, CreatesAt;
    if i < k {
      MadeGrows(r, i, k - 1);
      MadeNext(r, k - 1);
    }
  }

  /**
    A create run has at most one post of its own, on all instances together, if and only
    if no call that failed after its last request was applied is followed by another
    call whose last request is applied while the run still asks for a new post.
  */
  lemma OnePostExactly(r: Run)
    requires Fresh(r.start)
    ensures |At(r, |r.deeds|).made| <= 1
            <==> forall i, j :: 0 <= i < j < |r.deeds| ==> !Duplicates(r, i, j)
  {
    hide At, CreatesAt, LeavesBehindAt;
    var n := |r.deeds|;
    if |At(r, n).made| > 1 {
      var i, j := TwoCreate(r, n);
      FirstOfTwoFailed(r, i, j);
      assert Duplicates(r, i, j);
    }
    forall i, j | 0 <= i < j < n && Duplicates(r, i, j)
      ensures |At(r, n).made| > 1
    {
      LeavingCreates(r, i);
      MadeNext(r, i);
      MadeGrows(r, i + 1, j);
      MadeNext(r, j);
      MadeGrows(r, j + 1, n);
    }
  }

  lemma LeavingCreates(r: Run, i: nat)
    requires i < |r.deeds| && LeavesBehindAt(r, i)
    ensures CreatesAt(r, i)
  {
  }

  /** A create request that is applied, and answered by `edge`. */
  function Landed(edge: Edge): nat -> Exchange {
    k => Exchange([], Applied("other"), edge, [], Unreadable)
  }

  /** Both creates land; only the second is answered by WordPress. */
  lemma LandedAnswers(cfg: Config, p: Payload, posts: seq<Post>, status: int)
    requires p.postId.None? && IsError(status) && status != 412
    ensures var (o, w) := Upsert(cfg, p, Landed(Replace(status, ErrorDoc)), posts);
            o == RejectError && w.created == [|posts| + 1] && |w.posts| == |posts| + 1
    ensures var (o, w) := Upsert(cfg, p, Landed(Pass), posts);
            o.Done? && o.post.id == |posts| + 1 && w.created == [|posts| + 1]
  {
    hide Strip;
    assert posts + [] == posts;
  }

  /** The run that fails: the first call creates the post but is answered by a JSON
      error, so the row fails without an id; published again, it creates a second. */
  lemma SecondPost(cfg: Config, row: Publish.RunRow, content: seq<Token>, status: int, hostOk: string -> bool)
    requires row.mode.CreateMode? && row.pushed.None? && row.client.Some?
    requires IsError(status) && status != 412
    ensures var site := row.client.value;
            var deeds := [Call(content, Landed(Replace(status, ErrorDoc)), ""), Call(content, Landed(Pass), "")];
            var r := Run(cfg, State(row, map[], []), deeds, hostOk);
            && At(r, 1).row == row.(status := Publish.Failed("wp_error"))
            && At(r, 2).row.status.Published? && At(r, 2).row.pushed == Some(2)
            && At(r, 2).made == [Made(site, 1), Made(site, 2)]
  {
    hide Upsert;
    var deeds := [Call(content, Landed(Replace(status, ErrorDoc)), ""), Call(content, Landed(Pass), "")];
    var r := Run(cfg, State(row, map[], []), deeds, hostOk);
    var p := Payload(None, row.slug, content);
    LandedAnswers(cfg, p, [], status);
    assert At(r, 0).row == row && CallOf(row, hostOk) == Some(Publish.Write(None, row.client.value));
    var posts := Upsert(cfg, p, Landed(Replace(status, ErrorDoc)), []).1.posts;
    assert At(r, 1).row == row.(status := Publish.Failed("wp_error"));
    assert Site(At(r, 1).sites, row.client.value) == posts;
    LandedAnswers(cfg, p, posts, status);
    assert At(r, 2) == Step(cfg, At(r, 1), deeds[1], hostOk);
    assert At(r, 1).made == [Made(row.client.value, 1)];
  }
}
