/**
  The publish step and the HITL_2 target pin
  (content_tool/agents/publish.py, content_tool/api/routes/runs.py).

  A run's row carries the target that was approved at the second gate. A refresh
  run that has not pushed yet may write only to exactly that target.
*/
module Publish {
  import opened Wrappers
  import opened Slug

  /** The gate takes no request for changes beyond this many. */
  const ROUNDS_CAP := 3

  datatype StartMode = CreateMode | RefreshMode
  datatype Decision = Approve | RequestChanges | Reject
  datatype Status = Gated | Published | Failed(code: string)

  /** The three pin columns; post ids are compared by their decimal text, which
      determines the number. */
  datatype Pin = Pin(kind: string, postId: Option<PostId>, targetLabel: string)

  /** One run's row, with what the publish step looks up beside it: the fetched
      post, the label the run's voice resolves to now (None: misconfigured), and
      the label of the client the executor resolved when it resumed the run. */
  datatype RunRow = RunRow(
    mode: StartMode,
    articleUrl: Option<string>,
    slug: Option<string>,
    fetched: Option<PostId>,
    pushed: Option<PostId>,
    decision: Option<Decision>,
    rounds: nat,
    pin: Option<Pin>,
    status: Status,
    voiceTarget: Option<string>,
    client: Option<string>)

  datatype PushResult = Pushed(id: PostId, link: string) | PushFailed(code: string)

  datatype Event =
    | Gate(decision: Decision, confirmed: Option<Pin>, slug: Option<string>)  // POST /hitl-2
    | Regenerate                                                            // POST /regenerate counts a round
    | EditSlug(raw: string)                                                 // PATCH /runs/{id}
    | Retarget(target: Option<string>)                                      // the voice is pointed elsewhere
    | Refetch(found: Option<PostId>)                                        // a restart fetches again
    | TakeClient                                                            // the executor resolves its client
    | PublishNow(result: PushResult)                                        // result: what the upsert will say

  /** One call of the WordPress client: the post id it was given, and through
      which instance it went. */
  datatype Write = Write(postId: Option<PostId>, through: string)

  datatype Answer = Accepted | Conflict409 | TargetMismatch | TargetUnresolved | NoClient | PushOk | PushError

  function BaseId(r: RunRow): Option<PostId> {
    if r.pushed.Some? then r.pushed else r.fetched
  }

  function ResolvedId(r: RunRow, slug: Option<string>, hostOk: string -> bool): Option<PostId> {
    match r.mode
    case CreateMode => r.pushed
    case RefreshMode => ResolvePostIdForSlug(BaseId(r), r.articleUrl, slug, hostOk)
  }

  /** The decision at the gate: an approval of a refresh run must name the target
      this row resolves to with the slug about to be stored, and a request for
      changes must be within the cap. */
  function GateStep(r: RunRow, d: Decision, confirmed: Option<Pin>, slug: Option<string>, hostOk: string -> bool)
    : (RunRow, Answer)
  {
    if d.Approve? && r.mode.RefreshMode? then
      if r.voiceTarget.None? then (r, TargetUnresolved)
      else
        var expected := Pin("wordpress", ResolvedId(r, slug, hostOk), r.voiceTarget.value);
        if confirmed != Some(expected) then (r, Conflict409)
        else (r.(decision := Some(d), slug := slug, pin := Some(expected)), Accepted)
    else if d.RequestChanges? then
      if r.rounds >= ROUNDS_CAP then (r, Conflict409)
      else (r.(decision := Some(d), rounds := r.rounds + 1, slug := slug, pin := None), Accepted)
    else (r.(decision := Some(d), slug := slug, pin := None), Accepted)
  }

  predicate NeedsPin(r: RunRow) {
    r.mode.RefreshMode? && r.pushed.None?
  }

  function PublishStep(r: RunRow, result: PushResult, hostOk: string -> bool): (RunRow, Answer, Option<Write>) {
    var id := ResolvedId(r, r.slug, hostOk);
    if r.client.None? then (r, NoClient, None)
    else if NeedsPin(r) && r.voiceTarget.None? then (r, TargetUnresolved, None)
    else if NeedsPin(r) && r.pin != Some(Pin("wordpress", id, r.voiceTarget.value)) then
      (r.(decision := None, pin := None), TargetMismatch, None)
    else
      var w := Write(id, r.client.value);
      match result
      case PushFailed(code) => (r.(status := Failed(code)), PushError, Some(w))
      case Pushed(newId, link) =>
        (r.(pushed := Some(newId), status := Published,
            articleUrl := if r.mode.CreateMode? then Some(link) else r.articleUrl), PushOk, Some(w))
  }

  function Step(r: RunRow, e: Event, hostOk: string -> bool): (RunRow, Answer, Option<Write>) {
    match e
    case Gate(d, confirmed, slug) => var (r', a) := GateStep(r, d, confirmed, slug, hostOk); (r', a, None)
    case Regenerate => (r.(rounds := r.rounds + 1), Accepted, None)
    case EditSlug(raw) => (r.(slug := CanonicalizeSlug(Some(raw))), Accepted, None)
    case Retarget(target) => (r.(voiceTarget := target), Accepted, None)
    case Refetch(found) => (r.(fetched := found), Accepted, None)
    case TakeClient => (r.(client := r.voiceTarget), Accepted, None)
    case PublishNow(result) => PublishStep(r, result, hostOk)
  }

  /** What the other events change: one thing each, and nothing is written. */
  lemma OtherEvents(r: RunRow, e: Event, hostOk: string -> bool)
    requires !e.Gate? && !e.PublishNow?
    ensures var (r', a, w) := Step(r, e, hostOk);
            && a.Accepted? && w.None?
            && r' == match e
                     case Regenerate => r.(rounds := r.rounds + 1)
                     case EditSlug(raw) => r.(slug := CanonicalizeSlug(Some(raw)))
                     case Retarget(target) => r.(voiceTarget := target)
                     case Refetch(found) => r.(fetched := found)
                     case _ => r.(client := r.voiceTarget)
  {
  }

  class Run {
    var articleUrl: Option<string>
    var slug: Option<string>
    var fetched: Option<PostId>
    var pushed: Option<PostId>
    var decision: Option<Decision>
    var rounds: nat
    var pin: Option<Pin>
    var status: Status
    var voiceTarget: Option<string>
    var client: Option<string>
    const mode: StartMode
    ghost var writes: seq<Write>

    constructor (row: RunRow)
      ensures Row() == row && writes == []
    {
      mode := row.mode;
      articleUrl, slug, fetched, pushed := row.articleUrl, row.slug, row.fetched, row.pushed;
      decision, rounds, pin, status := row.decision, row.rounds, row.pin, row.status;
      voiceTarget, client := row.voiceTarget, row.client;
      writes := [];
    }

    function Row(): RunRow
      reads this
    {
      RunRow(mode, articleUrl, slug, fetched, pushed, decision, rounds, pin, status, voiceTarget, client)
    }

    /** `publish_to_wordpress`; `result` is what the WordPress client will answer. */
    method PublishToWordpress(result: PushResult, hostOk: string -> bool) returns (answer: Answer)
      modifies this
      ensures var (row, a, w) := PublishStep(old(Row()), result, hostOk);
              Row() == row && answer == a && writes == old(writes) + (if w.Some? then [w.value] else [])
    {
      if client.None? {
        return NoClient;
      }
      var postId: Option<PostId>;
      if mode.CreateMode? {
        postId := pushed;
      } else {
        var base := if pushed.Some? then pushed else fetched;
        postId := ResolvePostIdForSlug(base, articleUrl, slug, hostOk);
        if pushed.None? {
          if voiceTarget.None? {
            return TargetUnresolved;
          }
          var pinned := pin.Some? && pin.value.kind == "wordpress" && pin.value.postId == postId
                        && pin.value.targetLabel == voiceTarget.value;
          if !pinned {
            decision, pin := None, None;
            return TargetMismatch;
          }
        }
      }
      writes := writes + [Write(postId, client.value)];
      match result {
        case PushFailed(code) =>
          status := Failed(code);
          return PushError;
        case Pushed(id, link) =>
          pushed, status := Some(id), Published;
          if mode.CreateMode? {
            articleUrl := Some(link);
          }
          return PushOk;
      }
    }
  }

  // --------------------------------------------------------------- whole runs

  function After(r: RunRow, es: seq<Event>, hostOk: string -> bool): RunRow {
    if es == [] then r
    else Step(After(r, es[..|es| - 1], hostOk), es[|es| - 1], hostOk).0
  }

  /** The row just before event k. */
  function At(r: RunRow, es: seq<Event>, hostOk: string -> bool, k: nat): RunRow
    requires k <= |es|
  {
    After(r, es[..k], hostOk)
  }

  function WriteAt(r: RunRow, es: seq<Event>, hostOk: string -> bool, k: nat): Option<Write>
    requires k < |es|
  {
    Step(At(r, es, hostOk, k), es[k], hostOk).2
  }

  lemma AtNext(r: RunRow, es: seq<Event>, hostOk: string -> bool, k: nat)
    requires k < |es|
    ensures At(r, es, hostOk, k + 1) == Step(At(r, es, hostOk, k), es[k], hostOk).0
  {
    assert es[..k + 1][..k] == es[..k];
  }

  /** Event k is a decision that the gate took. */
  predicate DecidedAt(r: RunRow, es: seq<Event>, hostOk: string -> bool, k: nat)
    requires k < |es|
  {
    es[k].Gate? && Step(At(r, es, hostOk, k), es[k], hostOk).1.Accepted?
  }

  /** Event k is a publish attempt refused for its target. */
  predicate MismatchAt(r: RunRow, es: seq<Event>, hostOk: string -> bool, k: nat)
    requires k < |es|
  {
    Step(At(r, es, hostOk, k), es[k], hostOk).1.TargetMismatch?
  }

  /** Event k replaces or voids whatever approval stood before it. */
  predicate EndsApproval(r: RunRow, es: seq<Event>, hostOk: string -> bool, k: nat)
    requires k < |es|
  {
    DecidedAt(r, es, hostOk, k) || MismatchAt(r, es, hostOk, k)
  }

  /** Event j is an approval whose confirmed target is `pin`, and no decision was
      taken and no mismatch found between j and k. */
  predicate StandingApproval(r: RunRow, es: seq<Event>, hostOk: string -> bool, j: nat, k: nat, pin: Pin)
    requires j < k <= |es|
  {
    && DecidedAt(r, es, hostOk, j) && es[j].decision.Approve? && es[j].confirmed == Some(pin)
    && (forall i :: j < i < k ==> !EndsApproval(r, es, hostOk, i))
  }

  lemma PinStep(r: RunRow, es: seq<Event>, hostOk: string -> bool, k: nat)
    requires k < |es| && At(r, es, hostOk, k + 1).pin.Some?
    ensures if DecidedAt(r, es, hostOk, k) then
              es[k].decision.Approve? && es[k].confirmed == At(r, es, hostOk, k + 1).pin
            else At(r, es, hostOk, k + 1).pin == At(r, es, hostOk, k).pin && !EndsApproval(r, es, hostOk, k)
  {
    AtNext(r, es, hostOk, k);
  }

  lemma AtStart(r: RunRow, es: seq<Event>, hostOk: string -> bool)
    ensures At(r, es, hostOk, 0) == r
  {
    assert es[..0] == [];
  }

  /** A pin on the row is always the target confirmed by a standing approval. */
  lemma {:induction false} PinComesFromApproval(r: RunRow, es: seq<Event>, hostOk: string -> bool, k: nat)
    returns (j: nat)
    requires k <= |es| && r.pin.None?
    requires At(r, es, hostOk, k).pin.Some?
    ensures j < k && StandingApproval(r, es, hostOk, j, k, At(r, es, hostOk, k).pin.value)
  {
    hide Step, DecidedAt, EndsApproval;
    AtStart(r, es, hostOk);
    PinStep(r, es, hostOk, k - 1);
    if DecidedAt(r, es, hostOk, k - 1) {
      j := k - 1;
    } else {
      j := PinComesFromApproval(r, es, hostOk, k - 1);
    }
  }

  /** Event k is a write that WordPress accepted. */
  predicate PushAt(r: RunRow, es: seq<Event>, hostOk: string -> bool, k: nat)
    requires k < |es|
  {
    es[k].PublishNow? && es[k].result.Pushed? && WriteAt(r, es, hostOk, k).Some?
  }

  /** Event j is the latest such write before k. */
  predicate LatestPush(r: RunRow, es: seq<Event>, hostOk: string -> bool, j: nat, k: nat)
    requires j < k <= |es|
  {
    PushAt(r, es, hostOk, j) && forall i :: j < i < k ==> !PushAt(r, es, hostOk, i)
  }

  lemma PushNext(r: RunRow, es: seq<Event>, hostOk: string -> bool, k: nat)
    requires k < |es|
    ensures At(r, es, hostOk, k + 1).pushed
            == if PushAt(r, es, hostOk, k) then Some(es[k].result.id) else At(r, es, hostOk, k).pushed
  {
    AtNext(r, es, hostOk, k);
  }

  /** Once set, the pushed id is the one the latest successful write of this run returned. */
  lemma {:induction false} PushedComesFromWrite(r: RunRow, es: seq<Event>, hostOk: string -> bool, k: nat)
    returns (j: nat)
    requires k <= |es| && r.pushed.None?
    requires At(r, es, hostOk, k).pushed.Some?
    ensures j < k && LatestPush(r, es, hostOk, j, k) && At(r, es, hostOk, k).pushed == Some(es[j].result.id)
  {
    hide At, PushAt;
    AtStart(r, es, hostOk);
    PushNext(r, es, hostOk, k - 1);
    if PushAt(r, es, hostOk, k - 1) {
      j := k - 1;
    } else {
      j := PushedComesFromWrite(r, es, hostOk, k - 1);
    }
    IsPush(r, es, hostOk, j);
  }

  lemma IsPush(r: RunRow, es: seq<Event>, hostOk: string -> bool, j: nat)
    requires j < |es| && PushAt(r, es, hostOk, j)
    ensures es[j].PublishNow? && es[j].result.Pushed?
  {
  }

  lemma {:induction false} ModeIsFixed(r: RunRow, es: seq<Event>, hostOk: string -> bool, k: nat)
    requires k <= |es|
    ensures At(r, es, hostOk, k).mode == r.mode
  {
    if k > 0 {
      AtNext(r, es, hostOk, k - 1);
      ModeIsFixed(r, es, hostOk, k - 1);
    }
  }

  /** Every write of a refresh run, in any interleaving of decisions, slug edits,
      retargetings, refetches and publish attempts: before the first push it goes
      to the post, and is checked against the label, that the standing
      approval confirmed; afterwards it goes to the post of the latest push or
      asks for a new one. */
  lemma RefreshWritesArePinned(r: RunRow, es: seq<Event>, hostOk: string -> bool, k: nat) returns (j: nat)
    requires r.mode.RefreshMode? && r.pin.None? && r.pushed.None?
    requires k < |es| && WriteAt(r, es, hostOk, k).Some?
    ensures j < k
    ensures var w, row := WriteAt(r, es, hostOk, k).value, At(r, es, hostOk, k);
            if row.pushed.None? then
              row.voiceTarget.Some? &&
              StandingApproval(r, es, hostOk, j, k, Pin("wordpress", w.postId, row.voiceTarget.value))
            else
              LatestPush(r, es, hostOk, j, k) && w.postId in {Some(es[j].result.id), None}
  {
    ModeIsFixed(r, es, hostOk, k);
    if At(r, es, hostOk, k).pushed.None? {
      j := PinComesFromApproval(r, es, hostOk, k);
    } else {
      j := PushedComesFromWrite(r, es, hostOk, k);
    }
  }

  /** A mismatch writes nothing and takes the approval away. */
  lemma MismatchVoids(r: RunRow, es: seq<Event>, hostOk: string -> bool, k: nat)
    requires k < |es| && MismatchAt(r, es, hostOk, k)
    ensures WriteAt(r, es, hostOk, k).None? && !DecidedAt(r, es, hostOk, k)
    ensures At(r, es, hostOk, k + 1) == At(r, es, hostOk, k).(decision := None, pin := None)
  {
    AtNext(r, es, hostOk, k);
  }

  /** And no first write follows it until the gate has approved again. */
  lemma MismatchNeedsNewApproval(r: RunRow, es: seq<Event>, hostOk: string -> bool, k: nat, m: nat) returns (j: nat)
    requires r.mode.RefreshMode? && r.pin.None? && r.pushed.None?
    requires k < m < |es| && MismatchAt(r, es, hostOk, k)
    requires WriteAt(r, es, hostOk, m).Some? && At(r, es, hostOk, m).pushed.None?
    ensures k < j < m && DecidedAt(r, es, hostOk, j) && es[j].decision.Approve?
  {
    MismatchVoids(r, es, hostOk, k);
    assert EndsApproval(r, es, hostOk, k);
    j := RefreshWritesArePinned(r, es, hostOk, m);
  }

  /** What a create run's write asks for: the pushed post, or a new one before any push. */
  lemma CreateWriteId(r: RunRow, es: seq<Event>, hostOk: string -> bool, k: nat)
    requires r.mode.CreateMode? && k < |es| && WriteAt(r, es, hostOk, k).Some?
    ensures WriteAt(r, es, hostOk, k).value.postId == At(r, es, hostOk, k).pushed
  {
    ModeIsFixed(r, es, hostOk, k);
  }

  /** A create run asks for a new post exactly until its first push; from then on
      every write goes to the post of the latest push. */
  lemma CreateRunReusesItsPost(r: RunRow, es: seq<Event>, hostOk: string -> bool, k: nat) returns (j: nat)
    requires r.mode.CreateMode? && r.pushed.None?
    requires k < |es| && WriteAt(r, es, hostOk, k).Some?
    ensures WriteAt(r, es, hostOk, k).value.postId.None? <==> forall i :: 0 <= i < k ==> !PushAt(r, es, hostOk, i)
    ensures WriteAt(r, es, hostOk, k).value.postId.Some? ==>
              && j < k && LatestPush(r, es, hostOk, j, k)
              && WriteAt(r, es, hostOk, k).value.postId == Some(es[j].result.id)
  {
    hide At, WriteAt, PushAt;
    CreateWriteId(r, es, hostOk, k);
    j := 0;
    if At(r, es, hostOk, k).pushed.Some? {
      j := PushedComesFromWrite(r, es, hostOk, k);
    } else {
      forall i | 0 <= i < k
        ensures !PushAt(r, es, hostOk, i)
      {
        if PushAt(r, es, hostOk, i) {
          PushNext(r, es, hostOk, i);
          PushedStays(r, es, hostOk, i + 1, k);
        }
      }
    }
  }

  lemma {:induction false} PushedStays(r: RunRow, es: seq<Event>, hostOk: string -> bool, i: nat, k: nat)
    requires i <= k <= |es| && At(r, es, hostOk, i).pushed.Some?
    ensures At(r, es, hostOk, k).pushed.Some?
  {
    hide At, PushAt;
    if i < k {
      PushedStays(r, es, hostOk, i, k - 1);
      PushNext(r, es, hostOk, k - 1);
    }
  }

  // ---------------------------------------------- what each step leaves behind

  /** A decision that is taken is on the row, with the slug it came with, and only an
      approval of a refresh leaves a pin; one that is refused changes nothing. */
  lemma GateRecords(r: RunRow, d: Decision, confirmed: Option<Pin>, slug: Option<string>, hostOk: string -> bool)
    ensures var (r', a) := GateStep(r, d, confirmed, slug, hostOk);
            && (!a.Accepted? ==> r' == r)
            && (a.Accepted? ==>
                  && r'.decision == Some(d) && r'.slug == slug
                  && r'.pin == (if d.Approve? && r.mode.RefreshMode? then confirmed else None)
                  && r'.rounds == r.rounds + (if d.RequestChanges? then 1 else 0)
                  && r' == r.(decision := r'.decision, slug := r'.slug, pin := r'.pin, rounds := r'.rounds))
  {
  }

  /**
    An approval of a refresh is accepted exactly when it names the write that publishing
    at once would make: the post and the instance, with the slug it is about to store.
    Other decisions are accepted unless they ask for changes at the cap.
  */
  lemma ApprovalNamesTheWrite(r: RunRow, d: Decision, confirmed: Option<Pin>, slug: Option<string>, result: PushResult,
                              hostOk: string -> bool)
    ensures var accepted := GateStep(r, d, confirmed, slug, hostOk).1.Accepted?;
            var next := PublishStep(r.(slug := slug, pin := confirmed, client := r.voiceTarget), result, hostOk).2;
            if d.Approve? && r.mode.RefreshMode? then
              accepted <==>
                && confirmed.Some? && confirmed.value.kind == "wordpress"
                && next == Some(Write(confirmed.value.postId, confirmed.value.targetLabel))
            else accepted <==> !(d.RequestChanges? && r.rounds >= 3)
  {
  }

  /** In any run an accepted approval of a refresh that is published at once writes to the
      post it confirmed, through the instance it confirmed. */
  lemma ApprovedIsPublished(r: RunRow, es: seq<Event>, hostOk: string -> bool, k: nat)
    requires r.mode.RefreshMode? && k + 2 < |es|
    requires DecidedAt(r, es, hostOk, k) && es[k].decision.Approve?
    requires es[k + 1].TakeClient? && es[k + 2].PublishNow?
    ensures es[k].confirmed.Some?
    ensures WriteAt(r, es, hostOk, k + 2)
            == Some(Write(es[k].confirmed.value.postId, es[k].confirmed.value.targetLabel))
  {
    hide At;
    ModeIsFixed(r, es, hostOk, k);
    AtNext(r, es, hostOk, k);
    AtNext(r, es, hostOk, k + 1);
    var s := At(r, es, hostOk, k);
    var e := es[k];
    GateRecords(s, e.decision, e.confirmed, e.slug, hostOk);
    ApprovalNamesTheWrite(s, e.decision, e.confirmed, e.slug, es[k + 2].result, hostOk);
  }

  /** A write is recorded by its result: the new id, the published state and, for a create
      run, the link; or the failure alone. */
  lemma PublishRecords(r: RunRow, result: PushResult, hostOk: string -> bool)
    ensures var (r', a, w) := PublishStep(r, result, hostOk);
            && (w.None? && !a.TargetMismatch? ==> r' == r && (a.NoClient? || a.TargetUnresolved?))
            && (a.TargetMismatch? ==> w.None? && r' == r.(decision := None, pin := None))
            && (w.Some? && result.Pushed? ==>
                  && a.PushOk? && r'.pushed == Some(result.id) && r'.status.Published?
                  && r'.articleUrl == (if r.mode.CreateMode? then Some(result.link) else r.articleUrl)
                  && r' == r.(pushed := r'.pushed, status := r'.status, articleUrl := r'.articleUrl))
            && (w.Some? && result.PushFailed? ==> a.PushError? && r' == r.(status := Failed(result.code)))
  {
  }

  /** A first write of a refresh fails for its target exactly when the pin is not the write
      it would make. */
  lemma MismatchExactly(r: RunRow, result: PushResult, hostOk: string -> bool)
    requires r.mode.RefreshMode? && r.pushed.None? && r.client.Some? && r.voiceTarget.Some?
    ensures var id := ResolvePostIdForSlug(r.fetched, r.articleUrl, r.slug, hostOk);
            PublishStep(r, result, hostOk).1.TargetMismatch? <==>
            !(r.pin.Some? && r.pin.value.kind == "wordpress" && r.pin.value.postId == id
              && r.pin.value.targetLabel == r.voiceTarget.value)
  {
  }

  /** What a re-push of a refresh asks for: the post pushed before, unless the slug on the
      row now names another than the article's address; no pin is looked at. */
  lemma RepushTarget(r: RunRow, result: PushResult, hostOk: string -> bool)
    requires r.mode.RefreshMode? && r.pushed.Some? && r.client.Some?
    ensures PublishStep(r, result, hostOk).2
            == Some(Write(ResolvePostIdForSlug(r.pushed, r.articleUrl, r.slug, hostOk), r.client.value))
  {
  }

  // --------------------------------- the label that is checked, the client used

  /** Where the voice points just before event k: the last retargeting decides. */
  function VoiceAt(r: RunRow, es: seq<Event>, k: nat): Option<string>
    requires k <= |es|
  {
    if k == 0 then r.voiceTarget
    else if es[k - 1].Retarget? then es[k - 1].target
    else VoiceAt(r, es, k - 1)
  }

  /** Event t is the latest before k at which the executor took its client. */
  predicate LatestTake(es: seq<Event>, t: nat, k: nat)
    requires t < k <= |es|
  {
    es[t].TakeClient? && forall i :: t < i < k ==> !es[i].TakeClient?
  }

  lemma {:induction false} VoiceIsLastRetarget(r: RunRow, es: seq<Event>, hostOk: string -> bool, k: nat)
    requires k <= |es|
    ensures At(r, es, hostOk, k).voiceTarget == VoiceAt(r, es, k)
  {
    if k == 0 {
      AtStart(r, es, hostOk);
    } else {
      VoiceIsLastRetarget(r, es, hostOk, k - 1);
      AtNext(r, es, hostOk, k - 1);
    }
  }

  lemma ClientNext(r: RunRow, es: seq<Event>, hostOk: string -> bool, k: nat)
    requires k < |es|
    ensures At(r, es, hostOk, k + 1).client
            == if es[k].TakeClient? then VoiceAt(r, es, k) else At(r, es, hostOk, k).client
  {
    VoiceIsLastRetarget(r, es, hostOk, k);
    AtNext(r, es, hostOk, k);
  }

  lemma {:induction false} ClientIsLastTaken(r: RunRow, es: seq<Event>, hostOk: string -> bool, k: nat) returns (t: nat)
    requires k <= |es| && r.client.None? && At(r, es, hostOk, k).client.Some?
    ensures t < k && LatestTake(es, t, k) && At(r, es, hostOk, k).client == VoiceAt(r, es, t)
  {
    hide At, VoiceAt;
    AtStart(r, es, hostOk);
    ClientNext(r, es, hostOk, k - 1);
    if es[k - 1].TakeClient? {
      t := k - 1;
    } else {
      t := ClientIsLastTaken(r, es, hostOk, k - 1);
    }
  }

  lemma WriteUsesClient(r: RunRow, es: seq<Event>, hostOk: string -> bool, k: nat)
    requires k < |es| && WriteAt(r, es, hostOk, k).Some?
    ensures At(r, es, hostOk, k).client == Some(WriteAt(r, es, hostOk, k).value.through)
  {
  }

  lemma {:induction false} VoiceUnchanged(r: RunRow, es: seq<Event>, t: nat, k: nat)
    requires t <= k <= |es| && forall i :: t <= i < k ==> !es[i].Retarget?
    ensures VoiceAt(r, es, k) == VoiceAt(r, es, t)
  {
    if t < k {
      VoiceUnchanged(r, es, t, k - 1);
    }
  }

  /** In any run, the first write of a refresh goes through the instance whose label
      the standing approval confirmed if and only if the voice pointed, when the
      client was last taken, where it points at the write. Without a retargeting in
      between it does; so the runs that fail are those whose last retargeting between
      the two leaves the voice at another instance than the client's. */
  lemma ThroughApprovedInstance(r: RunRow, es: seq<Event>, hostOk: string -> bool, k: nat) returns (t: nat, j: nat)
    requires r.mode.RefreshMode? && r.pin.None? && r.pushed.None? && r.client.None?
    requires k < |es| && WriteAt(r, es, hostOk, k).Some? && At(r, es, hostOk, k).pushed.None?
    ensures t < k && LatestTake(es, t, k)
    ensures j < k && VoiceAt(r, es, k).Some?
    ensures var w, named := WriteAt(r, es, hostOk, k).value, VoiceAt(r, es, k).value;
            && StandingApproval(r, es, hostOk, j, k, Pin("wordpress", w.postId, named))
            && (w.through == named <==> VoiceAt(r, es, t) == VoiceAt(r, es, k))
            && ((forall i :: t < i < k ==> !es[i].Retarget?) ==> w.through == named)
  {
    hide At, WriteAt, VoiceAt, StandingApproval;
    j := RefreshWritesArePinned(r, es, hostOk, k);
    VoiceIsLastRetarget(r, es, hostOk, k);
    WriteUsesClient(r, es, hostOk, k);
    t := ClientIsLastTaken(r, es, hostOk, k);
    if forall i :: t < i < k ==> !es[i].Retarget? {
      VoiceUnchanged(r, es, t, k);
    }
  }

  /** A run in which they differ: the voice points to `b` just while the executor
      takes its client, and the write goes through `b` under an approval for `a`. */
  lemma WrongInstanceRun(a: string, b: string, id: PostId, newId: PostId, hostOk: string -> bool)
    requires a != b
    ensures var r := RunRow(RefreshMode, None, None, Some(id), None, None, 0, None, Gated, Some(a), None);
            var es := [Gate(Approve, Some(Pin("wordpress", Some(id), a)), None), Retarget(Some(b)), TakeClient,
                       Retarget(Some(a)), PublishNow(Pushed(newId, ""))];
            WriteAt(r, es, hostOk, 4) == Some(Write(Some(id), b))
  {
    var r := RunRow(RefreshMode, None, None, Some(id), None, None, 0, None, Gated, Some(a), None);
    var pin := Pin("wordpress", Some(id), a);
    var es := [Gate(Approve, Some(pin), None), Retarget(Some(b)), TakeClient,
               Retarget(Some(a)), PublishNow(Pushed(newId, ""))];
    assert At(r, es, hostOk, 0) == r;
    AtNext(r, es, hostOk, 0);
    AtNext(r, es, hostOk, 1);
    AtNext(r, es, hostOk, 2);
    AtNext(r, es, hostOk, 3);
    assert ResolvedId(r, None, hostOk) == Some(id);
    assert At(r, es, hostOk, 1) == r.(decision := Some(Approve), pin := Some(pin));
    assert At(r, es, hostOk, 3).client == Some(b);
  }
}
