/**
  A run's way through the gates (content_tool/graph/root.py,
  content_tool/graph/production.py, content_tool/api/sse.py, and the routes of
  content_tool/api/routes/runs.py that resume, restart, rewrite or publish it).

  Between two requests the executor drives the graph until it pauses before
  `production` (HITL_1) or `publish_or_revise` (HITL_2), ends, or publishing
  raises. Two routes work beside the graph: one calls the writer on a finished
  run, one publishes the latest draft.
*/
module Lifecycle {
  import opened Wrappers

  const MAX_ITERATIONS := 2
  const MAX_HITL2_ROUNDS := 3

  datatype Decision = Approve | Reject | RequestChanges

  /** Where the graph stands between drives. */
  datatype Pause = BeforeProduction | BeforePublish | Ended

  /** The `status` the graph keeps, as far as the executor looks at it. */
  datatype GraphStatus = Working | Shipped | Unshipped | TurnedDown | CapReached

  datatype Checkpoint = Checkpoint(next: Pause, iteration: nat, decision: Option<Decision>,
                                   rounds: nat, status: GraphStatus)

  /** The row's `status` between two requests. */
  datatype RowStatus = AtHitl1 | AtHitl2 | Publishing | Published | Rejected | ChangesRequested | Failed

  /** The checkpoint, and beside it the row: its own round counter, its auto-accept
      flag, its status, and the highest iteration among its drafts. */
  datatype State = State(cp: Checkpoint, rowRounds: nat, autoAccept: bool, status: RowStatus, draft: Option<nat>)

  datatype PublishResult = Done | WpError | Mismatch

  /** What the models and WordPress will do while one request is served: whether
      the audit of the draft with that iteration passes, whether there is a client,
      how publishing ends, and whether an approval confirms the target that the gate
      works out for itself (a create run's always does; see `Publish.GateStep`). */
  datatype World = World(audits: nat -> bool, hasClient: bool, publish: PublishResult, confirms: bool)

  datatype Request =
    | Resume                          // POST /resume, the outline gate's route
    | Gate(decision: Decision)        // POST /hitl-2
    | Regenerate                      // POST /regenerate
    | Republish                       // POST /republish
    | Restart                         // POST /restart

  datatype Action =
    | Strategy                        // a leg begins
    | AutoApproved
    | EnterProduction
    | EnterRevision
    | Regenerated
    | Wrote(iteration: nat)
    | Audited(iteration: nat, pass: bool)
    | PublishCall(draft: Option<nat>)     // with the latest draft on the row

  // ------------------------------------------------------ the production loop

  function Pass(i: nat, audits: nat -> bool): (log: seq<Action>)
    requires i < MAX_ITERATIONS
    decreases MAX_ITERATIONS - i
  {
    [Wrote(i), Audited(i, audits(i))] +
    (if audits(i) || i >= MAX_ITERATIONS - 1 then [] else Pass(i + 1, audits))
  }

  function LastIteration(i: nat, audits: nat -> bool): (last: nat)
    requires i < MAX_ITERATIONS
    decreases MAX_ITERATIONS - i
  {
    if audits(i) || i >= MAX_ITERATIONS - 1 then i else LastIteration(i + 1, audits)
  }

  /** The writer/audit loop of one pass. */
  method RunProduction(start: nat, audits: nat -> bool) returns (log: seq<Action>, iteration: nat)
    requires start < MAX_ITERATIONS
    ensures log == Pass(start, audits) && iteration == LastIteration(start, audits)
  {
    iteration := start;
    log := [Wrote(iteration), Audited(iteration, audits(iteration))];
    while !audits(iteration) && iteration < MAX_ITERATIONS - 1
      invariant start <= iteration < MAX_ITERATIONS
      invariant log + (if audits(iteration) || iteration >= MAX_ITERATIONS - 1 then [] else Pass(iteration + 1, audits))
                == Pass(start, audits)
      invariant LastIteration(iteration, audits) == LastIteration(start, audits)
      decreases MAX_ITERATIONS - iteration
    {
      iteration := iteration + 1;
      log := log + [Wrote(iteration), Audited(iteration, audits(iteration))];
    }
  }

  lemma {:induction false} LastIterationBounded(i: nat, audits: nat -> bool)
    requires i < MAX_ITERATIONS
    ensures i <= LastIteration(i, audits) < MAX_ITERATIONS
    decreases MAX_ITERATIONS - i
  {
    if !audits(i) && i < MAX_ITERATIONS - 1 {
      LastIterationBounded(i + 1, audits);
    }
  }

  // ------------------------------------------------------------- one drive

  /** Drafts stay on the row; the latest is the one with the highest iteration. */
  function Drafted(draft: Option<nat>, i: nat): Option<nat> {
    if draft.Some? && draft.value > i then draft else Some(i)
  }

  /** Run production, then stop before publish_or_revise. */
  function DriveProduction(s: State, entry: Action, w: World): (State, seq<Action>)
    requires s.cp.iteration < MAX_ITERATIONS
  {
    var last := LastIteration(s.cp.iteration, w.audits);
    (s.(cp := s.cp.(next := BeforePublish, iteration := last), status := AtHitl2, draft := Drafted(s.draft, last)),
     [entry] + Pass(s.cp.iteration, w.audits))
  }

  function End(s: State, graph: GraphStatus, row: RowStatus): State {
    s.(cp := s.cp.(next := Ended, status := graph), status := row)
  }

  function PublishOrRevise(s: State, w: World): (State, seq<Action>) {
    if s.cp.decision == Some(Approve) then
      if !w.hasClient then (End(s, Unshipped, Publishing), [])
      else if w.publish.Done? then (End(s, Shipped, Published), [PublishCall(s.draft)])
      else (s.(status := Failed), [PublishCall(s.draft)])            // the node raises: the graph stays where it was
    else if s.cp.decision == Some(Reject) then (End(s, TurnedDown, Rejected), [])
    else if s.cp.rounds >= MAX_HITL2_ROUNDS then (End(s, CapReached, ChangesRequested), [])
    else DriveProduction(s.(cp := s.cp.(iteration := 0, status := Working)), EnterRevision, w)
  }

  /** Of an ended graph the executor mirrors only these two outcomes. */
  function Mirrored(s: State): State {
    match s.cp.status
    case TurnedDown => s.(status := Rejected)
    case CapReached => s.(status := ChangesRequested)
    case _ => s
  }

  function Drive(s: State, w: World): (State, seq<Action>)
    requires s.cp.iteration < MAX_ITERATIONS
  {
    match s.cp.next
    case BeforeProduction => DriveProduction(s, EnterProduction, w)
    case BeforePublish => PublishOrRevise(s, w)
    case Ended => (Mirrored(s), [])
  }

  /** The first drive of a leg: strategy, then the outline gate, passed at once when
      the run accepts outlines automatically. */
  function Start(autoAccept: bool, rowRounds: nat, w: World): (State, seq<Action>) {
    var s := State(Checkpoint(BeforeProduction, 0, None, 0, Working), rowRounds, autoAccept, AtHitl1, None);
    if autoAccept then
      var (s', log) := DriveProduction(s, EnterProduction, w);
      (s', [Strategy, AutoApproved] + log)
    else (s, [Strategy])
  }

  /** The gate takes a decision unless it is an approval of another target or a
      request for changes beyond the limit. */
  predicate Taken(s: State, r: Request, w: World) {
    && r.Gate?
    && (r.decision.Approve? ==> w.confirms)
    && (r.decision.RequestChanges? ==> s.rowRounds < MAX_HITL2_ROUNDS)
  }

  /** The decision recorded in row and checkpoint. */
  function Decide(s: State, d: Decision): State {
    var rounds := if d.RequestChanges? then s.rowRounds + 1 else s.rowRounds;
    s.(rowRounds := rounds,
       cp := s.cp.(decision := Some(d), rounds := rounds, status := if d.Reject? then TurnedDown else s.cp.status))
  }

  /** The requests that drive the graph, and the state they drive it from. */
  predicate Drives(s: State, r: Request, w: World) {
    r.Resume? || Taken(s, r, w)
  }

  function Recorded(s: State, r: Request, w: World): State {
    if Taken(s, r, w) then Decide(s, r.decision) else s
  }

  /** Not in flight, not at a gate, and something to rewrite. */
  predicate Regenerable(s: State) {
    s.draft.Some? && !s.status.AtHitl1? && !s.status.AtHitl2?
  }

  predicate Republishable(s: State, w: World) {
    w.hasClient && s.draft.Some?
  }

  /** One request, refused ones included. */
  function Handle(s: State, r: Request, w: World): (State, seq<Action>)
    requires s.cp.iteration < MAX_ITERATIONS
  {
    match r
    case Resume => Drive(s, w)
    case Gate(d) =>
      if Taken(s, r, w) then Drive(Decide(s, d), w) else (s, [])                 // 409
    case Regenerate =>
      if !Regenerable(s) then (s, [])
      else
        var i := s.draft.value + 1;
        (s.(rowRounds := s.rowRounds + 1, draft := Some(i)), [Regenerated, Wrote(i), Audited(i, w.audits(i))])
    case Republish =>
      if !Republishable(s, w) then (s, [])
      else
        var status := if w.publish.Done? then Published else if w.publish.WpError? then Failed else s.status;
        (s.(status := status), [PublishCall(s.draft)])
    case Restart =>
      if s.status.Failed? then Start(s.autoAccept, s.rowRounds, w) else (s, [])
  }

  // ------------------------------------------------------------- whole runs

  /** A run: its flag, the row's counter when it starts, and the requests with
      what the world does while each of them is served. */
  datatype History = History(autoAccept: bool, rowRounds: nat, first: World, steps: seq<(Request, World)>)

  lemma HandleKeepsIteration(s: State, r: Request, w: World)
    requires s.cp.iteration < MAX_ITERATIONS
    ensures Handle(s, r, w).0.cp.iteration < MAX_ITERATIONS
  {
    LastIterationBounded(0, w.audits);
    LastIterationBounded(s.cp.iteration, w.audits);
  }

  function StateAt(h: History, k: nat): (s: State)
    requires k <= |h.steps|
    ensures s.cp.iteration < MAX_ITERATIONS
  {
    LastIterationBounded(0, h.first.audits);
    if k == 0 then Start(h.autoAccept, h.rowRounds, h.first).0
    else
      var (r, w) := h.steps[k - 1];
      HandleKeepsIteration(StateAt(h, k - 1), r, w);
      Handle(StateAt(h, k - 1), r, w).0
  }

  function ActionsAt(h: History, k: nat): seq<Action>
    requires k < |h.steps|
  {
    Handle(StateAt(h, k), h.steps[k].0, h.steps[k].1).1
  }

  lemma StateNext(h: History, k: nat)
    requires k < |h.steps|
    ensures StateAt(h, k + 1) == Handle(StateAt(h, k), h.steps[k].0, h.steps[k].1).0
  {
  }

  /** There is a draft exactly when production has been entered, and only then can
      the run have failed. */
  predicate DraftExactly(s: State) {
    (s.draft.Some? <==> !s.cp.next.BeforeProduction?) && (s.status.Failed? ==> s.draft.Some?)
  }

  lemma {:induction false} DraftsFollowProduction(h: History, k: nat)
    requires k <= |h.steps|
    ensures DraftExactly(StateAt(h, k))
  {
    if k > 0 {
      DraftsFollowProduction(h, k - 1);
      HandleKeepsDrafts(StateAt(h, k - 1), h.steps[k - 1].0, h.steps[k - 1].1);
    }
  }

  lemma HandleKeepsDrafts(s: State, r: Request, w: World)
    requires s.cp.iteration < MAX_ITERATIONS && DraftExactly(s)
    ensures DraftExactly(Handle(s, r, w).0)
  {
    hide Pass, LastIteration;
  }

  // --------------------------------------------------------- gate safety

  predicate NoPublish(log: seq<Action>) {
    forall i :: 0 <= i < |log| ==> !log[i].PublishCall?
  }

  lemma {:induction false} PassPublishesNothing(i: nat, audits: nat -> bool)
    requires i < MAX_ITERATIONS
    ensures NoPublish(Pass(i, audits))
    decreases MAX_ITERATIONS - i
  {
    if !audits(i) && i < MAX_ITERATIONS - 1 {
      PassPublishesNothing(i + 1, audits);
    }
  }

  /** A drive publishes exactly when it begins before publish_or_revise with an
      approval in the checkpoint and a client at hand. */
  lemma DrivePublishesExactly(s: State, w: World)
    requires s.cp.iteration < MAX_ITERATIONS
    ensures !NoPublish(Drive(s, w).1) <==>
            s.cp.next.BeforePublish? && s.cp.decision == Some(Approve) && w.hasClient
  {
    PassPublishesNothing(s.cp.iteration, w.audits);
    PassPublishesNothing(0, w.audits);
    if s.cp.next.BeforePublish? && s.cp.decision == Some(Approve) && w.hasClient {
      assert Drive(s, w).1[0].PublishCall?;
    }
  }

  /** Any request publishes exactly when it is a republish of an existing draft with
      a client at hand, or it drives the graph as above. */
  lemma RequestPublishesExactly(s: State, r: Request, w: World)
    requires s.cp.iteration < MAX_ITERATIONS
    ensures !NoPublish(Handle(s, r, w).1) <==>
            (r.Republish? && Republishable(s, w))
            || (Drives(s, r, w) && s.cp.next.BeforePublish? && w.hasClient
                && Recorded(s, r, w).cp.decision == Some(Approve))
  {
    match r
    case Resume => DrivePublishesExactly(s, w);
    case Gate(d) =>
      if Taken(s, r, w) {
        DrivePublishesExactly(Decide(s, d), w);
      }
    case Restart =>
      PassPublishesNothing(0, w.audits);
    case Republish =>
      assert [PublishCall(s.draft)][0].PublishCall?;
    case Regenerate =>
  }

  /** Request k is a decision that the gate took. */
  predicate TakenAt(h: History, k: nat)
    requires k < |h.steps|
  {
    Taken(StateAt(h, k), h.steps[k].0, h.steps[k].1)
  }

  /** Request k begins a new leg. */
  predicate RestartedAt(h: History, k: nat)
    requires k < |h.steps|
  {
    h.steps[k].0.Restart? && StateAt(h, k).status.Failed?
  }

  lemma DecisionNext(h: History, k: nat)
    requires k < |h.steps|
    ensures StateAt(h, k + 1).cp.decision
            == if RestartedAt(h, k) then None
               else if TakenAt(h, k) then Some(h.steps[k].0.decision) else StateAt(h, k).cp.decision
  {
    StateNext(h, k);
    HandleDecision(StateAt(h, k), h.steps[k].0, h.steps[k].1);
  }

  lemma StartUndecided(h: History)
    ensures StateAt(h, 0).cp.decision.None?
  {
  }

  lemma HandleDecision(s: State, r: Request, w: World)
    requires s.cp.iteration < MAX_ITERATIONS
    ensures Handle(s, r, w).0.cp.decision
            == if r.Restart? && s.status.Failed? then None else Recorded(s, r, w).cp.decision
  {
  }

  lemma {:induction false} DecisionIsLastTaken(h: History, k: nat) returns (j: nat)
    requires k <= |h.steps| && StateAt(h, k).cp.decision.Some?
    ensures j < k && h.steps[j].0 == Gate(StateAt(h, k).cp.decision.value) && TakenAt(h, j)
    ensures forall i :: j < i < k ==> !TakenAt(h, i) && !RestartedAt(h, i)
  {
    hide Handle, Start;
    StartUndecided(h);
    DecisionNext(h, k - 1);
    if TakenAt(h, k - 1) {
      j := k - 1;
    } else {
      j := DecisionIsLastTaken(h, k - 1);
    }
  }

  /** Whatever requests come, the graph publishes only when it stands before
      publish_or_revise and the latest decision taken in this leg, by this or an
      earlier request, is an approval. What else publishes is the republish route. */
  lemma PublishNeedsApproval(h: History, k: nat) returns (j: nat)
    requires k < |h.steps| && !NoPublish(ActionsAt(h, k)) && !h.steps[k].0.Republish?
    ensures StateAt(h, k).cp.next.BeforePublish? && h.steps[k].1.hasClient
    ensures j <= k && h.steps[j].0 == Gate(Approve) && TakenAt(h, j)
    ensures forall i :: j < i <= k ==> !TakenAt(h, i) && !RestartedAt(h, i)
  {
    RequestPublishesExactly(StateAt(h, k), h.steps[k].0, h.steps[k].1);
    if TakenAt(h, k) {
      j := k;
    } else {
      j := DecisionIsLastTaken(h, k);
    }
  }

  /** The republish route asks no gate: a run that waits at the second gate, no
      decision ever taken, is published by it. */
  lemma RepublishSkipsTheGate(w: World)
    requires w.hasClient
    ensures var h := History(true, 0, w, [(Republish, w)]);
            StateAt(h, 0).cp.next.BeforePublish? && StateAt(h, 0).cp.decision.None? && !NoPublish(ActionsAt(h, 0))
  {
    var h := History(true, 0, w, [(Republish, w)]);
    RequestPublishesExactly(StateAt(h, 0), Republish, w);
  }

  /** Each gate is answered through its own route; the other routes may come any time. */
  predicate AtOwnGate(s: State, r: Request) {
    && (r.Resume? ==> s.cp.next.BeforeProduction?)
    && (r.Gate? ==> s.cp.next.BeforePublish?)
  }

  predicate Disciplined(h: History) {
    forall k :: 0 <= k < |h.steps| ==> AtOwnGate(StateAt(h, k), h.steps[k].0)
  }

  /** Used so, publishing is exactly the answer to an approval that confirms its
      target or a republish after production was entered, when there is a client. */
  lemma DisciplinedPublishesOnApproval(h: History, k: nat)
    requires Disciplined(h) && k < |h.steps|
    ensures !NoPublish(ActionsAt(h, k)) <==>
            && h.steps[k].1.hasClient
            && ((h.steps[k].0 == Gate(Approve) && h.steps[k].1.confirms)
                || (h.steps[k].0.Republish? && !StateAt(h, k).cp.next.BeforeProduction?))
  {
    var s, r, w := StateAt(h, k), h.steps[k].0, h.steps[k].1;
    assert AtOwnGate(s, r);
    DraftsFollowProduction(h, k);
    RequestPublishesExactly(s, r, w);
  }

  /** Undisciplined, the graph can publish without a new approval: after an approval
      whose publish raised, the outline route publishes again. */
  lemma ResumeRepublishes(w: World)
    requires w.hasClient && w.confirms
    ensures var h := History(true, 0, w, [(Gate(Approve), w.(publish := WpError)), (Resume, w)]);
            !NoPublish(ActionsAt(h, 1)) && h.steps[1].0 == Resume
  {
    var h := History(true, 0, w, [(Gate(Approve), w.(publish := WpError)), (Resume, w)]);
    var s0, s1 := StateAt(h, 0), StateAt(h, 1);
    assert s0.cp.next.BeforePublish?;
    assert s1.cp.next.BeforePublish? && s1.cp.decision == Some(Approve);
    DrivePublishesExactly(s1, w);
  }

  // ------------------------------------------------ the draft that is published

  /** The iteration audited last in the present leg, `before` being that of what
      came before `log`. */
  function LastAudited(before: Option<nat>, log: seq<Action>): Option<nat> {
    if log == [] then before
    else match log[|log| - 1]
      case Audited(i, _) => Some(i)
      case Strategy => None
      case _ => LastAudited(before, log[..|log| - 1])
  }

  lemma {:induction false} LastAuditedConcat(before: Option<nat>, a: seq<Action>, b: seq<Action>)
    ensures LastAudited(before, a + b) == LastAudited(LastAudited(before, a), b)
  {
    if b == [] {
      assert a + b == a;
    } else {
      assert (a + b)[..|a + b| - 1] == a + b[..|b| - 1];
      LastAuditedConcat(before, a, b[..|b| - 1]);
    }
  }

  lemma PassAudits(before: Option<nat>, front: seq<Action>, i: nat, audits: nat -> bool)
    requires i < MAX_ITERATIONS
    ensures LastAudited(before, front + Pass(i, audits)) == Some(LastIteration(i, audits))
  {
    PassWrites(i, audits);
  }

  /** Request `r` makes a revision pass. */
  predicate Revised(s: State, r: Request, w: World) {
    Drives(s, r, w) && Revises(Recorded(s, r, w))
  }

  /** Request `r` calls the writer, or clears the drafts. */
  predicate Rewrites(s: State, r: Request, w: World) {
    || (r.Restart? && s.status.Failed?)
    || (r.Regenerate? && Regenerable(s))
    || (Drives(s, r, w) && (s.cp.next.BeforeProduction? || Revises(Recorded(s, r, w))))
  }

  /** A request that rewrites leaves its own draft as the latest, only a revision may
      leave an earlier one with a higher iteration in front. */
  lemma HandleDrafts(s: State, r: Request, w: World, before: Option<nat>)
    requires s.cp.iteration < MAX_ITERATIONS && DraftExactly(s)
    ensures var (s', log) := Handle(s, r, w);
            var audited := LastAudited(before, log);
            && (!Rewrites(s, r, w) ==> s'.draft == s.draft && audited == before)
            && (Rewrites(s, r, w) && !Revised(s, r, w) ==> s'.draft == audited)
            && (Revised(s, r, w) ==>
                  && audited == Some(LastIteration(0, w.audits))
                  && s'.draft == Drafted(s.draft, LastIteration(0, w.audits)))
  {
    hide Pass, LastIteration, LastAudited, Drive;
    OneAudited(before, PublishCall(s.draft));
    if Drives(s, r, w) {
      DriveDrafts(Recorded(s, r, w), w, before);
    } else if r.Restart? {
      PassAudits(before, [Strategy, AutoApproved] + [EnterProduction], 0, w.audits);
      assert [Strategy, AutoApproved] + ([EnterProduction] + Pass(0, w.audits))
          == [Strategy, AutoApproved] + [EnterProduction] + Pass(0, w.audits);
      OneAudited(before, Strategy);
    } else if r.Regenerate? && Regenerable(s) {
      var i := s.draft.value + 1;
      assert [Regenerated, Wrote(i), Audited(i, w.audits(i))]
          == [Regenerated, Wrote(i)] + [Audited(i, w.audits(i))];
      LastAuditedConcat(before, [Regenerated, Wrote(i)], [Audited(i, w.audits(i))]);
      OneAudited(LastAudited(before, [Regenerated, Wrote(i)]), Audited(i, w.audits(i)));
    }
  }

  lemma DriveDrafts(s: State, w: World, before: Option<nat>)
    requires s.cp.iteration < MAX_ITERATIONS && DraftExactly(s)
    ensures var (s', log) := Drive(s, w);
            var audited := LastAudited(before, log);
            && (s.cp.next.BeforeProduction? ==> s'.draft == audited)
            && (Revises(s) ==>
                  && audited == Some(LastIteration(0, w.audits))
                  && s'.draft == Drafted(s.draft, LastIteration(0, w.audits)))
            && (!s.cp.next.BeforeProduction? && !Revises(s) ==> s'.draft == s.draft && audited == before)
  {
    hide Pass, LastIteration, LastAudited;
    OneAudited(before, PublishCall(s.draft));
    PassAudits(before, [EnterProduction], s.cp.iteration, w.audits);
    PassAudits(before, [EnterRevision], 0, w.audits);
    assert s.cp.decision.Some? ==>
             var d := s.cp.decision.value; d.Approve? || d.Reject? || d.RequestChanges?;
  }

  lemma OneAudited(before: Option<nat>, a: Action)
    ensures LastAudited(before, []) == before
    ensures LastAudited(before, [a])
            == if a.Audited? then Some(a.iteration) else if a.Strategy? then None else before
  {
    assert [a][..|[a]| - 1] == [];
  }

  predicate RevisedAt(h: History, k: nat)
    requires k < |h.steps|
  {
    Revised(StateAt(h, k), h.steps[k].0, h.steps[k].1)
  }

  predicate RewritesAt(h: History, k: nat)
    requires k < |h.steps|
  {
    Rewrites(StateAt(h, k), h.steps[k].0, h.steps[k].1)
  }

  /** Request j made a revision that ended at a lower iteration than an earlier draft has. */
  predicate FellBehindAt(h: History, j: nat)
    requires j < |h.steps|
  {
    && RevisedAt(h, j) && StateAt(h, j).draft.Some?
    && LastIteration(0, h.steps[j].1.audits) < StateAt(h, j).draft.value
  }

  /** ... and nothing was written or cleared between it and request k. */
  predicate BehindAt(h: History, j: nat, k: nat)
    requires j < k <= |h.steps|
  {
    FellBehindAt(h, j) && forall i :: j < i < k ==> !RewritesAt(h, i)
  }

  predicate IsBehind(h: History, k: nat)
    requires k <= |h.steps|
  {
    exists j :: 0 <= j < k && BehindAt(h, j, k)
  }

  function AuditedAt(h: History, k: nat): Option<nat>
    requires k <= |h.steps|
  {
    LastAudited(None, LogUpTo(h, k))
  }

  /** The latest draft is the one audited last, exactly unless the latest writing was a
      revision that ended at a lower iteration than an earlier draft has. */
  lemma {:induction false} LatestDraftExactly(h: History, k: nat)
    requires k <= |h.steps|
    ensures StateAt(h, k).draft == AuditedAt(h, k) <==> !IsBehind(h, k)
  {
    hide Handle, Start, LogUpTo, FellBehindAt, RewritesAt, LastAudited, StateAt, AuditedAt;
    if k == 0 {
      FirstDraft(h);
    } else {
      LatestDraftExactly(h, k - 1);
      DraftNext(h, k - 1);
      BehindNext(h, k - 1);
    }
  }

  lemma FirstDraft(h: History)
    ensures StateAt(h, 0).draft == AuditedAt(h, 0)
  {
    hide Pass, LastIteration, LastAudited;
    OneAudited(None, Strategy);
    PassAudits(None, [Strategy, AutoApproved] + [EnterProduction], 0, h.first.audits);
    assert [Strategy, AutoApproved] + ([EnterProduction] + Pass(0, h.first.audits))
        == [Strategy, AutoApproved] + [EnterProduction] + Pass(0, h.first.audits);
  }

  lemma DraftNext(h: History, k: nat)
    requires k < |h.steps|
    ensures if RewritesAt(h, k) then StateAt(h, k + 1).draft == AuditedAt(h, k + 1) <==> !FellBehindAt(h, k)
            else StateAt(h, k + 1).draft == StateAt(h, k).draft && AuditedAt(h, k + 1) == AuditedAt(h, k)
    ensures FellBehindAt(h, k) ==> RewritesAt(h, k)
  {
    hide Handle, Start, Rewrites, Revised, LastAudited, LastIteration;
    var s, r, w := StateAt(h, k), h.steps[k].0, h.steps[k].1;
    DraftsFollowProduction(h, k);
    StateNext(h, k);
    HandleDrafts(s, r, w, AuditedAt(h, k));
    RevisionRewrites(s, r, w);
    LastAuditedConcat(None, LogUpTo(h, k), ActionsAt(h, k));
  }

  lemma RevisionRewrites(s: State, r: Request, w: World)
    requires DraftExactly(s)
    ensures Revised(s, r, w) ==> Rewrites(s, r, w) && s.draft.Some?
  {
  }

  lemma BehindNext(h: History, k: nat)
    requires k < |h.steps|
    ensures IsBehind(h, k + 1) <==> FellBehindAt(h, k) || (!RewritesAt(h, k) && IsBehind(h, k))
  {
    hide FellBehindAt, RewritesAt;
    if FellBehindAt(h, k) {
      assert BehindAt(h, k, k + 1);
    }
    if IsBehind(h, k + 1) {
      var j :| 0 <= j < k + 1 && BehindAt(h, j, k + 1);
      if j < k {
        assert BehindAt(h, j, k) && !RewritesAt(h, k);
      }
    }
    if !RewritesAt(h, k) && IsBehind(h, k) {
      var j :| 0 <= j < k && BehindAt(h, j, k);
      assert BehindAt(h, j, k + 1);
    }
  }

  /** Whatever publishes pushes the latest draft; so the draft pushed is the one audited
      last exactly unless the run is behind. */
  lemma PublishesLastAuditedExactly(h: History, k: nat, d: Option<nat>)
    requires k < |h.steps| && PublishCall(d) in ActionsAt(h, k)
    ensures d.Some? && (d == AuditedAt(h, k) <==> !IsBehind(h, k))
  {
    hide IsBehind, AuditedAt;
    LatestDraftExactly(h, k);
    DraftsFollowProduction(h, k);
    PublishedIsLatest(StateAt(h, k), h.steps[k].0, h.steps[k].1, d);
  }

  lemma PublishedIsLatest(s: State, r: Request, w: World, d: Option<nat>)
    requires s.cp.iteration < MAX_ITERATIONS && PublishCall(d) in Handle(s, r, w).1
    ensures d == s.draft && (DraftExactly(s) ==> d.Some?)
  {
    hide Pass;
    PassPublishesNothing(0, w.audits);
    PassPublishesNothing(s.cp.iteration, w.audits);
    RequestPublishesExactly(s, r, w);
  }

  /** It happens, with each gate answered by its own route: the first pass needs its
      second iteration, the revision asked for passes its first audit, and the approval
      publishes the draft from before the revision. */
  lemma RevisionIsNotPublished(w: World, v: World)
    requires !w.audits(0) && v.audits(0) && v.hasClient && v.confirms
    ensures var h := History(true, 0, w, [(Gate(RequestChanges), v), (Gate(Approve), v)]);
            Disciplined(h) && ActionsAt(h, 1) == [PublishCall(Some(1))] && AuditedAt(h, 1) == Some(0)
  {
  }

  // --------------------------------------------------------- bounded work

  function Writes(log: seq<Action>): nat {
    if log == [] then 0 else Writes(log[..|log| - 1]) + (if log[|log| - 1].Wrote? then 1 else 0)
  }

  function Entries(log: seq<Action>, entry: Action): nat {
    if log == [] then 0 else Entries(log[..|log| - 1], entry) + (if log[|log| - 1] == entry then 1 else 0)
  }

  /** What was done: writer calls, revision passes, first entries to production,
      legs begun, and regenerations. */
  datatype Tally = Tally(writes: nat, revisions: nat, productions: nat, legs: nat, regenerations: nat)

  function Count(log: seq<Action>): Tally {
    Tally(Writes(log), Entries(log, EnterRevision), Entries(log, EnterProduction), Entries(log, Strategy),
          Entries(log, Regenerated))
  }

  lemma {:induction false} WritesConcat(a: seq<Action>, b: seq<Action>)
    ensures Writes(a + b) == Writes(a) + Writes(b)
  {
    if b == [] {
      assert a + b == a;
    } else {
      assert (a + b)[..|a + b| - 1] == a + b[..|b| - 1];
      WritesConcat(a, b[..|b| - 1]);
    }
  }

  lemma {:induction false} EntriesConcat(a: seq<Action>, b: seq<Action>, entry: Action)
    ensures Entries(a + b, entry) == Entries(a, entry) + Entries(b, entry)
  {
    if b == [] {
      assert a + b == a;
    } else {
      assert (a + b)[..|a + b| - 1] == a + b[..|b| - 1];
      EntriesConcat(a, b[..|b| - 1], entry);
    }
  }

  /** `t` is what `a` and `b` did together. */
  predicate Sums(t: Tally, a: Tally, b: Tally) {
    && t.writes == a.writes + b.writes && t.revisions == a.revisions + b.revisions
    && t.productions == a.productions + b.productions && t.legs == a.legs + b.legs
    && t.regenerations == a.regenerations + b.regenerations
  }

  lemma CountConcat(a: seq<Action>, b: seq<Action>)
    ensures Sums(Count(a + b), Count(a), Count(b))
  {
    WritesConcat(a, b);
    EntriesConcat(a, b, EnterRevision);
    EntriesConcat(a, b, EnterProduction);
    EntriesConcat(a, b, Strategy);
    EntriesConcat(a, b, Regenerated);
  }

  lemma CountOne(a: Action)
    ensures var t := Count([a]);
            && t.writes == (if a.Wrote? then 1 else 0)
            && t.revisions == (if a.EnterRevision? then 1 else 0)
            && t.productions == (if a.EnterProduction? then 1 else 0)
            && t.legs == (if a.Strategy? then 1 else 0)
            && t.regenerations == (if a.Regenerated? then 1 else 0)
    ensures Count([]) == Tally(0, 0, 0, 0, 0)
  {
    var log := [a];
    assert log[..|log| - 1] == [] && log[|log| - 1] == a;
    assert Writes(log) == Writes([]) + (if a.Wrote? then 1 else 0);
    assert Entries(log, EnterRevision) == Entries([], EnterRevision) + (if a == EnterRevision then 1 else 0);
    assert Entries(log, EnterProduction) == Entries([], EnterProduction) + (if a == EnterProduction then 1 else 0);
    assert Entries(log, Strategy) == Entries([], Strategy) + (if a == Strategy then 1 else 0);
    assert Entries(log, Regenerated) == Entries([], Regenerated) + (if a == Regenerated then 1 else 0);
  }

  /** The same, one action at a time. */
  lemma CountCons(a: Action, log: seq<Action>)
    ensures var t, rest := Count([a] + log), Count(log);
            && t.writes == rest.writes + (if a.Wrote? then 1 else 0)
            && t.revisions == rest.revisions + (if a.EnterRevision? then 1 else 0)
            && t.productions == rest.productions + (if a.EnterProduction? then 1 else 0)
            && t.legs == rest.legs + (if a.Strategy? then 1 else 0)
            && t.regenerations == rest.regenerations + (if a.Regenerated? then 1 else 0)
  {
    CountConcat([a], log);
    CountOne(a);
  }

  /** Only writer calls, n of them. */
  predicate OnlyWrites(t: Tally, n: nat) {
    t.writes == n && t.revisions == 0 && t.productions == 0 && t.legs == 0 && t.regenerations == 0
  }

  /** A pass calls the writer once, and once more exactly when the first audit
      fails and an iteration is left; it ends with an audit. */
  lemma {:induction false} PassWrites(i: nat, audits: nat -> bool)
    requires i < MAX_ITERATIONS
    ensures OnlyWrites(Count(Pass(i, audits)), if audits(i) || i == MAX_ITERATIONS - 1 then 1 else 2)
    ensures var log, last := Pass(i, audits), LastIteration(i, audits);
            log[|log| - 1] == Audited(last, audits(last)) && (audits(last) || last == MAX_ITERATIONS - 1)
    decreases MAX_ITERATIONS - i
  {
    hide Count;
    var rest := if audits(i) || i >= MAX_ITERATIONS - 1 then [] else Pass(i + 1, audits);
    if rest != [] {
      PassWrites(i + 1, audits);
    }
    CountOne(Strategy);
    CountCons(Audited(i, audits(i)), rest);
    CountCons(Wrote(i), [Audited(i, audits(i))] + rest);
    assert Pass(i, audits) == [Wrote(i)] + ([Audited(i, audits(i))] + rest);
  }

  lemma DriveWork(s: State, entry: Action, w: World)
    requires s.cp.iteration < MAX_ITERATIONS && (entry == EnterProduction || entry == EnterRevision)
    ensures var t := Count(DriveProduction(s, entry, w).1);
            && 1 <= t.writes <= 2 && t.legs == 0 && t.regenerations == 0
            && (w.audits(s.cp.iteration) || s.cp.iteration > 0 <==> t.writes == 1)
            && t.revisions == (if entry == EnterRevision then 1 else 0)
            && t.productions == (if entry == EnterProduction then 1 else 0)
  {
    hide Count, Pass, LastIteration;
    PassWrites(s.cp.iteration, w.audits);
    CountCons(entry, Pass(s.cp.iteration, w.audits));
  }

  lemma StartWork(autoAccept: bool, rowRounds: nat, w: World)
    ensures var t := Count(Start(autoAccept, rowRounds, w).1);
            && t.legs == 1 && t.revisions == 0 && t.regenerations == 0
            && t.productions == (if autoAccept then 1 else 0)
            && t.writes == (if !autoAccept then 0 else if w.audits(0) then 1 else 2)
  {
    hide Count, Pass, LastIteration;
    var s := State(Checkpoint(BeforeProduction, 0, None, 0, Working), rowRounds, autoAccept, AtHitl1, None);
    if autoAccept {
      var log := DriveProduction(s, EnterProduction, w).1;
      DriveWork(s, EnterProduction, w);
      CountCons(AutoApproved, log);
      CountCons(Strategy, [AutoApproved] + log);
      assert [Strategy, AutoApproved] + log == [Strategy] + ([AutoApproved] + log);
    } else {
      CountOne(Strategy);
    }
  }

  /** Request `r` drives the graph from before publish_or_revise through the outline's route. */
  predicate Stray(s: State, r: Request) {
    r.Resume? && s.cp.next.BeforePublish?
  }

  predicate Revises(s: State) {
    s.cp.next.BeforePublish? && (s.cp.decision.None? || s.cp.decision == Some(RequestChanges))
    && s.cp.rounds < MAX_HITL2_ROUNDS
  }

  /** A drive does one pass at most; a revision is entered only before
      publish_or_revise, below the round limit, without approval or rejection. */
  lemma OneDriveWork(s: State, w: World)
    requires s.cp.iteration < MAX_ITERATIONS
    ensures var t := Count(Drive(s, w).1);
            && t.legs == 0 && t.regenerations == 0
            && t.productions == (if s.cp.next.BeforeProduction? then 1 else 0)
            && t.revisions == (if Revises(s) then 1 else 0)
            && t.writes <= 2 * (t.revisions + t.productions)
            && (Revises(s) && !w.audits(0) ==> t.writes == 2)
  {
    hide Count, DriveProduction;
    DriveWork(s, EnterProduction, w);
    DriveWork(s.(cp := s.cp.(iteration := 0, status := Working)), EnterRevision, w);
    CountOne(PublishCall(s.draft));
    assert s.cp.decision.Some? ==>
             var d := s.cp.decision.value; d.Approve? || d.Reject? || d.RequestChanges?;
  }

  lemma RegenerationWork(i: nat, pass: bool)
    ensures var t := Count([Regenerated, Wrote(i), Audited(i, pass)]);
            t.writes == 1 && t.revisions == 0 && t.productions == 0 && t.legs == 0 && t.regenerations == 1
  {
    hide Count;
    var a := Audited(i, pass);
    CountOne(a);
    CountCons(Wrote(i), [a]);
    CountCons(Regenerated, [Wrote(i), a]);
    assert [Wrote(i)] + [a] == [Wrote(i), a] && [Regenerated] + [Wrote(i), a] == [Regenerated, Wrote(i), a];
  }

  lemma DriveState(s: State, w: World)
    requires s.cp.iteration < MAX_ITERATIONS
    ensures var s' := Drive(s, w).0;
            s'.rowRounds == s.rowRounds && s'.autoAccept == s.autoAccept && !s'.cp.next.BeforeProduction?
  {
    hide Pass, LastIteration;
  }

  lemma StartState(autoAccept: bool, rowRounds: nat, w: World)
    ensures var s := Start(autoAccept, rowRounds, w).0;
            s.rowRounds == rowRounds && s.autoAccept == autoAccept && (s.cp.next.BeforeProduction? <==> !autoAccept)
  {
    hide Pass, LastIteration;
  }

  /** What one request may do, by what it leaves behind. */
  predicate WorkOf(s: State, r: Request, w: World, s': State, t: Tally) {
    && t.writes <= 2 * (t.revisions + t.productions) + t.regenerations
    && t.revisions <= 1
    && (t.revisions == 1 ==>
          Stray(s, r) || (r == Gate(RequestChanges) && s'.rowRounds == s.rowRounds + 1 < MAX_HITL2_ROUNDS))
    && s'.rowRounds >= s.rowRounds && s'.autoAccept == s.autoAccept
    && t.legs == (if r.Restart? && s.status.Failed? then 1 else 0)
    && t.regenerations == (if r.Regenerate? && Regenerable(s) then 1 else 0)
    && (t.legs == 0 ==>
          && t.productions == (if s.cp.next.BeforeProduction? && Drives(s, r, w) then 1 else 0)
          && (s'.cp.next.BeforeProduction? <==> s.cp.next.BeforeProduction? && !Drives(s, r, w)))
    && (t.legs == 1 ==>
          && t.productions == (if s.autoAccept then 1 else 0)
          && (s'.cp.next.BeforeProduction? <==> !s.autoAccept))
  }

  lemma HandleWork(s: State, r: Request, w: World)
    requires s.cp.iteration < MAX_ITERATIONS
    ensures WorkOf(s, r, w, Handle(s, r, w).0, Count(Handle(s, r, w).1))
  {
    hide Count, Drive, Start;
    CountOne(PublishCall(s.draft));
    if Drives(s, r, w) {
      OneDriveWork(Recorded(s, r, w), w);
      DriveState(Recorded(s, r, w), w);
    } else if r.Restart? {
      StartWork(s.autoAccept, s.rowRounds, w);
      StartState(s.autoAccept, s.rowRounds, w);
    } else if r.Regenerate? && Regenerable(s) {
      var i := s.draft.value + 1;
      RegenerationWork(i, w.audits(i));
    }
  }

  /** Everything done before the k-th request. */
  function LogUpTo(h: History, k: nat): seq<Action>
    requires k <= |h.steps|
  {
    if k == 0 then Start(h.autoAccept, h.rowRounds, h.first).1 else LogUpTo(h, k - 1) + ActionsAt(h, k - 1)
  }

  function TallyAt(h: History, k: nat): Tally
    requires k <= |h.steps|
  {
    Count(LogUpTo(h, k))
  }

  /** Each leg has passed the outline gate once, the present one once or not yet. */
  predicate EnteredOnce(s: State, t: Tally) {
    t.productions + (if s.cp.next.BeforeProduction? then 1 else 0) == t.legs
  }

  /** The outline gate is passed at most once in a leg: production is entered for the
      first time by the automatic approval or by a request, never twice. */
  lemma {:induction false} ProductionEnteredOnce(h: History, k: nat)
    requires k <= |h.steps|
    ensures EnteredOnce(StateAt(h, k), TallyAt(h, k))
    ensures h.autoAccept ==> !StateAt(h, k).cp.next.BeforeProduction?
  {
    hide Handle, Start, Count, LogUpTo;
    FlagIsFixed(h, k);
    if k == 0 {
      FirstTally(h);
    } else {
      ProductionEnteredOnce(h, k - 1);
      DraftsFollowProduction(h, k - 1);
      NextWork(h, k - 1);
    }
  }

  lemma FirstTally(h: History)
    ensures var t := TallyAt(h, 0);
            && t.legs == 1 && t.revisions == 0 && t.regenerations == 0
            && t.productions == (if h.autoAccept then 1 else 0)
            && t.writes == (if !h.autoAccept then 0 else if h.first.audits(0) then 1 else 2)
    ensures StateAt(h, 0).rowRounds == h.rowRounds && (StateAt(h, 0).cp.next.BeforeProduction? <==> !h.autoAccept)
  {
    hide Start, Count;
    StartWork(h.autoAccept, h.rowRounds, h.first);
    StartState(h.autoAccept, h.rowRounds, h.first);
  }

  /** Request k adds what its work was. */
  lemma NextWork(h: History, k: nat)
    requires k < |h.steps|
    ensures var t := Count(ActionsAt(h, k));
            && WorkOf(StateAt(h, k), h.steps[k].0, h.steps[k].1, StateAt(h, k + 1), t)
            && Sums(TallyAt(h, k + 1), TallyAt(h, k), t)
  {
    hide Handle, Count, WorkOf;
    StateNext(h, k);
    HandleWork(StateAt(h, k), h.steps[k].0, h.steps[k].1);
    CountConcat(LogUpTo(h, k), ActionsAt(h, k));
  }

  lemma {:induction false} FlagIsFixed(h: History, k: nat)
    requires k <= |h.steps|
    ensures StateAt(h, k).autoAccept == h.autoAccept
  {
    hide Handle, Start, Count, LogUpTo;
    if k == 0 {
      StartState(h.autoAccept, h.rowRounds, h.first);
    } else {
      FlagIsFixed(h, k - 1);
      NextWork(h, k - 1);
    }
  }

  /** How many of the first k requests were outline resumes served at the second gate. */
  function Strays(h: History, k: nat): nat
    requires k <= |h.steps|
  {
    if k == 0 then 0 else Strays(h, k - 1) + (if Stray(StateAt(h, k - 1), h.steps[k - 1].0) then 1 else 0)
  }

  /** The second gate's own revisions never exceed the row's rounds, nor two, over all
      legs; every pass has called the writer at most twice, every regeneration once. */
  predicate WithinRounds(s: State, t: Tally, strays: nat) {
    && t.revisions <= strays + (if s.rowRounds < MAX_HITL2_ROUNDS - 1 then s.rowRounds else MAX_HITL2_ROUNDS - 1)
    && t.writes <= 2 * (t.revisions + t.productions) + t.regenerations
  }

  lemma {:induction false} RevisionsBounded(h: History, k: nat)
    requires k <= |h.steps|
    ensures WithinRounds(StateAt(h, k), TallyAt(h, k), Strays(h, k))
  {
    hide Handle, Start, Count, LogUpTo, StateAt, ActionsAt;
    if k == 0 {
      FirstTally(h);
    } else {
      RevisionsBounded(h, k - 1);
      NextWork(h, k - 1);
    }
  }

  /** The work of any history, however its routes are used: over all its legs two
      revisions and one more for each stray resume; two writer calls for each leg and
      each revision, and one for each regeneration. */
  lemma BoundedWork(h: History)
    ensures var t, strays := TallyAt(h, |h.steps|), Strays(h, |h.steps|);
            && t.revisions <= 2 + strays
            && t.writes <= 2 * (t.legs + 2 + strays) + t.regenerations
  {
    RevisionsBounded(h, |h.steps|);
    ProductionEnteredOnce(h, |h.steps|);
  }

  lemma {:induction false} DisciplineHasNoStrays(h: History, k: nat)
    requires Disciplined(h) && k <= |h.steps|
    ensures Strays(h, k) == 0
  {
    hide Handle, Start;
    if k > 0 {
      DisciplineHasNoStrays(h, k - 1);
      assert AtOwnGate(StateAt(h, k - 1), h.steps[k - 1].0);
    }
  }

  /** With each gate answered through its own route there are at most two revisions
      over all legs, and in a single leg without regeneration six writer calls. */
  lemma DisciplinedWork(h: History)
    requires Disciplined(h)
    ensures var t := TallyAt(h, |h.steps|);
            && t.revisions <= 2
            && t.writes <= 4 + 2 * t.legs + t.regenerations
            && (t.legs == 1 && t.regenerations == 0 ==> t.writes <= 6)
  {
    DisciplineHasNoStrays(h, |h.steps|);
    BoundedWork(h);
  }

  // ------------------------------------------------------ the bounds are met

  /** A request for changes at the second gate below the limit. */
  lemma ChangesRevise(s: State, w: World)
    requires s.cp.iteration < MAX_ITERATIONS && s.cp.next.BeforePublish?
    requires s.rowRounds + 1 < MAX_HITL2_ROUNDS && !w.audits(0)
    ensures var (s', log) := Handle(s, Gate(RequestChanges), w);
            && s'.cp.next.BeforePublish? && s'.rowRounds == s'.cp.rounds == s.rowRounds + 1
            && s'.cp.decision == Some(RequestChanges)
            && Count(log).revisions == 1 && Count(log).writes == 2
            && Count(log).legs == 0 && Count(log).regenerations == 0
  {
    hide Count, Pass, LastIteration;
    OneDriveWork(Decide(s, RequestChanges), w);
  }

  lemma LimitEnds(s: State, w: World)
    requires s.cp.iteration < MAX_ITERATIONS && s.cp.next.BeforePublish? && s.rowRounds == MAX_HITL2_ROUNDS - 1
    requires s.draft.Some?
    ensures var (s', log) := Handle(s, Gate(RequestChanges), w); log == [] && s'.cp.next.Ended? && Regenerable(s')
  {
    hide Pass, LastIteration;
  }

  lemma RegenerationAdds(s: State, w: World)
    requires s.cp.iteration < MAX_ITERATIONS && s.cp.next.Ended? && Regenerable(s)
    ensures var (s', log) := Handle(s, Regenerate, w);
            && s'.cp.next.Ended? && Regenerable(s')
            && Count(log).writes == 1 && Count(log).regenerations == 1
            && Count(log).legs == 0 && Count(log).revisions == 0
  {
    hide Count;
    RegenerationWork(s.draft.value + 1, w.audits(s.draft.value + 1));
  }

  /** Three requests for changes, then n regenerations. */
  function BusyRun(w: World, n: nat): History {
    History(true, 0, w, seq(3 + n, i => (if i < 3 then Gate(RequestChanges) else Regenerate, w)))
  }

  predicate Tallied(t: Tally, writes: nat, revisions: nat, legs: nat, regenerations: nat) {
    t.writes == writes && t.revisions == revisions && t.legs == legs && t.regenerations == regenerations
  }

  lemma BusyStart(w: World, n: nat)
    requires !w.audits(0)
    ensures var h := BusyRun(w, n);
            && (forall k :: 0 <= k < 3 ==> AtOwnGate(StateAt(h, k), h.steps[k].0))
            && StateAt(h, 3).cp.next.Ended? && Regenerable(StateAt(h, 3))
            && Tallied(TallyAt(h, 3), 6, 2, 1, 0)
  {
    hide Handle, Count, LogUpTo, Start, ActionsAt;
    var h := BusyRun(w, n);
    assert h.steps[0] == h.steps[1] == h.steps[2] == (Gate(RequestChanges), w);
    FirstTally(h);
    DraftsFollowProduction(h, 0);
    DraftsFollowProduction(h, 2);
    StartPauses(h);
    BusyStep(h, 0, w);
    BusyStep(h, 1, w);
    StateNext(h, 2);
    NextWork(h, 2);
    LimitEnds(StateAt(h, 2), w);
    CountOne(Strategy);
    assert ActionsAt(h, 2) == [] by { hide *; ActionsOf(h, 2); LimitEnds(StateAt(h, 2), w); }
  }

  lemma StartPauses(h: History)
    requires h.autoAccept
    ensures StateAt(h, 0).cp.next.BeforePublish?
  {
  }

  lemma ActionsOf(h: History, k: nat)
    requires k < |h.steps|
    ensures ActionsAt(h, k) == Handle(StateAt(h, k), h.steps[k].0, h.steps[k].1).1
  {
  }

  lemma BusyStep(h: History, k: nat, w: World)
    requires k < |h.steps| && h.steps[k] == (Gate(RequestChanges), w) && !w.audits(0)
    requires StateAt(h, k).cp.next.BeforePublish? && StateAt(h, k).rowRounds + 1 < MAX_HITL2_ROUNDS
    ensures StateAt(h, k + 1).cp.next.BeforePublish? && StateAt(h, k + 1).rowRounds == StateAt(h, k).rowRounds + 1
    ensures var t, t' := TallyAt(h, k), TallyAt(h, k + 1);
            Tallied(t', t.writes + 2, t.revisions + 1, t.legs, t.regenerations)
  {
    hide Handle, Count, LogUpTo, ActionsAt;
    StateNext(h, k);
    NextWork(h, k);
    ActionsOf(h, k);
    ChangesRevise(StateAt(h, k), w);
  }

  /** All bounds are met: two revisions, and six writer calls and one for each
      regeneration. The third request for changes ends the graph. */
  lemma {:induction false} BoundsAreMet(w: World, n: nat)
    requires !w.audits(0)
    ensures var h := BusyRun(w, n);
            Disciplined(h) && Tallied(TallyAt(h, 3 + n), 6 + n, 2, 1, n)
  {
    hide TallyAt;
    var h := BusyRun(w, n);
    BusyStart(w, n);
    forall k | 0 <= k < |h.steps|
      ensures AtOwnGate(StateAt(h, k), h.steps[k].0)
    {
      if k >= 3 {
        assert h.steps[k].0 == Regenerate;
      }
    }
    BusyUpTo(w, n, n);
  }

  lemma {:induction false} BusyUpTo(w: World, n: nat, k: nat)
    requires !w.audits(0) && k <= n
    ensures var h := BusyRun(w, n);
            && StateAt(h, 3 + k).cp.next.Ended? && Regenerable(StateAt(h, 3 + k))
            && Tallied(TallyAt(h, 3 + k), 6 + k, 2, 1, k)
  {
    hide Handle, Count, LogUpTo, Start, ActionsAt;
    var h := BusyRun(w, n);
    if k == 0 {
      BusyStart(w, n);
    } else {
      BusyUpTo(w, n, k - 1);
      assert h.steps[2 + k] == (Regenerate, w);
      StateNext(h, 2 + k);
      NextWork(h, 2 + k);
      ActionsOf(h, 2 + k);
      RegenerationAdds(StateAt(h, 2 + k), w);
    }
  }

  // ---------------------------------------------- what a stray resume brings

  /** Two requests for changes, then n resumes through the outline's route. */
  function StrayRun(w: World, n: nat): History {
    History(true, 0, w, seq(2 + n, i => (if i < 2 then Gate(RequestChanges) else Resume, w)))
  }

  lemma StrayRevises(s: State, w: World)
    requires s.cp.iteration < MAX_ITERATIONS && Revises(s)
    ensures var (s', log) := Handle(s, Resume, w); Revises(s') && Count(log).revisions == 1
  {
    hide Count, Pass, LastIteration;
    OneDriveWork(s, w);
  }

  /** Without the discipline nothing bounds the revisions: at the second gate the
      outline route enters one and uses up no round, any number of times. The bound
      of `BoundedWork` is met for every number of stray resumes. */
  lemma {:induction false} ResumeRevisesForever(w: World, n: nat)
    requires !w.audits(0)
    ensures var h := StrayRun(w, n);
            TallyAt(h, 2 + n).revisions == 2 + n && Strays(h, 2 + n) == n
  {
    StrayUpTo(w, n, n);
  }

  lemma {:induction false} StrayUpTo(w: World, n: nat, k: nat)
    requires !w.audits(0) && k <= n
    ensures var h := StrayRun(w, n);
            Revises(StateAt(h, 2 + k)) && TallyAt(h, 2 + k).revisions == 2 + k && Strays(h, 2 + k) == k
  {
    hide Handle, Count, LogUpTo, Start, ActionsAt;
    var h := StrayRun(w, n);
    if k == 0 {
      StrayStart(w, n);
    } else {
      StrayUpTo(w, n, k - 1);
      assert h.steps[1 + k] == (Resume, w);
      StateNext(h, 1 + k);
      NextWork(h, 1 + k);
      ActionsOf(h, 1 + k);
      StrayRevises(StateAt(h, 1 + k), w);
    }
  }

  lemma StrayStart(w: World, n: nat)
    requires !w.audits(0)
    ensures var h := StrayRun(w, n);
            Revises(StateAt(h, 2)) && TallyAt(h, 2).revisions == 2 && Strays(h, 2) == 0
  {
    hide Handle, Count, LogUpTo, Start, ActionsAt;
    var h := StrayRun(w, n);
    assert h.steps[0] == h.steps[1] == (Gate(RequestChanges), w);
    FirstTally(h);
    StartPauses(h);
    BusyStep(h, 0, w);
    BusyStep(h, 1, w);
    StateNext(h, 1);
    ChangesRevise(StateAt(h, 1), w);
    assert Strays(h, 0) == 0 && Strays(h, 1) == 0;
  }
}
