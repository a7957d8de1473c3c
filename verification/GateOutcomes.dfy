/**
  Where each request leaves a run: what it does, and what row and checkpoint say
  afterwards (content_tool/graph/root.py, content_tool/api/sse.py and
  content_tool/api/routes/runs.py).
*/
module GateOutcomes {
  import opened Wrappers
  import opened Lifecycle

  // ------------------------------------------------------------- one pass

  /** What a pass from the first iteration does, and the iteration it ends at. */
  function FirstPass(audits: nat -> bool): (seq<Action>, nat) {
    if audits(0) then ([Wrote(0), Audited(0, true)], 0)
    else ([Wrote(0), Audited(0, false)] + [Wrote(1), Audited(1, audits(1))], 1)
  }

  lemma PassIsFirstPass(audits: nat -> bool)
    ensures Pass(0, audits) == FirstPass(audits).0 && LastIteration(0, audits) == FirstPass(audits).1
  {
    if !audits(0) {
      assert Pass(1, audits) == [Wrote(1), Audited(1, audits(1))] + [];
      assert Pass(0, audits) == [Wrote(0), Audited(0, audits(0))] + Pass(1, audits);
    } else {
      assert Pass(0, audits) == [Wrote(0), Audited(0, audits(0))] + [];
    }
  }

  /** The run stands before its second gate behind a pass, told so in the row. */
  predicate Produced(s: State, entry: Action, w: World, s': State, log: seq<Action>) {
    var (pass, last) := FirstPass(w.audits);
    && log == [entry] + pass
    && s'.cp.next == BeforePublish && s'.cp.iteration == last && s'.status == AtHitl2
    && s'.draft == Some(if s.draft.Some? && s.draft.value > last then s.draft.value else last)
    && s'.rowRounds == s.rowRounds && s'.autoAccept == s.autoAccept
    && s'.cp.rounds == s.cp.rounds && s'.cp.decision == s.cp.decision
  }

  /** The graph has ended and the row reads `status`. */
  predicate EndedAs(s: State, status: RowStatus, s': State) {
    && s'.cp.next == Ended && s'.status == status
    && s'.draft == s.draft && s'.cp.iteration == s.cp.iteration && s'.autoAccept == s.autoAccept
  }

  // ------------------------------------------------------ the outline's gate

  /** A leg waits for its outline to be accepted, or is produced at once. */
  lemma LegBegins(autoAccept: bool, rowRounds: nat, w: World)
    ensures var (s, log) := Start(autoAccept, rowRounds, w);
            var (pass, last) := FirstPass(w.audits);
            && s.rowRounds == rowRounds && s.autoAccept == autoAccept
            && s.cp.rounds == 0 && s.cp.decision == None && s.cp.status == Working
            && (autoAccept ==>
                  && log == [Strategy, AutoApproved] + ([EnterProduction] + pass)
                  && s.cp.next == BeforePublish && s.cp.iteration == last
                  && s.status == AtHitl2 && s.draft == Some(last))
            && (!autoAccept ==>
                  && log == [Strategy] && s.cp.next == BeforeProduction && s.cp.iteration == 0
                  && s.status == AtHitl1 && s.draft == None)
  {
    PassIsFirstPass(w.audits);
  }

  lemma OutlineAccepted(s: State, w: World)
    requires s.cp.next == BeforeProduction && s.cp.iteration == 0
    ensures var (s', log) := Handle(s, Resume, w); Produced(s, EnterProduction, w, s', log)
  {
    PassIsFirstPass(w.audits);
  }

  /** A decision taken before the outline is accepted is recorded, and the run is produced. */
  lemma DecidedEarly(s: State, d: Decision, w: World)
    requires s.cp.next == BeforeProduction && s.cp.iteration == 0
    requires (d == Approve ==> w.confirms) && (d == RequestChanges ==> s.rowRounds < 3)
    ensures var (s', log) := Handle(s, Gate(d), w);
            var rounds := if d == RequestChanges then s.rowRounds + 1 else s.rowRounds;
            Produced(s.(rowRounds := rounds, cp := s.cp.(decision := Some(d), rounds := rounds)),
                     EnterProduction, w, s', log)
  {
    PassIsFirstPass(w.audits);
  }

  // -------------------------------------------------------- the second gate

  /** An approval that does not confirm the target, and a request for changes behind the
      third, change nothing. */
  lemma RefusedAtTheGate(s: State, d: Decision, w: World)
    requires s.cp.iteration < MAX_ITERATIONS
    requires (d == Approve && !w.confirms) || (d == RequestChanges && s.rowRounds >= 3)
    ensures Handle(s, Gate(d), w) == (s, [])
  {
  }

  /** A confirmed approval publishes the latest draft: the row reads how that went. Without
      a client the graph ends and the row stays at publishing; a failure leaves the graph
      where it was. */
  lemma Approved(s: State, w: World)
    requires s.cp.iteration < MAX_ITERATIONS && s.cp.next == BeforePublish && w.confirms
    ensures var (s', log) := Handle(s, Gate(Approve), w);
            && s'.rowRounds == s.rowRounds && s'.cp.decision == Some(Approve)
            && log == (if w.hasClient then [PublishCall(s.draft)] else [])
            && (!w.hasClient ==> EndedAs(s, Publishing, s') && s'.cp.status == Unshipped)
            && (w.hasClient && w.publish == Done ==> EndedAs(s, Published, s') && s'.cp.status == Shipped)
            && (w.hasClient && w.publish != Done ==>
                  s'.cp.next == BeforePublish && s'.status == Failed && s'.draft == s.draft
                  && s'.cp.status == s.cp.status)
  {
  }

  /** A rejection ends the run. */
  lemma TurnedAway(s: State, w: World)
    requires s.cp.iteration < MAX_ITERATIONS && s.cp.next == BeforePublish
    ensures var (s', log) := Handle(s, Gate(Reject), w);
            && log == [] && EndedAs(s, Rejected, s') && s'.cp.status == TurnedDown
            && s'.rowRounds == s.rowRounds && s'.cp.decision == Some(Reject)
  {
  }

  /** A request for changes counts a round in row and checkpoint; the first two make a
      revision pass, the third ends the run. */
  lemma ChangesAsked(s: State, w: World)
    requires s.cp.iteration < MAX_ITERATIONS && s.cp.next == BeforePublish && s.rowRounds < 3
    ensures var (s', log) := Handle(s, Gate(RequestChanges), w);
            && s'.rowRounds == s.rowRounds + 1 && s'.cp.rounds == s.rowRounds + 1
            && s'.cp.decision == Some(RequestChanges)
            && (s.rowRounds < 2 ==>
                  && log == [EnterRevision] + FirstPass(w.audits).0
                  && s'.cp.next == BeforePublish && s'.status == AtHitl2 && s'.cp.status == Working
                  && s'.cp.iteration == FirstPass(w.audits).1
                  && s'.draft == Drafted(s.draft, FirstPass(w.audits).1))
            && (s.rowRounds == 2 ==> log == [] && EndedAs(s, ChangesRequested, s') && s'.cp.status == CapReached)
  {
    PassIsFirstPass(w.audits);
  }

  /** The outline's route, called at the second gate, acts on the decision that stands. */
  lemma StrayResume(s: State, w: World)
    requires s.cp.iteration < MAX_ITERATIONS && s.cp.next == BeforePublish
    ensures var (s', log) := Handle(s, Resume, w);
            match s.cp.decision
            case Some(Approve) =>
              && log == (if w.hasClient then [PublishCall(s.draft)] else [])
              && s'.status == (if !w.hasClient then Publishing else if w.publish == Done then Published else Failed)
              && (s'.cp.next == Ended <==> !w.hasClient || w.publish == Done)
            case Some(Reject) => log == [] && EndedAs(s, Rejected, s')
            case _ =>
              if s.cp.rounds >= 3 then log == [] && EndedAs(s, ChangesRequested, s')
              else Produced(s, EnterRevision, w, s', log) && s'.cp.status == Working
  {
    PassIsFirstPass(w.audits);
  }

  /** On a run that has ended a decision is recorded and nothing is done; the row reads
      rejected behind a rejection, and as the graph ended otherwise. */
  lemma AfterTheEnd(s: State, r: Request, w: World)
    requires s.cp.iteration < MAX_ITERATIONS && s.cp.next == Ended && (r.Resume? || r.Gate?)
    ensures var (s', log) := Handle(s, r, w);
            && log == [] && s'.cp.next == Ended && s'.draft == s.draft
            && (r == Gate(Reject) ==> s'.status == Rejected && s'.cp.status == TurnedDown)
            && (r != Gate(Reject) ==> s'.cp.status == s.cp.status)
            && (r == Resume || (r == Gate(Approve) && w.confirms) || (r == Gate(RequestChanges) && s.rowRounds < 3) ==>
                  s'.status == (match s.cp.status case TurnedDown => Rejected
                                                  case CapReached => ChangesRequested
                                                  case _ => s.status))
            && (r == Gate(RequestChanges) ==>
                  s'.rowRounds == if s.rowRounds < 3 then s.rowRounds + 1 else s.rowRounds)
  {
  }

  // ---------------------------------------------------- beside the graph

  /** A rewrite adds the next draft and counts a round; row status and graph stay. */
  lemma Rewritten(s: State, w: World)
    requires s.cp.iteration < MAX_ITERATIONS
    ensures var (s', log) := Handle(s, Regenerate, w);
            if s.draft.None? || s.status == AtHitl1 || s.status == AtHitl2 then s' == s && log == []
            else
              && log == [Regenerated, Wrote(s.draft.value + 1),
                         Audited(s.draft.value + 1, w.audits(s.draft.value + 1))]
              && s'.draft == Some(s.draft.value + 1) && s'.rowRounds == s.rowRounds + 1
              && s'.cp == s.cp && s'.status == s.status && s'.autoAccept == s.autoAccept
  {
  }

  /** A republish pushes the latest draft and tells the row, which a mismatch leaves alone. */
  lemma Repushed(s: State, w: World)
    requires s.cp.iteration < MAX_ITERATIONS
    ensures var (s', log) := Handle(s, Republish, w);
            if s.draft.None? || !w.hasClient then s' == s && log == []
            else
              && log == [PublishCall(s.draft)]
              && s'.status == (match w.publish case Done => Published case WpError => Failed case Mismatch => s.status)
              && s'.cp == s.cp && s'.draft == s.draft && s'.rowRounds == s.rowRounds && s'.autoAccept == s.autoAccept
  {
  }

  /** Only a failed run begins again, and from the beginning; its rounds stay counted. */
  lemma BegunAgain(s: State, w: World)
    requires s.cp.iteration < MAX_ITERATIONS
    ensures Handle(s, Restart, w) == if s.status == Failed then Start(s.autoAccept, s.rowRounds, w) else (s, [])
  {
  }

  // ------------------------------------------------------------ whole runs

  /** A run that waits for its outline has no draft, and its row says that it waits. */
  lemma {:induction false} UnproducedIsNew(h: History, k: nat)
    requires k <= |h.steps| && StateAt(h, k).cp.next == BeforeProduction
    ensures StateAt(h, k).cp.iteration == 0 && StateAt(h, k).status == AtHitl1 && StateAt(h, k).draft == None
  {
    if k == 0 {
      LegBegins(h.autoAccept, h.rowRounds, h.first);
    } else {
      var s, r, w := StateAt(h, k - 1), h.steps[k - 1].0, h.steps[k - 1].1;
      StateNext(h, k - 1);
      if r.Restart? && s.status.Failed? {
        LegBegins(s.autoAccept, s.rowRounds, w);
      } else {
        StaysUnproduced(s, r, w);
        UnproducedIsNew(h, k - 1);
        DraftsFollowProduction(h, k - 1);
      }
    }
  }

  lemma StaysUnproduced(s: State, r: Request, w: World)
    requires s.cp.iteration < MAX_ITERATIONS && !(r.Restart? && s.status.Failed?)
    requires Handle(s, r, w).0.cp.next == BeforeProduction
    ensures s.cp.next == BeforeProduction && Handle(s, r, w).0.cp.iteration == s.cp.iteration
    ensures s.draft.None? ==> Handle(s, r, w).0.draft.None? && Handle(s, r, w).0.status == s.status
  {
    hide Pass, LastIteration;
  }

  /** Once ended, a graph stays ended until the run is restarted, and no pass is made. */
  lemma {:induction false} EndedStaysEnded(h: History, j: nat, k: nat)
    requires j <= k <= |h.steps| && StateAt(h, j).cp.next == Ended
    requires forall i :: j <= i < k ==> !RestartedAt(h, i)
    ensures StateAt(h, k).cp.next == Ended
    ensures forall i :: j <= i < k ==> EnterProduction !in ActionsAt(h, i) && EnterRevision !in ActionsAt(h, i)
    decreases k
  {
    hide Handle, StateAt, ActionsAt;
    if j < k {
      EndedStaysEnded(h, j, k - 1);
      EndedStep(h, k - 1);
    }
  }

  lemma EndedStep(h: History, i: nat)
    requires i < |h.steps| && StateAt(h, i).cp.next == Ended && !RestartedAt(h, i)
    ensures StateAt(h, i + 1).cp.next == Ended
    ensures EnterProduction !in ActionsAt(h, i) && EnterRevision !in ActionsAt(h, i)
  {
    hide StateAt;
    StateNext(h, i);
  }

  /** Request k pushed a draft and WordPress took it. */
  predicate PushedAt(h: History, k: nat)
    requires k < |h.steps|
  {
    PublishCall(StateAt(h, k).draft) in ActionsAt(h, k) && h.steps[k].1.publish == Done
  }

  /** The row reads published only behind a push that WordPress took, and has read so
      ever since; such a push always makes it read so. */
  lemma {:induction false} PublishedIsPushed(h: History, k: nat) returns (j: nat)
    requires k <= |h.steps| && StateAt(h, k).status == Published
    ensures j < k && PushedAt(h, j)
    ensures forall i :: j < i <= k ==> StateAt(h, i).status == Published
  {
    hide Handle, Start, StateAt, ActionsAt;
    if k == 0 {
      FirstIsUnpublished(h);
    } else {
      PublishedStep(h, k - 1);
      if PushedAt(h, k - 1) {
        j := k - 1;
      } else {
        j := PublishedIsPushed(h, k - 1);
      }
    }
  }

  lemma FirstIsUnpublished(h: History)
    ensures StateAt(h, 0).status != Published
  {
    hide Pass, LastIteration;
  }

  lemma PublishedStep(h: History, k: nat)
    requires k < |h.steps|
    ensures PushedAt(h, k) ==> StateAt(h, k + 1).status == Published
    ensures StateAt(h, k + 1).status == Published && !PushedAt(h, k) ==> StateAt(h, k).status == Published
  {
    hide StateAt, Pass, LastIteration;
    var s, r, w := StateAt(h, k), h.steps[k].0, h.steps[k].1;
    StateNext(h, k);
    PushedPublishes(s, r, w);
  }

  lemma PushedPublishes(s: State, r: Request, w: World)
    requires s.cp.iteration < MAX_ITERATIONS
    ensures var (s', log) := Handle(s, r, w);
            var pushed := PublishCall(s.draft) in log && w.publish == Done;
            && (pushed ==> s'.status == Published)
            && (s'.status == Published && !pushed ==> s.status == Published)
  {
    hide Pass, LastIteration;
    PassPublishesNothing(0, w.audits);
    PassPublishesNothing(s.cp.iteration, w.audits);
    RequestPublishesExactly(s, r, w);
  }
}
