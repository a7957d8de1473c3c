# A verified model of the content tool's hard core

The content tool drives LLM-written articles through two review gates to WordPress.
This project models the parts of it that are hard to get right, and proves what they
are for. Every file is one component; `dafny verify dfyconfig.toml` checks them all.

| file | component |
|---|---|
| `WpClient.dfy` | one `upsert` call: a retried, non-idempotent create through an edge that loses and corrupts answers |
| `Publish.dfy` | the publish step, the target pin of the second gate, and the events that change a run's row |
| `PublishRuns.dfy` | the two together: whole runs whose publish calls are served by that client, on the posts of all instances |
| `Slug.dfy`, `SlugForms.dfy`, `Utf8.dfy`, `PyStr.dfy` | canonical slugs (percent-coding over UTF-8) and the choice between overwriting and creating |
| `Lifecycle.dfy`, `GateOutcomes.dfy` | the run's gates, its two bounded loops, the automatic first approval, and the routes beside the graph that restart, rewrite and republish, over any history of requests |
| `Prompts.dfy`, `PromptTexts.dfy`, `Personas.dfy` | the prompt include expander, drafts, and cloning a voice |
| `Json.dfy`, `JsonExactly.dfy`, `GeminiExtract.dfy`, `Replies.dfy`, `FenceLine.dfy`, `SourcePolicy.dfy`, `PolicyText.dfy` | JSON texts as Python reads them, finding an object in a model's reply, what a code fence costs, the canonical source policy |
| `StripAnchors.dfy` | the rewrite loop that removes tracked-change anchors |
| `FaqWidget.dfy`, `WidgetTexts.dfy`, `DiffRefine.dfy`, `Similarity.dfy` | the FAQ widget printed, cut into atoms and read back; pairing edited items in a diff |
| `EventLog.dfy`, `EventPlaces.dfy`, `Poller.dfy`, `Pages.dfy`, `LogMerge.dfy` | the batching event-log writer, the incremental reader over it, and the rows a panel shows |
| `TtlCache.dfy`, `TtlServes.dfy` | the single-flight TTL cache under interleaved coroutines |
| `Wrappers.dfy`, `Seqs.dfy`, `HexDigits.dfy` | what several modules share |

## How the model is built

Code that computes a value is a function. Code that works by changing things is a
class or a method with the source's loops and fields, proved equal to a function of
the old state; the theorems are about those functions, for all inputs, all runs and
all schedules. Whatever the program does not decide is a parameter or part of the
schedule: what the network does to a request, which query answer a database gives,
when a coroutine resumes, what a clock reads, and library functions such as
`str.lower`, `Date.parse` and the host check behind `urlsplit`.

Assumptions of the single parts:

- `WpClient`: a request is applied, if at all, before its outcome is seen. Only
  WordPress answers with the document of a post; anything else, JSON errors included,
  may answer any request, applied or not. A read-back that answers JSON is truthful. A
  slug that is free is stored as asked for. Other clients may add posts at any time.
  `post_id` is absent or positive: the URL is chosen by truthiness
  (content_tool/wordpress/client.py:298-306) but the gate by `is None` (281).
- `Publish`: events are approval, requests for changes, rejections, regenerations, slug
  edits, retargeting of the voice, taking the client, and publishing, in any order.
- `Lifecycle`: requests are served one at a time, no node but publish fails, and Gemini
  is configured. A history is *disciplined* when the outline route is used only at the
  outline gate and the second gate's route only there; the other routes may come at
  any time. A *leg* is what lies between two restarts. Whether an approval confirms the
  target that the gate works out is part of the world there; `Publish` models the check.
- `Personas`: the query returns the rows its filter selects, in any order.
- `Poller`: runs over every log the writer of `EventLog` can produce.
- `DiffRefine`: the inner diff reproduces both of its arguments.
- `SourcePolicy`: `str.lower` is idempotent and keeps trimmed text trimmed
  (`AsciiLowerIsLawful` shows the laws can be met).

## What came out

Some promises hold only under a condition. In each case the code is modelled as it is,
a run or an input that fails is given, and the condition is proved.

- Anchor stripping is run on every published body. On any balanced body it leaves no
  anchor, but it unwraps each anchor with its own closer if and only if no content
  follows a plain span inside an anchor; otherwise the plain span is stretched
  (`StripUnwrapsExactlyWhenTidy`, `PlainSpanStretched`).
- `MAX_HITL2_ROUNDS` is 3, and the third request for changes already ends the graph.
  The row's counter survives restarts, so a disciplined run has at most two revision
  passes over all its legs, and 4 + 2 * legs + regenerations writer calls: six in one
  leg without regeneration (`DisciplinedWork`). The bounds are met (`BoundsAreMet`).
  /regenerate calls the writer on a finished run each time it is asked, and nothing
  limits how often.
- The outline route `/resume` does not check which gate the run waits at. At the
  second gate it can publish on an old approval (`ResumeRepublishes`), and it can revise
  any number of times (`ResumeRevisesForever`). Over every history there are at most two
  revisions and one more for each such stray resume (`BoundedWork`).
- The graph publishes only on an approval of its present leg, but `/republish` asks for
  no gate: it publishes the latest draft even of a run that waits at the second gate
  (`RequestPublishesExactly`, `RepublishSkipsTheGate`). For a refresh run it is the pin
  check of the publish step that stops it (`RefreshWritesArePinned`).
- A revision restarts the iteration count, but what is published, and shown, is the draft
  with the highest iteration. So a revision that ends at a lower iteration than an earlier
  draft has is not what gets published, although each gate was answered as it should be
  (`RevisionIsNotPublished`). The draft published is the one audited last exactly
  unless the latest writing was such a revision (`PublishesLastAuditedExactly`).
- One create call never leaves two posts, and whatever it reports it has left one exactly
  when its last request was applied (`CreateLeavesAPostExactly`,
  `RejectedCreateCanLand`). A run knows of its post only when a call succeeds: a create
  run ends with at most one post if and only if no call that failed but left its post is
  followed by another that creates one (`OnePostExactly`). Published again after a JSON
  error behind the insert, a run has two (`SecondPost`).
- The publish step compares the pin with the voice's instance as it resolves *then*,
  while the write goes through the client taken earlier. In any run a write reaches the
  approved instance if and only if the voice points where it pointed when the client was
  last taken, as it does when it was not retargeted in between
  (`ThroughApprovedInstance`, `WrongInstanceRun`).
- A cloned voice sees every prompt body of its source if and only if the rows that the
  clone query skips are redundant (`CloneKeepsPrompts`).
- The object in a model's reply is found behind any brace-free prefix whose fence line
  ends before it, except when the whole candidate is itself JSON, as an array around
  the object is (`ExtractionInvertsPrinting`, `ArrayAroundTheObject`). When the object
  begins on the fence line, the reply is that of the text behind the line
  (`ReplyIsFromBehind`): a nested or a later object comes out in its place
  (`NextObjectComesOut`, `MemberComesOut`), never the object itself unless a brace
  follows it (`ComesOutExactly`, `LessComesOut`).
- Refining a diff keeps the committed text to the letter and every working item exactly
  once; the items keep their places, and the working text its letters, if and only if
  they are paired in order (`OrderKeptExactly`, `WorkingKeptExactly`). A new question put
  in front of an edited one is shown behind it (`NewItemMovesBehind`).

## Model

| member | source | states |
|---|---|---|
| `WpClient.FindPostBySlug` | content_tool/wordpress/client.py:351-382 | a read-back finds a post, one that exists and holds the slug, exactly when some post holds it |
| `WpClient.WordPressClient.Attempt` | content_tool/wordpress/client.py:293-312 | one request changes the posts, the request count and the created posts as the schedule says, and answers the classified response |
| `WpClient.WordPressClient.UpsertWithRetry` | content_tool/wordpress/client.py:253-291 | the attempt loop, for every schedule and on a client used before, ends in the outcome and the world that the recursive specification gives |
| `WpClient.CreateIsSound` | content_tool/wordpress/client.py:253-336 | from any attempt on: at most one post is created, its slug is held afterwards, and success names a post that exists |
| `WpClient.CreateAtMostOnce` | content_tool/wordpress/client.py:253-336 | under every schedule of landed and lost attempts, every response, JSON errors included, and foreign posts, one create call adds at most one post; exhausting the attempts leaves none; a returned post exists and is the one created unless others held its slug; without a slug one request is sent |
| `WpClient.CreateLeavesAPostExactly` | content_tool/wordpress/client.py:253-336 | whatever a create call reports, it has left exactly one post behind if its last request was applied, and none otherwise |
| `WpClient.RejectedCreateCanLand` | content_tool/wordpress/client.py:216-242 | the failing case: a request that is applied and answered by a JSON error |
| `WpClient.CreatedContentIsStripped` | content_tool/wordpress/client.py:178-204 | what a create stores has no closable anchor and otherwise the content it was given |
| `WpClient.UpdateTouchesOnlyItsTarget` | content_tool/wordpress/client.py:253-336 | retrying an update creates nothing, changes at most the target, and success means the target carries the payload |
| `WpClient.EffortIsBounded` | content_tool/wordpress/client.py:262-291 | requests never exceed the maximum, the sleeps of k attempts total base*(2^(k-1)-1), and giving up means the maximum was spent |
| `WpClient.RetriesOnlyWhenBlocked` | content_tool/wordpress/client.py:216-242 | a request is repeated only after answers that are not from WordPress; an update is given up exactly when all its attempts were blocked |
| `WpClient.CreateEndsExactly` | content_tool/wordpress/client.py:253-336 | under every schedule, how a create ends, by its last exchange: in a conflict exactly on a 412, in a rejection or a shape error exactly on a JSON document that is no post, without a slug exactly when blocked and there is none, inconclusive exactly when blocked with the read-back unreadable, given up exactly when the slug was looked for and not held, and else in success, with a post that holds the slug when one was found; it is sent again only after its slug was looked for |
| `WpClient.UpdateEndsExactly` | content_tool/wordpress/client.py:253-312 | the same for an update: success exactly when WordPress answers for a target that is there, given up exactly when the last of all attempts was blocked |
| `Publish.Run.PublishToWordpress` | content_tool/agents/publish.py:71-133 | the publish step on the row: the post id, the pin check, the voided approval, the one write and the push bookkeeping, as the step function says |
| `Publish.PinComesFromApproval` | content_tool/api/routes/runs.py:555-604 | at any point of any run a pin on the row is the target of an approval that still stands |
| `Publish.PushedComesFromWrite` | content_tool/agents/publish.py:157-198 | the pushed id is always the one the latest successful write of this run returned |
| `Publish.RefreshWritesArePinned` | content_tool/agents/publish.py:71-132 | in any interleaving, a first write of a refresh run goes to exactly the standing approval's target; a later one goes to the pushed post or asks for a new one |
| `Publish.MismatchNeedsNewApproval` | content_tool/agents/publish.py:104-128 | between a mismatch and the next first write there is a new approval |
| `Publish.CreateRunReusesItsPost` | content_tool/agents/publish.py:71-103 | a create run's call asks for a new post if and only if no call succeeded before, and otherwise for the post of its latest push |
| `Publish.ThroughApprovedInstance` | content_tool/agents/publish.py:86-128 | in any run, the first write of a refresh goes through the instance that the standing approval confirmed if and only if the voice points where it pointed when the client was last taken; without a retargeting since then it does |
| `Publish.WrongInstanceRun` | content_tool/api/sse.py:319-331 | a run in which the write goes through another instance than the approved one |
| `Publish.GateRecords` | content_tool/api/routes/runs.py:555-604 | a decision that is taken is on the row with its slug, only an approval of a refresh leaves a pin, and a refused decision changes nothing |
| `Publish.ApprovalNamesTheWrite` | content_tool/api/routes/runs.py:516-553 | an approval of a refresh is accepted if and only if it names the post and the instance of the write that publishing at once would make, with the slug it is about to store |
| `Publish.ApprovedIsPublished` | content_tool/agents/publish.py:71-133 | in any run such an approval, published at once, writes to the post and through the instance it confirmed |
| `Publish.PublishRecords` | content_tool/agents/publish.py:104-200 | what a publish call leaves on the row, for each way it can end |
| `Publish.MismatchExactly` | content_tool/agents/publish.py:104-128 | a first write of a refresh fails for its target if and only if the pin is not the write it would make |
| `Publish.OtherEvents` | content_tool/api/routes/runs.py:1470-1552 | a regeneration, a slug edit, a retargeting, a refetch and taking the client change one thing each and write nothing |
| `PublishRuns.RowFollowsPublish` | content_tool/agents/publish.py:71-200 | with every call served by the client, the row goes through the run of `Publish` whose publish results are the client's answers, so what is proved there holds |
| `PublishRuns.OnePostPerAttempt` | content_tool/agents/publish.py:157-198 | a run of either mode never creates more posts than it asks for, on all instances together |
| `PublishRuns.FirstOfTwoFailed` | content_tool/agents/publish.py:157-200 | of two calls of a create run that create a post, the earlier one reported a failure |
| `PublishRuns.OnePostExactly` | content_tool/agents/publish.py:71-200 | a create run has created at most one post if and only if no failed call whose last request was applied is followed by a call that creates one |
| `PublishRuns.SecondPost` | content_tool/api/routes/runs.py:1362-1443 | the run that fails: created behind a JSON error, published again, two posts and the row names the second |
| `Utf8.DecodeOneEncoded` | content_tool/wordpress/slug.py:20-31 | each character, encoded and followed by anything, is the first one decoded |
| `Utf8.DecodeEncoded` | content_tool/wordpress/slug.py:20-31 | UTF-8 decoding undoes encoding (section 3 of RFC 3629) |
| `Utf8.EncodeIsUtf8` | content_tool/wordpress/slug.py:20-31 | the encoding has the forms of section 3 of RFC 3629, by code point, lead byte and tail bits |
| `Utf8.IllFormedIsReplaced` | content_tool/wordpress/slug.py:20-31 | bytes that begin with no character's form are decoded to the replacement character |
| `Utf8.LongestStartIsReplaced` | content_tool/wordpress/slug.py:20-31 | and take up as many bytes as begin some character's form, at least one |
| `Slug.UnquoteQuoted` | content_tool/wordpress/slug.py:20-31 | percent-decoding undoes percent-encoding (section 2.1 of RFC 3986), for every text |
| `Slug.CanonicalKeepsMeaning` | content_tool/wordpress/slug.py:20-31 | the canonical slug decodes to the decoded trimmed input |
| `Slug.CanonicalIsIdempotent` | content_tool/wordpress/slug.py:20-31 | canonicalising twice is canonicalising once |
| `Slug.CanonicalSeparates` | content_tool/wordpress/slug.py:20-31 | two slugs share a canonical form exactly when they trim and decode alike |
| `Slug.CanonicalKeepsTarget` | content_tool/wordpress/slug.py:53-80 | a raw slug and its canonical form resolve to the same post id |
| `Slug.GivesUpExactly` | content_tool/wordpress/slug.py:53-80 | an existing post is given up exactly when its URL has a slug and a different non-blank one is asked for |
| `Slug.UrlEndingInSlugKeepsId` | content_tool/wordpress/slug.py:34-80 | a URL whose path ends in the canonical slug keeps the id |
| `Slug.AbsoluteUrlPath` | content_tool/wordpress/slug.py:34-50 | the path of an absolute https URL is what follows its host |
| `Slug.SameSlugOverwrites` | content_tool/wordpress/slug.py:34-80 | typing a published article's own slug, raw or coded, overwrites it |
| `SlugForms.QuoteByCharacter` | content_tool/wordpress/slug.py:20-31 | quoting goes character by character: letters, digits and `_.-~` stay, of others every byte of the UTF-8 form is written as a percent sign and two upper-case digits |
| `SlugForms.AnySpellingIsRead` | content_tool/wordpress/slug.py:20-31 | however a text is spelled with escapes, of either case, it is read as that text |
| `SlugForms.EveryFormGivesOneSlug` | content_tool/wordpress/slug.py:20-31 | a slug typed as it reads and in any escaped spelling has one canonical form, its quoted text |
| `SlugForms.AnyAddressPath` | content_tool/wordpress/slug.py:34-50 | the path of an absolute address of any scheme, with a query or a fragment behind it, is what follows its host up to there |
| `SlugForms.BarePath` | content_tool/wordpress/slug.py:34-50 | without a scheme the text itself is the path, up to its query or fragment |
| `SlugForms.SlugOfAddress` | content_tool/wordpress/slug.py:34-50 | the slug of an address is the last segment of its path that is not empty, decoded |
| `Prompts.SuccessMeansFine` | content_tool/prompts_store.py:199-225 | a successful expansion means every include path ends at an existing template not yet on it |
| `Prompts.ErrorHasPath` | content_tool/prompts_store.py:199-225 | every error comes with the include path that causes it, missing template or cycle |
| `Prompts.SucceedsExactly` | content_tool/prompts_store.py:199-236 | expansion terminates and succeeds if and only if every reachable include exists and no reachable cycle does |
| `Prompts.UnfoldingExactly` | content_tool/prompts_store.py:199-225 | the expander agrees with unfolding the text level by level, for any library |
| `Prompts.ResolvesToTheUnfolding` | content_tool/prompts_store.py:199-236 | the result is a text if and only if it is the finite unfolding, which needs no more levels than there are names |
| `Prompts.OverridesAreSaves` | content_tool/prompts_store.py:297-321 | expanding with drafts equals expanding in the library where the drafts are stored |
| `Prompts.PreviewEqualsSave` | content_tool/prompts_store.py:239-255 | assembling with drafts equals assembling from the snapshot in which they were saved, the route's own body unchanged |
| `Prompts.NoDraftsPlainAssembly` | content_tool/prompts_store.py:239-255 | no drafts, plain assembly |
| `Prompts.SameBodiesSamePrompts` | content_tool/prompts_store.py:199-236 | voices that see the same bodies assemble the same prompts |
| `PromptTexts.FirstDirective` | content_tool/prompts_store.py:50 | the first include directive of any text is recognised, with its name, and reading goes on behind it |
| `PromptTexts.PlainBodyIsAssembled` | content_tool/prompts_store.py:199-236 | a stored body without the opening of a directive is assembled as it stands |
| `PromptTexts.DirectiveIsReplaced` | content_tool/prompts_store.py:199-225 | a text before a directive, the assembled partial without its last newlines, and the assembled rest make up the assembled text, if there is one; a partial without row and file is an error |
| `PromptTexts.PlainPartialIsInserted` | content_tool/prompts_store.py:199-225 | a partial without includes is put in the directive's place, whatever else the body holds |
| `PromptTexts.OnlyFinalNewlinesGo` | content_tool/prompts_store.py:216-225 | of an included partial only the newlines at the end go, and all of them |
| `PromptTexts.ChainFallsBack` | content_tool/prompts_store.py:174-196 | a voice's own row is all it sees; without one it sees the shared row, and without that the bundled file |
| `PromptTexts.NameCharsListed` | content_tool/prompts_store.py:50 | how a directive begins, and which characters its name may have |
| `Personas.ResolvedPromptRows` | content_tool/policy/personas.py:175-185 | the loop over the rows computes the specified map |
| `Personas.ResolvedPicks` | content_tool/policy/personas.py:175-185 | whatever the row order, the pick is the source's own row, else the shared one, else none |
| `Personas.PickedBody` | content_tool/policy/personas.py:244-256 | over a query answer in any order the pick is the stored own row if selected, else the shared one |
| `Personas.CloneSeesSourceBody` | content_tool/policy/personas.py:244-268 | for one template: the clone sees the source's body exactly when a skipped own row equals the shared chain |
| `Personas.CloneKeepsPrompts` | content_tool/policy/personas.py:244-268 | the clone preserves all bodies if and only if the skipped rows are redundant, and then every prompt assembles alike |
| `Personas.CloneLeavesOthersAlone` | content_tool/policy/personas.py:244-268 | no other voice's prompts change |
| `Personas.CloneRowsExactly` | content_tool/policy/personas.py:244-268 | the clone has a row for exactly the agent prompts and partials its source or the shared voice has, copied from the source before the shared voice |
| `Lifecycle.RunProduction` | content_tool/graph/production.py:118-144 | the writer and audit loop of one pass does the specified actions and ends at the specified iteration |
| `Lifecycle.PassWrites` | content_tool/graph/production.py:118-144 | a pass calls the writer once, and a second time exactly when the first audit fails with an iteration left; it ends with an audit |
| `Lifecycle.DrivePublishesExactly` | content_tool/api/sse.py:353-424 | a drive publishes exactly when it starts before publish_or_revise with an approval and a client |
| `Lifecycle.RequestPublishesExactly` | content_tool/api/routes/runs.py:1362-1443 | any request publishes if and only if it is a republish of a draft with a client, or an accepted decision or a resume that drives the graph before publish_or_revise with an approval and a client |
| `Lifecycle.PublishNeedsApproval` | content_tool/graph/root.py:45-135 | in any history, whatever publishes other than the republish route does so before publish_or_revise, and the latest decision taken since the last restart is an approval |
| `Lifecycle.RepublishSkipsTheGate` | content_tool/api/routes/runs.py:1362-1443 | a run that waits at the second gate, no decision taken, is published by the republish route |
| `Lifecycle.DisciplinedPublishesOnApproval` | content_tool/graph/root.py:45-135 | with each gate answered by its own route, publishing is exactly the answer to an approval that confirms its target, or a republish once production was entered |
| `Lifecycle.ResumeRepublishes` | content_tool/api/routes/runs.py:406-448 | a history in which the outline route publishes again |
| `Lifecycle.DraftsFollowProduction` | content_tool/graph/production.py:118-144 | in any history there is a draft exactly when production was entered, and only then can the run have failed |
| `Lifecycle.LatestDraftExactly` | content_tool/graph/root.py:91-107 | at any point of any history the latest draft is the one audited last, exactly unless the latest writing was a revision that ended at a lower iteration than an earlier draft has |
| `Lifecycle.PublishesLastAuditedExactly` | content_tool/agents/publish.py:49-55 | whatever publishes pushes the latest draft, so it is the one audited last under exactly that condition |
| `Lifecycle.RevisionIsNotPublished` | content_tool/agents/publish.py:49-55 | a disciplined run in which the approval of a revision publishes the draft from before it |
| `Lifecycle.ProductionEnteredOnce` | content_tool/api/sse.py:353-424 | in every leg the outline gate is passed at most once, by the automatic approval or a request, never both |
| `Lifecycle.HandleWork` | content_tool/api/routes/runs.py:406-1552 | what one request, refused ones included, may do: at most one revision, and that one a request for changes below the limit or a stray resume; a leg exactly for a restart of a failed run, a regeneration exactly when the route's guard lets it |
| `Lifecycle.RevisionsBounded` | content_tool/graph/root.py:91-107 | at every step of any history the row's counter and the stray resumes bound the revisions, and these with the regenerations the writer calls |
| `Lifecycle.BoundedWork` | content_tool/graph/root.py:31-135 | any history, over all its legs: at most 2 + strays revisions and 2 * (legs + 2 + strays) + regenerations writer calls |
| `Lifecycle.DisciplinedWork` | content_tool/graph/root.py:31-135 | a disciplined history: at most two revisions over all legs and 4 + 2 * legs + regenerations writer calls, six in one leg without regeneration |
| `Lifecycle.BoundsAreMet` | content_tool/api/routes/runs.py:1470-1552 | for every n a disciplined run with two revisions, n regenerations and 6 + n writer calls, its graph ended by the third request for changes |
| `Lifecycle.ResumeRevisesForever` | content_tool/api/routes/runs.py:406-448 | for every n a run with n stray resumes and 2 + n revisions, so the bound over all histories is met |
| `GateOutcomes.OutlineAccepted` | content_tool/api/routes/runs.py:406-448 | accepting the outline writes and audits once or twice and leaves the run before its second gate, with its draft, told so in the row |
| `GateOutcomes.Approved` | content_tool/api/sse.py:353-424 | a confirmed approval publishes the latest draft and the row reads how that went; without a client the graph ends and the row stays at publishing, and behind a failure the graph stays where it was |
| `GateOutcomes.ChangesAsked` | content_tool/graph/root.py:91-107 | the first two requests for changes make a revision pass, the third ends the run; each is counted in row and checkpoint |
| `GateOutcomes.RefusedAtTheGate` | content_tool/api/routes/runs.py:490-604 | an approval of another target and a request for changes behind the third change nothing |
| `GateOutcomes.StrayResume` | content_tool/api/routes/runs.py:406-448 | the outline's route at the second gate publishes, rejects, ends or revises by the decision that stands |
| `GateOutcomes.Repushed` | content_tool/api/routes/runs.py:1362-1443 | a republish pushes the latest draft and tells the row, which a target mismatch leaves alone |
| `GateOutcomes.EndedStaysEnded` | content_tool/graph/root.py:106-135 | in any history a graph that has ended stays ended until the run is restarted, and no pass is made |
| `GateOutcomes.PublishedIsPushed` | content_tool/api/sse.py:353-424 | in any history the row reads published only behind a push that WordPress took, and has read so ever since |
| `Json.ReadPrinted` | content_tool/source_policy_store.py:108-114 | reading the head of a text gives the value written there and the rest, for every layout and every escape, lone surrogates included (sections 2 to 8 of RFC 8259) |
| `Json.LoadsPrinted` | content_tool/source_policy_store.py:108-114 | `json.loads` of any way of writing a value is that value |
| `JsonExactly.LoadsExactly` | content_tool/gemini/client.py:130-133 | a text is read as a value if and only if it is one of the ways to write that value, with white space around it; so anything else is an error |
| `JsonExactly.NumberExactly` | content_tool/gemini/client.py:130-133 | a number is read if and only if it has the form of section 6 of RFC 8259, or is one of the three that Python adds |
| `GeminiExtract.FirstBlock` | content_tool/gemini/client.py:135-155 | the character loop with depth, in_str and esc finds the specified block |
| `GeminiExtract.ParseGeminiJson` | content_tool/gemini/client.py:113-166 | fence, tag, whole text, first block, error: the method computes the specified reply |
| `GeminiExtract.ScanPrinted` | content_tool/gemini/client.py:135-155 | the scanner passes over any printed value with depth and state unchanged, whatever braces, quotes and escapes its strings hold |
| `GeminiExtract.ScanDict` | content_tool/gemini/client.py:135-155 | it stops exactly behind a printed object that it entered at depth zero |
| `GeminiExtract.BlockIsTheObject` | content_tool/gemini/client.py:135-160 | behind a brace-free prefix the first block is exactly the object's text, which reads as its value |
| `GeminiExtract.CandidateHolds` | content_tool/gemini/client.py:122-129 | peeling fence, closing fence, tag and white space keeps the object and a brace-free prefix |
| `GeminiExtract.ExtractionInvertsPrinting` | content_tool/gemini/client.py:113-166 | brace-free prefix, any serialization of any object, any suffix: the object comes out, if and only if the candidate does not read as another value; only an array or a string around it can |
| `GeminiExtract.ArrayAroundTheObject` | content_tool/gemini/client.py:130-133 | an object alone in an array comes out as the array |
| `Replies.AcceptedExactly` | content_tool/gemini/client.py:113-166 | a value comes out of a reply if and only if it is that of the peeled text or, that being no JSON, of its first balanced block |
| `Replies.RejectedExactly` | content_tool/gemini/client.py:113-166 | a reply is an error if and only if there is text, the peeled text is no JSON, and neither is its first balanced block if it has one |
| `Replies.NoBraceNoBlock` | content_tool/gemini/client.py:138-166 | a text without an opening brace whose peeled text is no JSON is an error |
| `Replies.ValueStandsInReply` | content_tool/gemini/client.py:113-166 | whatever value comes out of a reply is read from a contiguous stretch of it |
| `Replies.BareValueIsRead` | content_tool/gemini/client.py:113-133 | any value in any layout, with white space around it, comes out |
| `Replies.FencedValueIsRead` | content_tool/gemini/client.py:122-133 | any value in a code fence comes out: whatever the fence's line says, with or without a line that says json, closed or not |
| `Replies.FencedLineIsRead` | content_tool/gemini/client.py:122-133 | a fence and its value on one line: the value comes out |
| `Replies.SmallPrint` | content_tool/gemini/client.py:119-129 | no text at all gives an empty object; what a fence is, and a tag line, in letters of either case |
| `FenceLine.ReplyIsFromBehind` | content_tool/gemini/client.py:122-124 | when the fence line runs on into the object, on one line or several, the reply is that of the text behind the line |
| `FenceLine.ObjectOnTheFenceLineIsLost` | content_tool/gemini/client.py:122-124 | when the line ends behind the object, the reply is the same for every object |
| `FenceLine.NextObjectComesOut` | content_tool/gemini/client.py:122-160 | when the first brace behind the line opens an object, that one comes out, if and only if the candidate does not read as another value |
| `FenceLine.LoadsBraces` | content_tool/gemini/client.py:130 | reading a JSON text keeps the number of opening braces, in structure, strings and escapes alike |
| `FenceLine.LessComesOut` | content_tool/gemini/client.py:113-166 | what comes out behind such a line has fewer opening braces than the object and the text after it together |
| `FenceLine.ComesOutExactly` | content_tool/gemini/client.py:113-166 | with no brace before or behind it the object comes out if and only if the fence line ends before it and the candidate does not read as another value |
| `FenceLine.MemberComesOut` | content_tool/gemini/client.py:122-160 | with only the opening brace on the fence line the single member comes out instead of the object |
| `SourcePolicy.CleanList` | content_tool/source_policy_store.py:47-63 | the loop with out and seen computes the specified list |
| `SourcePolicy.FirstsAreFirstOccurrences` | content_tool/source_policy_store.py:47-63 | a cleaned list holds exactly the non-blank normal forms, each once, in the order of their first occurrences |
| `SourcePolicy.CleanedListIsNormal` | content_tool/source_policy_store.py:47-63 | a cleaned list holds only trimmed, lower-cased, non-blank texts, each once, and every raw item that already is one |
| `SourcePolicy.PromptBlockIsTrimmed` | content_tool/source_policy_store.py:96-104 | a non-blank prompt block is kept, only its surrounding white space goes |
| `SourcePolicy.CleanIsIdempotent` | content_tool/source_policy_store.py:71-105 | cleaning a clean policy changes nothing |
| `SourcePolicy.CleanKeepsMeaning` | content_tool/source_policy_store.py:71-105 | each of the six lists and the prompt block read the same before and after cleaning |
| `SourcePolicy.LoadsDumped` | content_tool/source_policy_store.py:108-114 | reading dumped JSON gives the value back |
| `SourcePolicy.CanonicalIsFixedPoint` | content_tool/source_policy_store.py:71-114 | parsing the canonical text gives the cleaned policy, whose canonical text is the same |
| `SourcePolicy.CanonicalSeparates` | content_tool/source_policy_store.py:108-114 | two policies share a canonical text exactly when they clean to the same policy |
| `SourcePolicy.AsciiLowerIsLawful` | content_tool/source_policy_store.py:57-59 | ASCII lower-casing meets the laws asked of `str.lower` |
| `PolicyText.DumpedText` | content_tool/source_policy_store.py:108-114 | the dumped text of every value, character by character, escapes included |
| `PolicyText.CanonicalText` | content_tool/source_policy_store.py:71-114 | the canonical text of any policy: three sections and their lists under fixed keys in fixed order, the prompt block last and only when not blank, nothing between |
| `PolicyText.ListedExactly` | content_tool/source_policy_store.py:47-63 | a list holds exactly the lower-cased trimmed texts of the raw items that are not blank |
| `StripAnchors.StripAnchorSpans` | content_tool/wordpress/strip_anchors.py:20-30 | the loop terminates with the specified fixed point |
| `StripAnchors.PassShrinks` | content_tool/wordpress/strip_anchors.py:14-30 | a pass never grows the text, and keeps its length only by changing nothing |
| `StripAnchors.FixedPointHasNoClosableAnchor` | content_tool/wordpress/strip_anchors.py:14-30 | a text no pass changes has no anchor opener with a closer behind it |
| `StripAnchors.PassKeepsContent` | content_tool/wordpress/strip_anchors.py:14-30 | a pass keeps text, plain spans and other tags in order |
| `StripAnchors.StripIsSafe` | content_tool/wordpress/strip_anchors.py:14-30 | for any text: no closable anchor is left, content survives in order, a second run changes nothing |
| `StripAnchors.BalancedStripIsSweep` | content_tool/wordpress/strip_anchors.py:14-30 | on a balanced text the fixed point is one sweep; it is balanced and has no anchor |
| `StripAnchors.SweepAgainstUnwrap` | content_tool/wordpress/strip_anchors.py:14-30 | from any point on, the sweep agrees with unwrapping each anchor with its own closer exactly when the rest is tidy |
| `StripAnchors.StripUnwrapsExactlyWhenTidy` | content_tool/wordpress/strip_anchors.py:14-30 | on a balanced text the result unwraps exactly the anchors if and only if the text is tidy |
| `StripAnchors.PlainSpanStretched` | content_tool/wordpress/strip_anchors.py:14-30 | the smallest failing shape: a plain span inside an anchor swallows the text behind it |
| `StripAnchors.LeftmostAnchorGoes` | content_tool/wordpress/strip_anchors.py:14-30 | a pass takes out the leftmost anchor opener with the first closer behind it, leaves what stands between, and goes on behind it |
| `StripAnchors.NothingGoesExactly` | content_tool/wordpress/strip_anchors.py:14-30 | a text is left as it is if and only if no anchor opener has a closer behind it |
| `StripAnchors.OpenersGoWithClosers` | content_tool/wordpress/strip_anchors.py:14-30 | for any text, every opener that goes takes one closer with it |
| `FaqWidget.MatchDivClose` | web/lib/faq-diff.ts:71-93 | the loop over div tags ends where the depth comes back to zero |
| `FaqWidget.EndIsClose` | web/lib/faq-diff.ts:71-93 | a part of a text is matched as it would be alone |
| `FaqWidget.MatchFindsTheClose` | web/lib/faq-diff.ts:71-93 | the close of any well-nested div is found, whatever is inside it and behind it |
| `FaqWidget.QuestionIsRead` | web/lib/faq-diff.ts:59-69 | the reader takes exactly the question out of an item, if and only if it holds no span tag |
| `FaqWidget.AnswerIsRead` | web/lib/faq-diff.ts:59-69 | it takes exactly the answer, if and only if that holds no closing paragraph tag and the question holds no paragraph that is read in its place |
| `FaqWidget.ItemIsRead` | web/lib/faq-diff.ts:65-69 | an item reads back as its pair in every layout, active or not |
| `FaqWidget.CanonicalIsItem` | web/lib/faq-diff.ts:34-45 | the canonical text is the item without styling and white space |
| `FaqWidget.AtomIsRead` | web/lib/faq-diff.ts:34-69 | reading a canonical atom gives back its pair |
| `FaqWidget.AtomIsRecognised` | web/lib/faq-diff.ts:47-57 | every canonical atom is recognised as one, whatever its texts |
| `FaqWidget.AtomIgnoresStyling` | web/lib/faq-diff.ts:65-69 | the atom made of an item does not depend on position, styling or white space |
| `FaqWidget.PushItems` | web/lib/faq-diff.ts:122-130 | the item loop pushes one atom for each item region |
| `FaqWidget.PushFaqRegionTokens` | web/lib/faq-diff.ts:95-133 | the tokens of the region go onto the end of the list |
| `FaqWidget.BuildFaqHtml` | content_tool/agents/render_html.py:74-96 | the loop over the pairs builds the widget's lines |
| `FaqWidget.ItemLinesAreTheItem` | content_tool/agents/render_html.py:79-94 | the six printed lines are one well-nested div in the printed layout |
| `FaqWidget.WidgetIsCutIntoAtoms` | web/lib/faq-diff.ts:95-133 | cutting up the printed widget gives the two openers, one atom for each pair in order, and the two closers |
| `FaqWidget.AtomsAreRead` | web/lib/faq-diff.ts:65-69 | reading the k-th atom gives the k-th pair |
| `FaqWidget.MarkupFreeIsReadable` | content_tool/agents/render_html.py:74-96 | texts without markup qualify, a bare less-than sign included |
| `WidgetTexts.QuestionOfAnyText` | web/lib/faq-diff.ts:59-69 | the question of any text is what stands between the first head tag and the next span, and empty without either |
| `WidgetTexts.AnswerOfAnyText` | web/lib/faq-diff.ts:59-69 | the answer likewise, between the first paragraph tags |
| `WidgetTexts.CanonicalText` | web/lib/faq-diff.ts:34-45 | the canonical item, written out |
| `WidgetTexts.RecognisedExactly` | web/lib/faq-diff.ts:47-57 | a token is taken for an item by its first tag, the head's class somewhere in it, and its end, and by nothing else |
| `WidgetTexts.TagIsRead` | web/lib/faq-diff.ts:71-93 | any div tag is read, opening or closing, whatever the case of its name |
| `WidgetTexts.OnlyTagsAreRead` | web/lib/faq-diff.ts:71-93 | and nothing else is |
| `WidgetTexts.UnclosedReachesTheEnd` | web/lib/faq-diff.ts:71-93 | a div that is never closed reaches to the end of the text |
| `WidgetTexts.AnyRegionIsCut` | web/lib/faq-diff.ts:95-133 | however a region is indented, styled and filled in between, it is cut into its two tags, one token for each item in order, and two closing tags |
| `WidgetTexts.RegionIsKept` | web/lib/faq-diff.ts:108-119 | a text that does not open with two div tags stays in one piece |
| `WidgetTexts.PrintedWidget` | content_tool/agents/render_html.py:74-96 | the printed widget, written out, and nothing for no items |
| `DiffRefine.FindBest` | web/lib/faq-diff.ts:184-195 | the inner scan finds the best unused item, the last of equals, or none above the threshold |
| `DiffRefine.BestIsBest` | web/lib/faq-diff.ts:184-195 | the scan's result is unused, above the threshold and beaten by no other |
| `DiffRefine.SimilarityOfAtoms` | web/lib/faq-diff.ts:137-148 | two atoms are compared by the words of the pairs they were made from |
| `DiffRefine.RefineRun` | web/lib/faq-diff.ts:180-205 | one removed run beside one added run is refined as specified |
| `DiffRefine.RefineFaqItemEdits` | web/lib/faq-diff.ts:168-212 | the loop over the parts computes the specified parts |
| `DiffRefine.CommittedIsKept` | web/lib/faq-diff.ts:168-212 | refining never changes the committed text |
| `DiffRefine.RunWorking` | web/lib/faq-diff.ts:180-205 | a run's working text is its added items in the order of the pairing |
| `DiffRefine.EveryItemOnce` | web/lib/faq-diff.ts:180-205 | that order names every added item exactly once |
| `DiffRefine.WorkingIsReordered` | web/lib/faq-diff.ts:168-212 | refining changes the working text only by reordering items within their runs |
| `DiffRefine.OrderKeptExactly` | web/lib/faq-diff.ts:180-205 | the items of a run keep their places if and only if they are paired in order, with unpaired ones last |
| `DiffRefine.WorkingIsKept` | web/lib/faq-diff.ts:168-212 | with every run paired in order the working text is kept to the letter |
| `DiffRefine.CutAlike` | web/lib/faq-diff.ts:71-93 | equally many canonical items with the same text are the same items, whatever stands behind them |
| `DiffRefine.WorkingKeptExactly` | web/lib/faq-diff.ts:168-212 | for runs of different canonical items, over whole texts: the working text is kept to the letter if and only if every run is paired in order |
| `DiffRefine.LatePairMovesAhead` | web/lib/faq-diff.ts:180-205 | an item paired past an unpaired one moves in front of it |
| `DiffRefine.NewItemMovesBehind` | web/lib/faq-diff.ts:137-205 | with the code's own similarity and atom test: a new question put in front of an edited one ends up behind it |
| `Similarity.ItemWordsExactly` | web/lib/faq-diff.ts:137-148 | an item's words are what stands between white space in its question and its answer |
| `Similarity.SimilarityExactly` | web/lib/faq-diff.ts:137-148 | two items are as alike as the share of common words among all their words |
| `Similarity.MatchedExactly` | web/lib/faq-diff.ts:150-195 | a removed item is matched if and only if an unused added one is alike to at least two fifths |
| `DiffRefine.RunIsDiffedInside` | web/lib/faq-diff.ts:180-205 | a run comes out piece by piece in committed order: for each paired item what the inner diff gives for it and its best unused match, for each unpaired one a whole removal, and behind them the unpaired added items |
| `DiffRefine.EditIsDiffedInside` | web/lib/faq-diff.ts:180-205 | one edited item beside its new form, at or above the threshold, comes out as its inner diff |
| `DiffRefine.RunsAreRefined` | web/lib/faq-diff.ts:168-212 | a removed run of items with an added run behind it is refined wherever it stands, and what follows is refined on its own |
| `DiffRefine.OthersAreKept` | web/lib/faq-diff.ts:168-212 | any other part is kept as it is |
| `EventLog.RunEventLogWriter.Enqueue` | content_tool/observability/event_log.py:215-239 | enqueuing adds the item, or drops a thinking event when those are not kept |
| `EventLog.RunEventLogWriter.BuildBatch` | content_tool/observability/event_log.py:276-323 | the batch loop builds the specified rows and counters, up to the failing query or the raising row if there is one |
| `EventLog.RunEventLogWriter.Flush` | content_tool/observability/event_log.py:247-284 | a flush drains the queue, numbers its rows, and commits or loses the batch as the outcome says |
| `EventLog.StepOfNode` | content_tool/observability/event_log.py:36-58 | the start and the done event of one node have that node as their step |
| `EventLog.AlwaysGood` | content_tool/observability/event_log.py:215-323 | numbering and order hold after any mix of enqueues, flushes, failures and restarts |
| `EventLog.CommittedInOrder` | content_tool/observability/event_log.py:247-323 | committed rows of a stream follow enqueue order with strictly increasing numbers |
| `EventLog.GapsAreLosses` | content_tool/observability/event_log.py:269-323 | a row's number exceeds its rank by at most the numbers its stream had lost, by failed batches and by rows that raised, before the row was committed |
| `EventLog.CommitsGoUp` | content_tool/observability/event_log.py:247-284 | what an event adds to a stream is numbered above everything the stream had |
| `EventLog.DurationsAreFromLatestStart` | content_tool/observability/event_log.py:103-121 | every done row's duration is measured from the latest earlier processed start of its stream and step in that writer, and no other row has one |
| `EventPlaces.FlushWritesTheQueue` | content_tool/observability/event_log.py:247-284 | a committed flush adds one row for each queued event, with its stream and name, in queue order behind the table, and empties the queue; a failed one leaves the table alone |
| `EventPlaces.FlushNumbers` | content_tool/observability/event_log.py:269-323 | a flush numbers each stream from where it stands; a committed row carries its number, and a failed flush uses up the numbers of exactly the events it reached |
| `EventPlaces.TicketsAreTrue` | content_tool/observability/event_log.py:215-284 | every queued or processed item is the event that was enqueued under its ticket |
| `EventPlaces.EachInOnePlace` | content_tool/observability/event_log.py:215-284 | in any run each enqueued event is in exactly one place: a committed row, the queue, or lost to a failed flush or a restart |
| `EventPlaces.RowsAreTheEvents` | content_tool/observability/event_log.py:284-323 | every row carries the stream and the name of the event enqueued under its ticket |
| `EventPlaces.StepExactly` | content_tool/observability/event_log.py:36-58 | an event's step is its last part, or the part before it when the last is one of the six lifecycle verbs |
| `Poller.ComputeHighestSeq` | web/lib/debug-log.ts:22-28 | the loop finds the highest number |
| `Poller.DebugLogPanel.OnPage` | web/components/DebugLogPanel.tsx:82-93 | a page moves the cursor and is merged by number |
| `Poller.StepFits` | web/components/DebugLogPanel.tsx:66-98 | every commit, question, answer and delivery keeps the panel in step with the table |
| `Poller.PanelIsComplete` | web/components/DebugLogPanel.tsx:66-98 | in every interleaving the rows are ascending without duplicates, and once the cursor is positive they are exactly the stream's rows up to it |
| `Poller.QuietPollCatchesUp` | content_tool/observability/event_log_query.py:56-65 | an undisturbed poll, the first and one with cursor zero included, brings everything, or the next full page |
| `Pages.PageExactly` | content_tool/observability/event_log_query.py:42-65 | a page holds rows of the stream above the cursor, ascending, at most the limit kept between 1 and 10000, and leaves one out only when it is full, and then one above all it holds |
| `Pages.AbsorbedExactly` | web/components/DebugLogPanel.tsx:66-98 | for any panel and any page: the cursor moves to the highest number, rows replace those of their number, all others stay, and the result ascends |
| `Pages.QuietRunCatchesUp` | web/components/DebugLogPanel.tsx:66-98 | in any run, a poll that nothing interrupts brings the panel all of the stream, or 2000 rows more than it held |
| `LogMerge.MergeLogRows` | web/lib/debug-log.ts:76-109 | the loops show the persisted rows by number and behind them the specified live tail |
| `LogMerge.ShownOnce` | web/lib/debug-log.ts:76-109 | live rows are distinct, beyond the latest persisted time and in order of time |
| `LogMerge.ShownExactly` | web/lib/debug-log.ts:76-109 | a live row with a given name and time is shown if and only if some live event that has them is later than every persisted row, and no persisted row has them |
| `LogMerge.ShownInOrder` | web/lib/debug-log.ts:76-109 | the panel shows every persisted row in the order of the numbers, and behind them live events in order of time, none twice, each later than every persisted row |
| `LogMerge.SortedIsStable` | web/lib/debug-log.ts:76-109 | rows with equal keys stay in the order in which they came |
| `TtlCache.Cache.Enter` | content_tool/api/wp_options_cache.py:36-45 | a call returns a fresh entry at once, and otherwise asks for the lock |
| `TtlCache.Cache.Recheck` | content_tool/api/wp_options_cache.py:45-50 | with the lock held the entry is looked at again before the loader starts |
| `TtlCache.Cache.Finish` | content_tool/api/wp_options_cache.py:50-52 | the loaded value is stored with the time and the lock released |
| `TtlCache.AlwaysGood` | content_tool/api/wp_options_cache.py:29-52 | lock ownership, entry and return invariants hold in every interleaving |
| `TtlCache.SingleFlightFreshness` | content_tool/api/wp_options_cache.py:29-52 | loads of a key never overlap, stored loads are at least ttl apart, and every returned value was fresh at a clock reading of the call or loaded by it |
| `TtlServes.CallCanReturn` | content_tool/api/wp_options_cache.py:29-52 | in any run a call that has not ended can still return, in at most three more steps |
| `TtlServes.CrowdIsServedByOneLoad` | content_tool/api/wp_options_cache.py:29-52 | whoever waits while a value is loaded gets that value and starts no load, however many there are |
| `TtlServes.ServedForItsTime` | content_tool/api/wp_options_cache.py:36-52 | a loaded value is returned to whoever comes less than the time-to-live later, and loaded again for the first who comes after |
| `TtlServes.FailureIsRetried` | content_tool/api/wp_options_cache.py:45-52 | a loader that raises stores nothing and leaves the lock free, and the next call loads |

## Left out

- The database, HTTP, LangGraph, Gemini and Supabase calls themselves; their outcomes are parameters.
- `str.lower`, `str` of a value that is no string, `Date.parse` and the host part of `urlsplit`: parameters with stated laws.
- The limits of `json.loads` on nesting depth and on the digits of a number.
- Policy texts with lone surrogates, which cannot be encoded and so cannot be hashed (content_tool/source_policy_store.py:117-118).
- `parse_structured_response`: one case split on the finish reason around the extraction.
- The prompts cache and its invalidation: a load in flight can store a stale snapshot, so no coherence is claimed.
- Bundled prompt files reached under a second name count as separate templates.
- A template row without a `body`, and other rows with missing columns.
- `mergeLogRows` with timestamps that do not parse: the sort order is then the engine's affair.
- Event payload caps, levels and the fraction of a millisecond in timestamps.
- Failures of nodes other than publish (a restart follows a failed publish), cancelling a run, and two tasks for one run.
- A re-push while the run's slug differs from the article's URL reuses no id, and none is claimed.
- The rest of `render_html`, the Markdown and regex processing around the widget, and the JSON-LD it emits.
- The word diff inside an edited item, and the tracked-changes engine around the refinement.
- Tokenizing FAQ items whose texts contain div, span or paragraph tags; `QuestionIsRead` and `AnswerIsRead` say what is read then.
- Role tables, status maps, desk lanes, staleness, costs, SSRF guards, auth and rate limits.
- Poller.DebugLogPanel.OnPage: merges through ordered insertion by number instead of a hash map and a sort, because only the resulting list is observed.
- TtlCache.Cache.Enter: the fairness of the lock queue is not modelled; any waiting call may be granted the lock next.
