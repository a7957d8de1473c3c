/**
  Writing one post through an edge that may lose or replace responses
  (content_tool/wordpress/client.py).

  A create is not idempotent, so every inconclusive answer to one is followed by
  a read-back of its slug before anything is sent again. Other clients may add
  posts of their own at any moment.
*/
module WpClient {
  import opened Wrappers
  import opened StripAnchors

  datatype Post = Post(slug: string, content: seq<Token>)

  datatype Payload = Payload(postId: Option<PostId>, slug: Option<string>, content: seq<Token>)

  datatype Published = Published(id: PostId, slug: string)

  /** The post with id n is the n-th ever added. */
  predicate Exists(posts: seq<Post>, p: Published) {
    p.id <= |posts| && posts[p.id - 1].slug == p.slug
  }

  predicate Held(posts: seq<Post>, slug: string) {
    exists i :: 0 <= i < |posts| && posts[i].slug == slug
  }

  /** `if not p.slug`: no slug and an empty slug are alike. */
  predicate HasSlug(p: Payload) {
    p.slug.Some? && p.slug.value != ""
  }

  // ------------------------------------------------------------- the server

  /** WordPress keeps a requested slug that is free, and else picks another. */
  function StoredSlug(posts: seq<Post>, slug: Option<string>, other: string): string {
    if slug.Some? && slug.value != "" && !Held(posts, slug.value) then slug.value else other
  }

  function Create(posts: seq<Post>, p: Payload, other: string): seq<Post> {
    posts + [Post(StoredSlug(posts, p.slug, other), Strip(p.content))]
  }

  function Update(posts: seq<Post>, id: PostId, p: Payload, other: string): seq<Post>
    requires id <= |posts|
  {
    var slug := if p.slug.None? || p.slug == Some(posts[id - 1].slug) then posts[id - 1].slug
                else StoredSlug(posts, p.slug, other);
    posts[id - 1 := Post(slug, Strip(p.content))]
  }

  // ------------------------------------------------- one request, one answer

  datatype Content = NotJson | EmptyBody | BrokenJson | ErrorDoc | PostDoc(post: Published)

  datatype Response = Response(status: int, content: Content) | TransportError

  /** What the origin does: nothing reaches it, it refuses, or it applies the
      request (`other` is the slug it falls back to). */
  datatype Origin = NotReached | Refused(status: int) | Applied(other: string)

  /** What may be answered in WordPress's place, also after the request was applied:
      anything but the document of a post. JSON errors are included, whether a
      firewall makes them up or WordPress fails behind the insert. */
  type EdgeContent = c: Content | !c.PostDoc? witness NotJson

  datatype Edge = Pass | Drop | Replace(status: int, content: EdgeContent)

  datatype Readback = Truthful(pick: nat) | Unreadable

  /** Everything the environment decides in one attempt: what others add before
      the request and before the read-back, and what the network does to both. */
  datatype Exchange = Exchange(before: seq<Post>, origin: Origin, edge: Edge, after: seq<Post>, readback: Readback)

  predicate IsError(status: int) {
    400 <= status <= 599
  }

  /** The origin's own answer, with the posts it leaves. */
  function Serve(posts: seq<Post>, p: Payload, origin: Origin): (r: (seq<Post>, Response)) {
    match origin
    case NotReached => (posts, TransportError)
    case Refused(status) => (posts, Response(status, ErrorDoc))
    case Applied(other) =>
      match p.postId
      case Some(id) =>
        if id <= |posts| then
          var posts' := Update(posts, id, p, other);
          (posts', Response(200, PostDoc(Published(id, posts'[id - 1].slug))))
        else (posts, Response(404, ErrorDoc))
      case None =>
        var posts' := Create(posts, p, other);
        (posts', Response(201, PostDoc(Published(|posts'|, posts'[|posts|].slug))))
  }

  function ThroughEdge(r: Response, edge: Edge): Response {
    match edge
    case Pass => r
    case Drop => TransportError
    case Replace(status, content) => Response(status, content)
  }

  datatype Classified = Success(post: Published) | Conflict | WpReject | Retriable | BadShape

  function Classify(r: Response): Classified {
    match r
    case TransportError => Retriable
    case Response(status, content) =>
      if status == 412 then Conflict
      else match content
        case NotJson => Retriable
        case EmptyBody => Retriable
        case BrokenJson => Retriable
        case ErrorDoc => if IsError(status) then WpReject else BadShape
        case PostDoc(post) => if IsError(status) then WpReject else Success(post)
  }

  // ------------------------------------------------------------ the read-back

  function HolderFrom(posts: seq<Post>, slug: string, i: nat): (r: Option<Published>)
    ensures r.Some? ==> Exists(posts, r.value) && r.value.slug == slug
    ensures r.None? ==> forall k :: i <= k < |posts| ==> posts[k].slug != slug
    decreases |posts| - i
  {
    if i >= |posts| then None
    else if posts[i].slug == slug then Some(Published(i + 1, slug))
    else HolderFrom(posts, slug, i + 1)
  }

  /** Some post holding the slug; which one is the server's affair. */
  function FindPostBySlug(posts: seq<Post>, slug: string, pick: nat): (r: Option<Published>)
    ensures r.Some? ==> Exists(posts, r.value) && r.value.slug == slug
    ensures r.Some? <==> Held(posts, slug)
  {
    var late := HolderFrom(posts, slug, pick);
    if late.Some? then late else HolderFrom(posts, slug, 0)
  }

  // --------------------------------------------------------- the attempt loop

  datatype Outcome =
    | Done(post: Published)
    | ConflictError
    | RejectError
    | ShapeError
    | NoSlugError
    | Inconclusive
    | Exhausted

  datatype Config = Config(attempts: int, backoffBase: real)

  function MaxAttempts(cfg: Config): (n: nat) {
    if cfg.attempts > 1 then cfg.attempts else 1
  }

  /** The world as one call sees it: the posts, the requests it sent, the posts
      those requests created, and the time it slept. */
  datatype World = World(posts: seq<Post>, sent: nat, created: seq<PostId>, slept: real)

  function Send(w: World, p: Payload, x: Exchange): (World, Classified) {
    var posts := w.posts + x.before;
    var (posts', answer) := Serve(posts, p, x.origin);
    var created := if p.postId.None? && x.origin.Applied? then w.created + [|posts| + 1] else w.created;
    (World(posts' + x.after, w.sent + 1, created, w.slept), Classify(ThroughEdge(answer, x.edge)))
  }

  /** None: it is safe to send the create again. */
  function GateCreateRetry(posts: seq<Post>, p: Payload, readback: Readback): Option<Outcome> {
    if !HasSlug(p) then Some(NoSlugError)
    else match readback
      case Unreadable => Some(Inconclusive)
      case Truthful(pick) =>
        match FindPostBySlug(posts, p.slug.value, pick)
        case Some(post) => Some(Done(post))
        case None => None
  }

  function Final(c: Classified): Outcome
    requires !c.Retriable?
  {
    match c
    case Success(post) => Done(post)
    case Conflict => ConflictError
    case WpReject => RejectError
    case BadShape => ShapeError
  }

  /** None: the attempt settles nothing and another one may follow. */
  function Verdict(c: Classified, posts: seq<Post>, p: Payload, readback: Readback): Option<Outcome> {
    if !c.Retriable? then Some(Final(c))
    else if p.postId.None? then GateCreateRetry(posts, p, readback)
    else None
  }

  function Pow2(n: nat): nat {
    if n == 0 then 1 else 2 * Pow2(n - 1)
  }

  function Backoff(cfg: Config, attempt: nat): real
    requires attempt >= 1
  {
    if cfg.backoffBase > 0.0 then cfg.backoffBase * Pow2(attempt - 1) as real else 0.0
  }

  function UpsertFrom(cfg: Config, p: Payload, net: nat -> Exchange, attempt: nat, w: World): (Outcome, World)
    requires 1 <= attempt <= MaxAttempts(cfg)
    decreases MaxAttempts(cfg) - attempt
  {
    var (w', c) := Send(w, p, net(attempt));
    var stop := Verdict(c, w'.posts, p, net(attempt).readback);
    if stop.Some? then (stop.value, w')
    else if attempt >= MaxAttempts(cfg) then (Exhausted, w')
    else UpsertFrom(cfg, p, net, attempt + 1, w'.(slept := w'.slept + Backoff(cfg, attempt)))
  }

  function Upsert(cfg: Config, p: Payload, net: nat -> Exchange, posts: seq<Post>): (Outcome, World) {
    UpsertFrom(cfg, p, net, 1, World(posts, 0, [], 0.0))
  }

  class WordPressClient {
    const cfg: Config
    var posts: seq<Post>           // the server this client writes to
    ghost var sent: nat            // what the latest call has sent, created and slept
    ghost var created: seq<PostId>
    ghost var slept: real

    constructor (cfg: Config, posts: seq<Post>)
      ensures this.cfg == cfg && this.posts == posts
      ensures sent == 0 && created == [] && slept == 0.0
    {
      this.cfg, this.posts := cfg, posts;
      sent, created, slept := 0, [], 0.0;
    }

    ghost function Seen(): World
      reads this
    {
      World(posts, sent, created, slept)
    }

    method Attempt(p: Payload, x: Exchange) returns (c: Classified)
      modifies this
      ensures (Seen(), c) == Send(old(Seen()), p, x)
    {
      posts := posts + x.before;
      var (posts', answer) := Serve(posts, p, x.origin);
      if p.postId.None? && x.origin.Applied? {
        created := created + [|posts| + 1];
      }
      posts := posts' + x.after;
      sent := sent + 1;
      c := Classify(ThroughEdge(answer, x.edge));
    }

    /** The retry loop, under any behaviour `net` of the network. */
    method UpsertWithRetry(p: Payload, net: nat -> Exchange) returns (outcome: Outcome)
      modifies this
      ensures (outcome, Seen()) == Upsert(cfg, p, net, old(posts))
    {
      hide Serve, ThroughEdge, Classify, Send, FindPostBySlug, UpsertFrom;
      sent, created, slept := 0, [], 0.0;
      var attempt := 1;
      while true
        invariant 1 <= attempt <= MaxAttempts(cfg)
        invariant UpsertFrom(cfg, p, net, attempt, Seen()) == Upsert(cfg, p, net, old(posts))
        decreases MaxAttempts(cfg) - attempt
      {
        UpsertStep(cfg, p, net, attempt, Seen());
        var c := Attempt(p, net(attempt));
        if !c.Retriable? {
          return Final(c);
        }
        if p.postId.None? {
          var gated := GateCreateRetry(posts, p, net(attempt).readback);
          if gated.Some? {
            return gated.value;
          }
        }
        if attempt >= MaxAttempts(cfg) {
          return Exhausted;
        }
        slept := slept + Backoff(cfg, attempt);
        attempt := attempt + 1;
      }
    }
  }

  /** One turn of the loop, as the recursion sees it. */
  lemma UpsertStep(cfg: Config, p: Payload, net: nat -> Exchange, attempt: nat, w: World)
    requires 1 <= attempt <= MaxAttempts(cfg)
    ensures var (w', c) := Send(w, p, net(attempt));
            var stop := Verdict(c, w'.posts, p, net(attempt).readback);
            UpsertFrom(cfg, p, net, attempt, w)
            == if stop.Some? then (stop.value, w')
               else if attempt >= MaxAttempts(cfg) then (Exhausted, w')
               else UpsertFrom(cfg, p, net, attempt + 1, w'.(slept := w'.slept + Backoff(cfg, attempt)))
  {
    hide Send, Verdict, Backoff;
  }

  // ------------------------------------------------------------ what it keeps

  /** One create request. If it was applied, its slug is held from then on, by
      it or by an earlier post, so a truthful read-back never misses it. */
  lemma SendCreate(w: World, p: Payload, x: Exchange)
    requires p.postId.None? && w.created == []
    ensures var (w1, c) := Send(w, p, x);
            && w.posts <= w1.posts
            && |w1.created| <= 1
            && (w1.created != [] ==>
                  var id := w1.created[0];
                  && |w.posts| < id <= |w1.posts|
                  && w1.posts[id - 1].content == Strip(p.content)
                  && (HasSlug(p) ==> Held(w1.posts, p.slug.value)))
            && (c.Success? ==> w1.created == [c.post.id] && Exists(w1.posts, c.post))
  {
    if x.origin.Applied? {
      var posts := w.posts + x.before;
      var w1 := Send(w, p, x).0;
      assert w1.posts == Create(posts, p, x.origin.other) + x.after;
      if HasSlug(p) {
        if Held(posts, p.slug.value) {
          var i :| 0 <= i < |posts| && posts[i].slug == p.slug.value;
          assert w1.posts[i].slug == p.slug.value;
        } else {
          assert w1.posts[|posts|].slug == p.slug.value;
        }
      }
    }
  }

  /** The posts a call creates, and what it returns. */
  ghost predicate CreateSound(p: Payload, posts: seq<Post>, o: Outcome, w: World) {
    && |w.created| <= 1
    && posts <= w.posts
    && (forall id :: id in w.created ==> |posts| < id <= |w.posts| && w.posts[id - 1].content == Strip(p.content))
    && (o.Exhausted? ==> w.created == [])
    && (o.Done? ==>
          && Exists(w.posts, o.post)
          && (w.created == [o.post.id] || (o.post.id !in w.created && p.slug == Some(o.post.slug))))
  }

  lemma {:induction false} CreateIsSound(cfg: Config, p: Payload, net: nat -> Exchange, attempt: nat, w: World)
    requires 1 <= attempt <= MaxAttempts(cfg)
    requires p.postId.None? && w.created == []
    ensures CreateSound(p, w.posts, UpsertFrom(cfg, p, net, attempt, w).0, UpsertFrom(cfg, p, net, attempt, w).1)
    decreases MaxAttempts(cfg) - attempt
  {
    hide Send, Verdict;
    var (w1, c) := Send(w, p, net(attempt));
    var stop := Verdict(c, w1.posts, p, net(attempt).readback);
    CreateStep(w, p, net(attempt));
    if stop.None? && attempt < MaxAttempts(cfg) {
      CreateIsSound(cfg, p, net, attempt + 1, w1.(slept := w1.slept + Backoff(cfg, attempt)));
    }
  }

  /** One attempt either settles a sound outcome or has created nothing. */
  lemma CreateStep(w: World, p: Payload, x: Exchange)
    requires p.postId.None? && w.created == []
    ensures var (w1, c) := Send(w, p, x);
            var stop := Verdict(c, w1.posts, p, x.readback);
            && w.posts <= w1.posts
            && (stop.Some? ==> CreateSound(p, w.posts, stop.value, w1))
            && (stop.None? ==> w1.created == [] && CreateSound(p, w.posts, Exhausted, w1))
  {
    SendCreate(w, p, x);
  }

  /** A post this call did not create holds the slug. */
  ghost predicate HeldByOthers(w: World, slug: string) {
    exists i: nat :: i < |w.posts| && i + 1 !in w.created && w.posts[i].slug == slug
  }

  /** At most one post per create, whatever the network and other clients do;
      giving up for want of attempts means none; a returned post exists and is
      the created one unless somebody else's post holds the slug. Without a slug
      a single request is sent. */
  lemma CreateAtMostOnce(cfg: Config, p: Payload, net: nat -> Exchange, posts: seq<Post>)
    requires p.postId.None?
    ensures var (o, w) := Upsert(cfg, p, net, posts);
            && |w.created| <= 1
            && posts <= w.posts
            && (o.Exhausted? ==> w.created == [])
            && (o.Done? ==> Exists(w.posts, o.post))
            && (o.Done? && !HeldByOthers(w, o.post.slug) ==> w.created == [o.post.id])
            && (!HasSlug(p) ==> w.sent == 1)
  {
    CreateIsSound(cfg, p, net, 1, World(posts, 0, [], 0.0));
    var (o, w) := Upsert(cfg, p, net, posts);
    if o.Done? && w.created != [o.post.id] {
      var i: nat := o.post.id - 1;
      assert i + 1 !in w.created && w.posts[i].slug == o.post.slug;
    }
  }

  /** Whatever reaches the server as a new post carries no closable anchor, and
      no other post's content is touched. */
  lemma CreatedContentIsStripped(cfg: Config, p: Payload, net: nat -> Exchange, posts: seq<Post>)
    requires p.postId.None?
    ensures var (o, w) := Upsert(cfg, p, net, posts);
            forall id :: id in w.created ==>
              && |posts| < id <= |w.posts|
              && !AnchorThenClose(w.posts[id - 1].content)
              && StripAnchors.Content(w.posts[id - 1].content) == StripAnchors.Content(p.content)
  {
    CreateIsSound(cfg, p, net, 1, World(posts, 0, [], 0.0));
    StripIsSafe(p.content);
  }

  /** What updates may have done: the posts before them are still there, and
      only the target can differ. */
  predicate OnlyTarget(p: Payload, posts: seq<Post>, posts': seq<Post>)
    requires p.postId.Some?
  {
    && |posts| <= |posts'|
    && (forall i :: 0 <= i < |posts| ==>
          posts'[i] == posts[i] || (i == p.postId.value - 1 && posts'[i].content == Strip(p.content)))
  }

  predicate UpdateDone(p: Payload, post: Published, w: World)
    requires p.postId.Some?
  {
    post.id == p.postId.value && Exists(w.posts, post) && w.posts[post.id - 1].content == Strip(p.content)
  }

  lemma SendUpdate(w: World, p: Payload, x: Exchange)
    requires p.postId.Some?
    ensures var (w1, c) := Send(w, p, x);
            && w1.created == w.created
            && OnlyTarget(p, w.posts, w1.posts)
            && (c.Success? ==> UpdateDone(p, c.post, w1))
  {
  }

  lemma {:induction false} UpdateIsSound(cfg: Config, p: Payload, net: nat -> Exchange, attempt: nat, w: World)
    requires 1 <= attempt <= MaxAttempts(cfg)
    requires p.postId.Some?
    ensures var (o, w') := UpsertFrom(cfg, p, net, attempt, w);
            && w'.created == w.created
            && OnlyTarget(p, w.posts, w'.posts)
            && (o.Done? ==> UpdateDone(p, o.post, w'))
    decreases MaxAttempts(cfg) - attempt
  {
    SendUpdate(w, p, net(attempt));
    UpsertStep(cfg, p, net, attempt, w);
    var (w1, c) := Send(w, p, net(attempt));
    if c.Retriable? && attempt < MaxAttempts(cfg) {
      UpdateIsSound(cfg, p, net, attempt + 1, w1.(slept := w1.slept + Backoff(cfg, attempt)));
    }
  }

  /** Retrying an update is harmless: no post is created, no post but the target
      changes, and success means the target carries the payload. */
  lemma UpdateTouchesOnlyItsTarget(cfg: Config, p: Payload, net: nat -> Exchange, posts: seq<Post>)
    requires p.postId.Some?
    ensures var (o, w) := Upsert(cfg, p, net, posts);
            && w.created == []
            && OnlyTarget(p, posts, w.posts)
            && (o.Done? ==> UpdateDone(p, o.post, w))
  {
    UpdateIsSound(cfg, p, net, 1, World(posts, 0, [], 0.0));
  }

  /** Sleeping time after `k` attempts: base * (2^(k-1) - 1). */
  function TotalSleep(cfg: Config, k: nat): real
    requires k >= 1
  {
    if cfg.backoffBase > 0.0 then cfg.backoffBase * (Pow2(k - 1) - 1) as real else 0.0
  }

  lemma SleepGrows(cfg: Config, attempt: nat)
    requires attempt >= 1
    ensures TotalSleep(cfg, attempt) + Backoff(cfg, attempt) == TotalSleep(cfg, attempt + 1)
  {
    var b, q := cfg.backoffBase, Pow2(attempt - 1) as real;
    assert Pow2(attempt) == 2 * Pow2(attempt - 1);
    assert b * (q - 1.0) + b * q == b * (2.0 * q - 1.0);
  }

  lemma {:induction false} EffortFrom(cfg: Config, p: Payload, net: nat -> Exchange, attempt: nat, w: World)
    requires 1 <= attempt <= MaxAttempts(cfg)
    requires w.sent == attempt - 1 && w.slept == TotalSleep(cfg, attempt)
    ensures var (o, w') := UpsertFrom(cfg, p, net, attempt, w);
            && 1 <= w'.sent <= MaxAttempts(cfg)
            && w'.slept == TotalSleep(cfg, w'.sent)
            && (o.Exhausted? ==> w'.sent == MaxAttempts(cfg))
    decreases MaxAttempts(cfg) - attempt
  {
    hide Serve, ThroughEdge, Classify, FindPostBySlug;
    var (w1, c) := Send(w, p, net(attempt));
    SleepGrows(cfg, attempt);
    var gated := if p.postId.None? then GateCreateRetry(w1.posts, p, net(attempt).readback) else None;
    if c.Retriable? && gated.None? && attempt < MaxAttempts(cfg) {
      EffortFrom(cfg, p, net, attempt + 1, w1.(slept := w1.slept + Backoff(cfg, attempt)));
    }
  }

  /** Never more requests than the maximum, sleeps that add up to the geometric
      sum, and giving up only when the maximum is spent. */
  lemma EffortIsBounded(cfg: Config, p: Payload, net: nat -> Exchange, posts: seq<Post>)
    ensures var (o, w) := Upsert(cfg, p, net, posts);
            var limit := if cfg.attempts >= 1 then cfg.attempts else 1;
            && 1 <= w.sent <= limit
            && w.slept == TotalSleep(cfg, w.sent)
            && (o.Exhausted? ==> w.sent == limit)
  {
    EffortFrom(cfg, p, net, 1, World(posts, 0, [], 0.0));
  }

  // ------------------------------------------------------ when it tries again

  /** The attempt brings back neither complete JSON nor a 412. */
  predicate Blocked(x: Exchange) {
    match x.edge
    case Pass => x.origin.NotReached?
    case Drop => true
    case Replace(status, content) => status != 412 && !content.ErrorDoc?
  }

  lemma BlockedSettlesNothing(w: World, p: Payload, x: Exchange)
    ensures Send(w, p, x).1.Retriable? <==> Blocked(x)
  {
  }

  lemma {:induction false} RetriesFrom(cfg: Config, p: Payload, net: nat -> Exchange, attempt: nat, w: World)
    requires 1 <= attempt <= MaxAttempts(cfg) && w.sent == attempt - 1
    ensures var (o, w') := UpsertFrom(cfg, p, net, attempt, w);
            && attempt <= w'.sent <= MaxAttempts(cfg)
            && (forall j :: attempt <= j < w'.sent ==> Blocked(net(j)))
            && (o.Exhausted? ==> Blocked(net(w'.sent)) && w'.sent == MaxAttempts(cfg))
            && (p.postId.Some? && !o.Exhausted? ==> !Blocked(net(w'.sent)))
    decreases MaxAttempts(cfg) - attempt
  {
    hide Serve, ThroughEdge, Classify, FindPostBySlug, Blocked;
    BlockedSettlesNothing(w, p, net(attempt));
    var (w1, c) := Send(w, p, net(attempt));
    var stop := Verdict(c, w1.posts, p, net(attempt).readback);
    if stop.None? && attempt < MaxAttempts(cfg) {
      RetriesFrom(cfg, p, net, attempt + 1, w1.(slept := w1.slept + Backoff(cfg, attempt)));
    }
  }

  /**
    A request is sent again only when every one before it was blocked, and an update
    is given up exactly when all its attempts were.
  */
  lemma RetriesOnlyWhenBlocked(cfg: Config, p: Payload, net: nat -> Exchange, posts: seq<Post>)
    ensures var (o, w) := Upsert(cfg, p, net, posts);
            && (forall j :: 1 <= j < w.sent ==> Blocked(net(j)))
            && (p.postId.Some? ==> (o.Exhausted? <==> forall j :: 1 <= j <= MaxAttempts(cfg) ==> Blocked(net(j))))
  {
    RetriesFrom(cfg, p, net, 1, World(posts, 0, [], 0.0));
  }

  // ------------------------------------------------------- how a call ends

  /** WordPress's own answer comes back. */
  predicate Answered(x: Exchange) {
    x.edge.Pass? && x.origin.Applied?
  }

  /** A 412 comes back, from wherever. */
  predicate Answers412(x: Exchange) {
    match x.edge
    case Pass => x.origin == Refused(412)
    case Drop => false
    case Replace(status, _) => status == 412
  }

  /** The status of a JSON document that is no post, if that is what comes back. */
  function ErrorStatus(x: Exchange): Option<int> {
    match x.edge
    case Pass => if x.origin.Refused? then Some(x.origin.status) else None
    case Drop => None
    case Replace(status, content) => if content.ErrorDoc? then Some(status) else None
  }

  /** What a create reports, by its last exchange and the posts it leaves. */
  ghost predicate CreateEnds(p: Payload, x: Exchange, o: Outcome, w: World) {
    var looked, e := Blocked(x) && HasSlug(p) && x.readback.Truthful?, ErrorStatus(x);
    && (o.ConflictError? <==> Answers412(x))
    && (o.RejectError? <==> e.Some? && 400 <= e.value <= 599 && e.value != 412)
    && (o.ShapeError? <==> e.Some? && !(400 <= e.value <= 599))
    && (o.NoSlugError? <==> Blocked(x) && !HasSlug(p))
    && (o.Inconclusive? <==> Blocked(x) && HasSlug(p) && x.readback.Unreadable?)
    && (o.Exhausted? <==> looked && !Held(w.posts, p.slug.value))
    && (o.Done? <==> Answered(x) || (looked && Held(w.posts, p.slug.value)))
    && (o.Done? && looked ==> Exists(w.posts, o.post) && o.post.slug == p.slug.value)
    && (o.Done? && Answered(x) ==> w.created == [o.post.id] && Exists(w.posts, o.post))
  }

  /** One attempt, and how it ends if no other follows. */
  lemma AttemptEnds(cfg: Config, p: Payload, w: World, x: Exchange)
    requires p.postId.None? && w.created == []
    ensures var (w', c) := Send(w, p, x);
            var stop := Verdict(c, w'.posts, p, x.readback);
            && (stop.Some? ==> CreateEnds(p, x, stop.value, w') && !stop.value.Exhausted?)
            && (stop.None? ==> CreateEnds(p, x, Exhausted, w') && w'.created == [])
            && w'.sent == w.sent + 1
  {
    hide Strip, Held, Exists, FindPostBySlug;
    var (w', c) := Send(w, p, x);
    SendCreate(w, p, x);
    if HasSlug(p) && x.readback.Truthful? {
      var found := FindPostBySlug(w'.posts, p.slug.value, x.readback.pick);
    }
    CreateStep(w, p, x);
  }

  lemma {:induction false} CreateEndsFrom(cfg: Config, p: Payload, net: nat -> Exchange, attempt: nat, w: World)
    requires 1 <= attempt <= MaxAttempts(cfg) && p.postId.None? && w.created == [] && w.sent == attempt - 1
    ensures var (o, w') := UpsertFrom(cfg, p, net, attempt, w);
            && attempt <= w'.sent <= MaxAttempts(cfg)
            && CreateEnds(p, net(w'.sent), o, w')
            && (forall j :: attempt <= j < w'.sent ==> CreateRetries(p, net(j)))
            && (o.Exhausted? ==> w'.sent == MaxAttempts(cfg))
    decreases MaxAttempts(cfg) - attempt
  {
    hide Send, Verdict, CreateEnds;
    UpsertStep(cfg, p, net, attempt, w);
    AttemptEnds(cfg, p, w, net(attempt));
    var (w1, c) := Send(w, p, net(attempt));
    var stop := Verdict(c, w1.posts, p, net(attempt).readback);
    if stop.None? {
      ExhaustedLooked(p, net(attempt), w1);
      if attempt < MaxAttempts(cfg) {
        var w2 := w1.(slept := w1.slept + Backoff(cfg, attempt));
        CreateEndsFrom(cfg, p, net, attempt + 1, w2);
      }
    }
  }

  /** A create is sent again only after its slug was looked for. */
  predicate CreateRetries(p: Payload, x: Exchange) {
    Blocked(x) && HasSlug(p) && x.readback.Truthful?
  }

  lemma ExhaustedLooked(p: Payload, x: Exchange, w: World)
    requires CreateEnds(p, x, Exhausted, w)
    ensures CreateRetries(p, x)
  {
  }

  /**
    How a create ends, for every network: by what its last exchange brought back, and
    when that was nothing of WordPress's, by the slug, the read-back and the posts then
    there. A slug that is found held ends it in success with a post that holds it. All
    exchanges before the last were blocked, with the slug looked for.
  */
  lemma CreateEndsExactly(cfg: Config, p: Payload, net: nat -> Exchange, posts: seq<Post>)
    requires p.postId.None?
    ensures var (o, w) := Upsert(cfg, p, net, posts);
            var limit := if cfg.attempts >= 1 then cfg.attempts else 1;
            && 1 <= w.sent <= limit
            && CreateEnds(p, net(w.sent), o, w)
            && (forall j :: 1 <= j < w.sent ==> CreateRetries(p, net(j)))
            && (o.Exhausted? ==> w.sent == limit)
  {
    CreateEndsFrom(cfg, p, net, 1, World(posts, 0, [], 0.0));
  }

  /** What an update reports, by its last exchange and whether its target is there. */
  ghost predicate UpdateEnds(p: Payload, x: Exchange, o: Outcome, w: World)
    requires p.postId.Some?
  {
    var e, found := ErrorStatus(x), p.postId.value <= |w.posts| - |x.after|;
    && (o.ConflictError? <==> Answers412(x))
    && (o.RejectError? <==> (e.Some? && 400 <= e.value <= 599 && e.value != 412) || (Answered(x) && !found))
    && (o.ShapeError? <==> e.Some? && !(400 <= e.value <= 599))
    && (o.Exhausted? <==> Blocked(x))
    && (o.Done? <==> Answered(x) && found)
    && (o.Done? ==> o.post.id == p.postId.value)
  }

  lemma UpdateAttemptEnds(p: Payload, w: World, x: Exchange)
    requires p.postId.Some?
    ensures var (w', c) := Send(w, p, x);
            var stop := Verdict(c, w'.posts, p, x.readback);
            && UpdateEnds(p, x, if stop.Some? then stop.value else Exhausted, w')
            && w'.sent == w.sent + 1
  {
  }

  lemma {:induction false} UpdateEndsFrom(cfg: Config, p: Payload, net: nat -> Exchange, attempt: nat, w: World)
    requires 1 <= attempt <= MaxAttempts(cfg) && p.postId.Some? && w.sent == attempt - 1
    ensures var (o, w') := UpsertFrom(cfg, p, net, attempt, w);
            && attempt <= w'.sent <= MaxAttempts(cfg)
            && UpdateEnds(p, net(w'.sent), o, w')
            && (o.Exhausted? ==> w'.sent == MaxAttempts(cfg))
    decreases MaxAttempts(cfg) - attempt
  {
    hide Send, Verdict, UpdateEnds;
    UpsertStep(cfg, p, net, attempt, w);
    UpdateAttemptEnds(p, w, net(attempt));
    var (w1, c) := Send(w, p, net(attempt));
    var stop := Verdict(c, w1.posts, p, net(attempt).readback);
    UpdateStops(c, w1.posts, p, net(attempt).readback);
    if stop.None? && attempt < MaxAttempts(cfg) {
      UpdateEndsFrom(cfg, p, net, attempt + 1, w1.(slept := w1.slept + Backoff(cfg, attempt)));
    }
  }

  lemma UpdateStops(c: Classified, posts: seq<Post>, p: Payload, readback: Readback)
    requires p.postId.Some?
    ensures Verdict(c, posts, p, readback).Some? ==> !Verdict(c, posts, p, readback).value.Exhausted?
  {
  }

  /** How an update ends: by what its last exchange brought back, and in success exactly
      when WordPress answers for a target that is there. */
  lemma UpdateEndsExactly(cfg: Config, p: Payload, net: nat -> Exchange, posts: seq<Post>)
    requires p.postId.Some?
    ensures var (o, w) := Upsert(cfg, p, net, posts);
            var limit := if cfg.attempts >= 1 then cfg.attempts else 1;
            && 1 <= w.sent <= limit
            && UpdateEnds(p, net(w.sent), o, w)
            && (o.Exhausted? ==> w.sent == limit)
  {
    UpdateEndsFrom(cfg, p, net, 1, World(posts, 0, [], 0.0));
  }

  // ------------------------------------------- what a create leaves behind

  lemma {:induction false} LeavingFrom(cfg: Config, p: Payload, net: nat -> Exchange, attempt: nat, w: World)
    requires 1 <= attempt <= MaxAttempts(cfg) && p.postId.None? && w.created == [] && w.sent == attempt - 1
    ensures var w' := UpsertFrom(cfg, p, net, attempt, w).1;
            && attempt <= w'.sent <= MaxAttempts(cfg)
            && |w'.created| == (if net(w'.sent).origin.Applied? then 1 else 0)
    decreases MaxAttempts(cfg) - attempt
  {
    hide Serve, ThroughEdge, Classify, FindPostBySlug, Strip;
    var x := net(attempt);
    var (w1, c) := Send(w, p, x);
    var stop := Verdict(c, w1.posts, p, x.readback);
    CreateStep(w, p, x);
    if stop.None? && attempt < MaxAttempts(cfg) {
      LeavingFrom(cfg, p, net, attempt + 1, w1.(slept := w1.slept + Backoff(cfg, attempt)));
    }
  }

  /** Whatever a create reports, it has left its post behind exactly when its last
      request was applied. */
  lemma CreateLeavesAPostExactly(cfg: Config, p: Payload, net: nat -> Exchange, posts: seq<Post>)
    requires p.postId.None?
    ensures var w := Upsert(cfg, p, net, posts).1;
            w.sent >= 1 && |w.created| == (if net(w.sent).origin.Applied? then 1 else 0)
  {
    LeavingFrom(cfg, p, net, 1, World(posts, 0, [], 0.0));
  }

  /** It happens: the request is applied and answered by a JSON error. */
  lemma RejectedCreateCanLand(cfg: Config, p: Payload, posts: seq<Post>, status: int)
    requires p.postId.None? && 400 <= status <= 599 && status != 412
    ensures var net := (k: nat) => Exchange([], Applied("other"), Replace(status, ErrorDoc), [], Unreadable);
            Upsert(cfg, p, net, posts).0 == RejectError && Upsert(cfg, p, net, posts).1.created != []
  {
  }
}
