/** Requests and administration interleaved on any number of workers, and what keeps tenants apart. */
module Isolation {
  import opened Context
  import opened Tenancy

  // ----- Requests -----

  /** What authentication and the role check of the view make of the caller. */
  datatype Access = Anonymous | NoRole | Granted

  /** The body of a create request once the serializer has accepted it. */
  datatype Payload = Payload(name: string, description: string)

  datatype Action =
    | Ping
    | Create(access: Access, payload: Option<Payload>)
    | Fetch(access: Access, id: Uuid)

  /** `reachable` says whether the database answers when the tenant is resolved. */
  datatype Request = Request(path: string, header: Option<string>, reachable: bool, action: Action)

  /** An item is shown without its tenant. */
  datatype Response =
    | Failed(status: nat)
    | Pong
    | Shown(status: nat, id: Uuid, name: string, description: string, createdAt: nat)

  function Show(status: nat, id: Uuid, row: Item): Response {
    Shown(status, id, row.name, row.description, row.createdAt)
  }

  function Denied(access: Access): Response {
    Failed(if access.Anonymous? then 401 else 403)
  }

  /** The tenant a request asks for. */
  function Claim(request: Request): Option<string> {
    if ShouldSkip(request.path) then Some(DEFAULT_TENANT) else NormalizeTenantId(request.header)
  }

  /** A request asks for the public tenant on an exempt path, and else for the one its header names. */
  lemma {:induction false} ClaimIsWhatIsNamed(request: Request, slug: string)
    ensures Claim(request) == Some(slug)
       <==> if ShouldSkip(request.path) then slug == DEFAULT_TENANT else Names(request.header, slug)
  {
    NormalizedTenantId(request.header);
  }

  // ----- Workers -----

  datatype Phase =
    | Idle
    | InView(request: Request)
    | Cleaning(request: Request, id: Uuid, draft: Draft)
    | Saving(request: Request, id: Uuid, draft: Draft)

  datatype Worker = Worker(ctx: Ctx, phase: Phase)

  /** `minted` holds every UUID drawn so far: `uuid4` never repeats one. */
  datatype State = State(db: Db, workers: map<nat, Worker>, minted: set<Uuid>)

  function WorkerOf(s: State, w: nat): Worker {
    if w in s.workers then s.workers[w] else Worker(Ctx(DEFAULT_TENANT, None), Idle)
  }

  predicate HasDraft(phase: Phase) {
    phase.Cleaning? || phase.Saving?
  }

  // ----- Steps -----

  datatype Event =
    | Arrive(worker: nat, request: Request)
    | View(worker: nat, id: Uuid)
    | Clean(worker: nat)
    | Save(worker: nat, now: nat)
    | AddTenant(pk: Uuid, slug: string, name: string, active: bool)
    | SetActive(pk: Uuid, active: bool)
    | DeleteTenant(pk: Uuid)

  datatype Output =
    | Reply(worker: nat, request: Request, response: Response)
    | LogLine(worker: nat, request: Request, tenantId: string)

  predicate IsAdmin(e: Event) {
    e.AddTenant? || e.SetActive? || e.DeleteTenant?
  }

  /** A worker takes one request at a time through its phases, and drawn UUIDs are new. */
  predicate Allowed(s: State, e: Event) {
    match e
    case Arrive(w, _) => WorkerOf(s, w).phase.Idle?
    case View(w, id) => WorkerOf(s, w).phase.InView? && id !in s.minted
    case Clean(w) => WorkerOf(s, w).phase.Cleaning?
    case Save(w, _) => WorkerOf(s, w).phase.Saving?
    case AddTenant(pk, _, _, _) => pk !in s.minted
    case _ => true
  }

  function SetWorker(s: State, w: nat, worker: Worker): State {
    s.(workers := s.workers[w := worker])
  }

  ghost function ArriveStep(s: State, w: nat, request: Request): (State, seq<Output>) {
    var (ctx, verdict) := Resolve(s.db, WorkerOf(s, w).ctx, request.path, request.header, request.reachable);
    match verdict
    case Proceed => (SetWorker(s, w, Worker(ctx, InView(request))), [])
    case Reject(status) =>
      (SetWorker(s, w, Worker(ctx, Idle)), [LogLine(w, request, ctx.slug), Reply(w, request, Failed(status))])
  }

  /** The view up to the point where an item is built: its next phase and, when it ends there, its response. */
  ghost function RunView(db: Db, ctx: Ctx, request: Request, id: Uuid): (Phase, Option<Response>) {
    match request.action
    case Ping => (Idle, Some(Pong))
    case Fetch(access, i) =>
      (Idle,
       Some(if access != Granted then Denied(access)
            else if InScope(db, i, ctx.slug) then Show(200, i, db.items[i])
            else Failed(404)))
    case Create(access, payload) =>
      if access != Granted then (Idle, Some(Denied(access)))
      else if payload.None? then (Idle, Some(Failed(400)))
      else
        var pk := WriteTenant(db, ctx);
        if pk.None? then (Idle, Some(Failed(500)))
        else (Cleaning(request, id, Draft(payload.value.name, payload.value.description, pk.value)), None)
  }

  ghost function ViewStep(s: State, w: nat, id: Uuid): (State, seq<Output>)
    requires WorkerOf(s, w).phase.InView?
  {
    var me := WorkerOf(s, w);
    var (phase, response) := RunView(s.db, me.ctx, me.phase.request, id);
    (SetWorker(s.(minted := s.minted + {id}), w, me.(phase := phase)),
     if response.Some? then [Reply(w, me.phase.request, response.value)] else [])
  }

  ghost function CleanStep(s: State, w: nat): (State, seq<Output>)
    requires WorkerOf(s, w).phase.Cleaning?
  {
    var me := WorkerOf(s, w);
    var Cleaning(request, id, draft) := me.phase;
    if Cleans(s.db, id, draft) then (SetWorker(s, w, me.(phase := Saving(request, id, draft))), [])
    else (SetWorker(s, w, me.(phase := Idle)), [Reply(w, request, Failed(500))])
  }

  ghost function SaveStep(s: State, w: nat, now: nat): (State, seq<Output>)
    requires WorkerOf(s, w).phase.Saving?
  {
    var me := WorkerOf(s, w);
    var Saving(request, id, draft) := me.phase;
    var done := SetWorker(s, w, me.(phase := Idle));
    if Saves(s.db, id, draft) then
      var db := Insert(s.db, id, draft, now);
      (done.(db := db), [LogLine(w, request, me.ctx.slug), Reply(w, request, Show(201, id, db.items[id]))])
    else (done, [Reply(w, request, Failed(500))])
  }

  /** The tables after an administrative step; one that breaks a constraint is refused. */
  ghost function Administer(db: Db, e: Event): Db
    requires IsAdmin(e)
  {
    match e
    case AddTenant(pk, slug, name, active) =>
      if pk in db.tenants || SlugTaken(db, slug) then db
      else db.(tenants := db.tenants[pk := Tenant(slug, name, active)])
    case SetActive(pk, active) =>
      if pk in db.tenants then db.(tenants := db.tenants[pk := db.tenants[pk].(active := active)]) else db
    case DeleteTenant(pk) =>
      if HasItems(db, pk) then db else db.(tenants := db.tenants - {pk})
  }

  ghost function Step(s: State, e: Event): (State, seq<Output>)
    requires Allowed(s, e)
  {
    match e
    case Arrive(w, request) => ArriveStep(s, w, request)
    case View(w, id) => ViewStep(s, w, id)
    case Clean(w) => CleanStep(s, w)
    case Save(w, now) => SaveStep(s, w, now)
    case _ =>
      (s.(db := Administer(s.db, e), minted := if e.AddTenant? then s.minted + {e.pk} else s.minted), [])
  }

  // ----- Runs -----

  ghost predicate IsRun(s: State, es: seq<Event>)
    decreases |es|
  {
    es == [] || (Allowed(s, es[0]) && IsRun(Step(s, es[0]).0, es[1..]))
  }

  ghost function End(s: State, es: seq<Event>): State
    requires IsRun(s, es)
    decreases |es|
  {
    if es == [] then s else End(Step(s, es[0]).0, es[1..])
  }

  ghost function Outputs(s: State, es: seq<Event>): seq<Output>
    requires IsRun(s, es)
    decreases |es|
  {
    if es == [] then [] else Step(s, es[0]).1 + Outputs(Step(s, es[0]).0, es[1..])
  }

  lemma RunStarts(s: State, e: Event, rest: seq<Event>)
    requires Allowed(s, e) && IsRun(Step(s, e).0, rest)
    ensures IsRun(s, [e] + rest)
    ensures End(s, [e] + rest) == End(Step(s, e).0, rest)
    ensures Outputs(s, [e] + rest) == Step(s, e).1 + Outputs(Step(s, e).0, rest)
  {
  }

  lemma RunOfOne(s: State, e: Event)
    requires Allowed(s, e)
    ensures IsRun(s, [e]) && End(s, [e]) == Step(s, e).0 && Outputs(s, [e]) == Step(s, e).1
  {
  }

  // ----- The invariant -----

  /** The request is a permitted and valid one to create an item of this name and description. */
  predicate AsksFor(request: Request, name: string, description: string) {
    match request.action
    case Create(access, payload) => access.Granted? && payload == Some(Payload(name, description))
    case _ => false
  }

  /** No tenant but one named `slug` has, or ever will have, the primary key `pk`. */
  predicate Bound(s: State, pk: Uuid, slug: string) {
    pk in s.minted && (pk in s.db.tenants ==> s.db.tenants[pk].slug == slug)
  }

  /** Pk and slug of a running request agree, and with them its reads by slug and its writes by pk. What it is about
      to write is what it asks for. */
  ghost predicate Coherent(s: State, w: nat) {
    var me := WorkerOf(s, w);
    !me.phase.Idle? ==>
    && Claim(me.phase.request) == Some(me.ctx.slug)
    && (if ShouldSkip(me.phase.request.path) then me.ctx == Ctx(DEFAULT_TENANT, None)
        else me.ctx.pk.Some? && Bound(s, me.ctx.pk.value, me.ctx.slug))
    && (HasDraft(me.phase) ==>
          && AsksFor(me.phase.request, me.phase.draft.name, me.phase.draft.description)
          && Bound(s, me.phase.draft.tenant, me.ctx.slug)
          && me.phase.id in s.minted && me.phase.id !in s.db.items)
  }

  ghost predicate DraftsApart(s: State, v: nat, w: nat) {
    var a, b := WorkerOf(s, v).phase, WorkerOf(s, w).phase;
    v != w && HasDraft(a) && HasDraft(b) ==> a.id != b.id
  }

  ghost predicate Inv(s: State) {
    && UniqueSlugs(s.db)
    && Referential(s.db)
    && s.db.tenants.Keys <= s.minted
    && s.db.items.Keys <= s.minted
    && (forall w: nat :: Coherent(s, w))
    && (forall v: nat, w: nat :: DraftsApart(s, v, w))
  }

  lemma ArriveKeepsInv(s: State, w: nat, request: Request)
    requires Inv(s) && Allowed(s, Arrive(w, request))
    ensures Inv(ArriveStep(s, w, request).0)
  {
    var s' := ArriveStep(s, w, request).0;
    forall v: nat
      ensures Coherent(s', v)
    {
      assert Coherent(s, v);
    }
    forall v: nat, u: nat
      ensures DraftsApart(s', v, u)
    {
      assert DraftsApart(s, v, u);
    }
  }

  lemma ViewKeepsInv(s: State, w: nat, id: Uuid)
    requires Inv(s) && Allowed(s, View(w, id))
    ensures Inv(ViewStep(s, w, id).0)
  {
    var s' := ViewStep(s, w, id).0;
    forall v: nat
      ensures Coherent(s', v)
    {
      assert Coherent(s, v);
    }
    forall v: nat, u: nat
      ensures DraftsApart(s', v, u)
    {
      assert DraftsApart(s, v, u) && Coherent(s, v) && Coherent(s, u);
    }
  }

  lemma CleanKeepsInv(s: State, w: nat)
    requires Inv(s) && Allowed(s, Clean(w))
    ensures Inv(CleanStep(s, w).0)
  {
    var s' := CleanStep(s, w).0;
    forall v: nat
      ensures Coherent(s', v)
    {
      assert Coherent(s, v);
    }
    forall v: nat, u: nat
      ensures DraftsApart(s', v, u)
    {
      assert DraftsApart(s, v, u);
    }
  }

  lemma SaveKeepsInv(s: State, w: nat, now: nat)
    requires Inv(s) && Allowed(s, Save(w, now))
    ensures Inv(SaveStep(s, w, now).0)
  {
    var s' := SaveStep(s, w, now).0;
    assert Coherent(s, w);
    forall v: nat
      ensures Coherent(s', v)
    {
      assert Coherent(s, v) && DraftsApart(s, v, w);
    }
    forall v: nat, u: nat
      ensures DraftsApart(s', v, u)
    {
      assert DraftsApart(s, v, u);
    }
  }

  lemma AdminKeepsInv(s: State, e: Event)
    requires Inv(s) && IsAdmin(e) && Allowed(s, e)
    ensures Inv(Step(s, e).0)
  {
    var s' := Step(s, e).0;
    forall v: nat
      ensures Coherent(s', v)
    {
      assert Coherent(s, v);
    }
    forall v: nat, u: nat
      ensures DraftsApart(s', v, u)
    {
      assert DraftsApart(s, v, u);
    }
    forall p, q | p in s'.db.tenants && q in s'.db.tenants && s'.db.tenants[p].slug == s'.db.tenants[q].slug
      ensures p == q
    {
      assert p in s.db.tenants ==> HasSlug(s.db, p, s.db.tenants[p].slug);
      assert q in s.db.tenants ==> HasSlug(s.db, q, s.db.tenants[q].slug);
    }
  }

  lemma StepKeepsInv(s: State, e: Event)
    requires Inv(s) && Allowed(s, e)
    ensures Inv(Step(s, e).0)
  {
    match e
    case Arrive(w, request) => ArriveKeepsInv(s, w, request);
    case View(w, id) => ViewKeepsInv(s, w, id);
    case Clean(w) => CleanKeepsInv(s, w);
    case Save(w, now) => SaveKeepsInv(s, w, now);
    case _ => AdminKeepsInv(s, e);
  }

  /** In every reachable state pk and slug agree in every running request and every item has its tenant. */
  lemma {:induction false} RunKeepsInv(s: State, es: seq<Event>)
    requires Inv(s) && IsRun(s, es)
    ensures Inv(End(s, es))
    decreases |es|
  {
    if es != [] {
      StepKeepsInv(s, es[0]);
      RunKeepsInv(Step(s, es[0]).0, es[1..]);
    }
  }

  // ----- The request a context comes from -----

  lemma {:induction false} RunSplits(s: State, es: seq<Event>, k: nat)
    requires IsRun(s, es) && k <= |es|
    ensures IsRun(s, es[..k]) && IsRun(End(s, es[..k]), es[k..])
    ensures End(End(s, es[..k]), es[k..]) == End(s, es)
    decreases |es|
  {
    if k == 0 {
      assert es[..k] == [] && es[k..] == es;
    } else {
      RunSplits(Step(s, es[0]).0, es[1..], k - 1);
      assert es[..k][0] == es[0] && es[..k][1..] == es[1..][..k - 1] && es[k..] == es[1..][k - 1..];
    }
  }

  /** The state before step `k`. */
  ghost function Before(s: State, es: seq<Event>, k: nat): State
    requires IsRun(s, es) && k <= |es|
  {
    RunSplits(s, es, k);
    End(s, es[..k])
  }

  lemma {:induction false} BeforeInRest(s: State, es: seq<Event>, k: nat)
    requires IsRun(s, es) && 0 < k <= |es|
    ensures Before(s, es, k) == Before(Step(s, es[0]).0, es[1..], k - 1)
  {
    RunSplits(s, es, k);
    assert es[..k][0] == es[0] && es[..k][1..] == es[1..][..k - 1];
  }

  predicate ArrivesAt(e: Event, w: nat) {
    e.Arrive? && e.worker == w
  }

  /** Step `k` is a request that worker `w` lets through to its view. */
  ghost predicate Reaches(s: State, es: seq<Event>, w: nat, k: int)
    requires IsRun(s, es)
  {
    && 0 <= k < |es|
    && ArrivesAt(es[k], w)
    && var db, r := Before(s, es, k).db, es[k].request;
       Resolve(db, WorkerOf(Before(s, es, k), w).ctx, r.path, r.header, r.reachable).1.Proceed?
  }

  lemma {:induction false} ReachesInRest(s: State, es: seq<Event>, w: nat, k: int)
    requires IsRun(s, es) && 0 < k <= |es|
    ensures Reaches(s, es, w, k) <==> Reaches(Step(s, es[0]).0, es[1..], w, k - 1)
  {
    if k < |es| {
      BeforeInRest(s, es, k);
    }
  }

  /** What a worker's context holds was put there by the request at step `k`: it names the tenant that request
      asked for, active at the time, by its key unless the path is exempt. */
  ghost predicate ContextFrom(s: State, es: seq<Event>, ctx: Ctx, k: nat)
    requires IsRun(s, es) && k < |es| && es[k].Arrive?
  {
    && Claim(es[k].request) == Some(ctx.slug)
    && (ctx.pk.Some? <==> !ShouldSkip(es[k].request.path))
    && (ctx.pk.Some? ==> IsActive(Before(s, es, k).db, ctx.pk.value, ctx.slug))
  }

  /** The last request a worker let through to a view is the one its context comes from, however many it has
      rejected since; a request that runs is that one. */
  lemma {:induction false} LastReached(s: State, es: seq<Event>, w: nat) returns (k: int)
    requires IsRun(s, es)
    ensures -1 <= k < |es|
    ensures forall j | k < j < |es| :: !Reaches(s, es, w, j)
    ensures var me := WorkerOf(End(s, es), w);
            if k < 0 then
              && me.ctx == WorkerOf(s, w).ctx
              && (!me.phase.Idle? ==> !WorkerOf(s, w).phase.Idle?
                                      && me.phase.request == WorkerOf(s, w).phase.request)
            else
              && Reaches(s, es, w, k)
              && ContextFrom(s, es, me.ctx, k)
              && (!me.phase.Idle? ==> es[k].request == me.phase.request)
    ensures !WorkerOf(End(s, es), w).phase.Idle? ==> forall j | k < j < |es| :: !ArrivesAt(es[j], w)
    decreases |es|
  {
    if es == [] {
      k := -1;
    } else {
      var s1 := Step(s, es[0]).0;
      var later := LastReached(s1, es[1..], w);
      forall j | 0 < j < |es|
        ensures Reaches(s, es, w, j) <==> Reaches(s1, es[1..], w, j - 1)
      {
        ReachesInRest(s, es, w, j);
      }
      assert es[..0] == [] && Before(s, es, 0) == s;
      if later >= 0 {
        k := later + 1;
        BeforeInRest(s, es, k);
      } else {
        k := if Reaches(s, es, w, 0) then 0 else -1;
      }
    }
  }

  // ----- Deleted tenants -----

  /** Some step deletes the tenant `pk`: a deletion at a moment when it has no items. */
  ghost predicate Deletes(s: State, es: seq<Event>, pk: Uuid)
    requires IsRun(s, es)
    decreases |es|
  {
    es != [] && ((es[0] == DeleteTenant(pk) && !HasItems(s.db, pk)) || Deletes(Step(s, es[0]).0, es[1..], pk))
  }

  lemma {:induction false} GoneExactlyWhenDeleted(s: State, es: seq<Event>, pk: Uuid)
    requires IsRun(s, es) && pk in s.minted
    ensures pk in End(s, es).db.tenants <==> pk in s.db.tenants && !Deletes(s, es, pk)
    decreases |es|
  {
    if es != [] {
      GoneExactlyWhenDeleted(Step(s, es[0]).0, es[1..], pk);
    }
  }

  /** While a view runs, its request is exempt and its context names the public slug alone, or the context holds
      the pk of the tenant the request asked for: that tenant was active when the request was resolved, at the
      last arrival `k`, and it still exists, under the same slug, exactly when no deletion has taken it since.
      Reading by slug and writing by pk mean the same tenant. */
  lemma {:induction false} PkAndSlugAgree(s: State, es: seq<Event>, w: nat) returns (k: int)
    requires Inv(s) && IsRun(s, es) && !WorkerOf(End(s, es), w).phase.Idle?
    ensures var me, db := WorkerOf(End(s, es), w), End(s, es).db;
            && Claim(me.phase.request) == Some(me.ctx.slug)
            && (if ShouldSkip(me.phase.request.path) then me.ctx == Ctx(DEFAULT_TENANT, None) else me.ctx.pk.Some?)
            && (me.ctx.pk.Some? && me.ctx.pk.value in db.tenants ==> HasSlug(db, me.ctx.pk.value, me.ctx.slug))
            && (HasDraft(me.phase) && Saves(db, me.phase.id, me.phase.draft) ==>
                  HasSlug(db, me.phase.draft.tenant, me.ctx.slug))
    ensures var me, db := WorkerOf(End(s, es), w), End(s, es).db;
            WorkerOf(s, w).phase.Idle? ==>
            && 0 <= k < |es| && es[k] == Arrive(w, me.phase.request)
            && (forall j | k < j < |es| :: !ArrivesAt(es[j], w))
            && (me.ctx.pk.Some? ==> IsActive(Before(s, es, k).db, me.ctx.pk.value, me.ctx.slug))
            && IsRun(Before(s, es, k), es[k..])
            && (me.ctx.pk.Some? ==>
                  (me.ctx.pk.value in db.tenants <==> !Deletes(Before(s, es, k), es[k..], me.ctx.pk.value)))
  {
    RunKeepsInv(s, es);
    assert Coherent(End(s, es), w);
    k := LastReached(s, es, w);
    if k >= 0 {
      RunSplits(s, es, k);
      RunKeepsInv(s, es[..k]);
      var pk := WorkerOf(End(s, es), w).ctx.pk;
      if pk.Some? {
        GoneExactlyWhenDeleted(Before(s, es, k), es[k..], pk.value);
      }
    }
  }

  /** A request under the item routes always runs with a pk: the lookup by slug in `create_item` is never its way
      to a tenant. */
  lemma ItemRequestsCarryPk(s: State, es: seq<Event>, w: nat)
    requires Inv(s) && IsRun(s, es) && !WorkerOf(End(s, es), w).phase.Idle?
    requires ITEM_ROUTES <= WorkerOf(End(s, es), w).phase.request.path
    ensures WorkerOf(End(s, es), w).ctx.pk.Some?
  {
    var _ := PkAndSlugAgree(s, es, w);
    ItemRoutesAreNotExempt(WorkerOf(End(s, es), w).phase.request.path);
  }

  /** The pk can dangle: whatever request under the item routes names whatever tenant, the tenant can be deleted
      between the arrival of the request and its view, if it has no items. */
  lemma {:induction false} PkCanDangle(pk: Uuid, tenant: Tenant, w: nat, request: Request)
    returns (s: State, es: seq<Event>)
    requires ITEM_ROUTES <= request.path && request.reachable
    requires NormalizeTenantId(request.header) == Some(tenant.slug) && tenant.active
    ensures Inv(s) && WorkerOf(s, w).phase.Idle? && IsRun(s, es)
    ensures WorkerOf(End(s, es), w) == Worker(Ctx(tenant.slug, Some(pk)), InView(request))
    ensures pk !in End(s, es).db.tenants
  {
    s := State(Db(map[pk := tenant], map[]), map[], {pk});
    es := [Arrive(w, request), DeleteTenant(pk)];
    ItemRoutesAreNotExempt(request.path);
    assert HasSlug(s.db, pk, tenant.slug);
    var s1 := Step(s, es[0]).0;
    assert es[1..] == [es[1]];
    RunOfOne(s1, es[1]);
  }
}
