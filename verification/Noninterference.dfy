/** What the isolation machine promises over whole runs: tenants do not influence each other, and what earlier
    requests left in the context variables shows in log lines of rejections only. */
module Noninterference {
  import opened Context
  import opened Tenancy
  import opened Isolation

  // ----- Purging the other tenants -----

  predicate Owns(s: State, w: nat, slug: string) {
    var phase := WorkerOf(s, w).phase;
    !phase.Idle? && Claim(phase.request) == Some(slug)
  }

  /** The step is administrative, or belongs to a request for `slug`. */
  predicate Kept(s: State, e: Event, slug: string) {
    IsAdmin(e) || (if e.Arrive? then Claim(e.request) == Some(slug) else Owns(s, e.worker, slug))
  }

  /** The run without the steps of every request for another tenant. */
  ghost function Purge(s: State, es: seq<Event>, slug: string): seq<Event>
    requires IsRun(s, es)
    decreases |es|
  {
    if es == [] then []
    else
      var rest := Purge(Step(s, es[0]).0, es[1..], slug);
      if Kept(s, es[0], slug) then [es[0]] + rest else rest
  }

  /** The replies among `outs` to requests for `slug`, in order. */
  function RepliesTo(outs: seq<Output>, slug: string): seq<Output> {
    if outs == [] then []
    else if outs[0].Reply? && Claim(outs[0].request) == Some(slug) then [outs[0]] + RepliesTo(outs[1..], slug)
    else RepliesTo(outs[1..], slug)
  }

  lemma {:induction false} RepliesToJoin(a: seq<Output>, b: seq<Output>, slug: string)
    ensures RepliesTo(a + b, slug) == RepliesTo(a, slug) + RepliesTo(b, slug)
  {
    if a == [] {
      assert a + b == b;
    } else {
      RepliesToJoin(a[1..], b, slug);
      assert (a + b)[1..] == a[1..] + b;
    }
  }

  lemma {:induction false} NoRepliesTo(outs: seq<Output>, slug: string)
    requires forall o | o in outs && o.Reply? :: Claim(o.request) != Some(slug)
    ensures RepliesTo(outs, slug) == []
  {
    if outs != [] {
      assert outs[0] in outs;
      NoRepliesTo(outs[1..], slug);
    }
  }

  function TenantRows(db: Db, slug: string): map<Uuid, Tenant> {
    map pk | pk in db.tenants && HasSlug(db, pk, slug) :: db.tenants[pk]
  }

  predicate SimilarWorker(s: State, t: State, w: nat, slug: string) {
    if Owns(s, w, slug) then WorkerOf(t, w) == WorkerOf(s, w) else WorkerOf(t, w).phase.Idle?
  }

  /** `s` and `t` look the same to `slug`: its rows and its running requests agree. Other rows, other
      requests and the contexts of workers without a request of `slug` are free. */
  ghost predicate Similar(s: State, t: State, slug: string) {
    && t.minted <= s.minted
    && TenantRows(s.db, slug) == TenantRows(t.db, slug)
    && Scoped(s.db, slug) == Scoped(t.db, slug)
    && forall w: nat :: SimilarWorker(s, t, w, slug)
  }

  lemma SameTenant(s: Db, t: Db, slug: string, pk: Uuid)
    requires TenantRows(s, slug) == TenantRows(t, slug)
    ensures HasSlug(s, pk, slug) <==> HasSlug(t, pk, slug)
    ensures HasSlug(s, pk, slug) ==> s.tenants[pk] == t.tenants[pk]
  {
    assert pk in TenantRows(s, slug) <==> pk in TenantRows(t, slug);
    if HasSlug(s, pk, slug) {
      assert TenantRows(s, slug)[pk] == s.tenants[pk] && TenantRows(t, slug)[pk] == t.tenants[pk];
    }
  }

  lemma SameItem(s: Db, t: Db, slug: string, id: Uuid)
    requires Scoped(s, slug) == Scoped(t, slug)
    ensures InScope(s, id, slug) <==> InScope(t, id, slug)
    ensures InScope(s, id, slug) ==> s.items[id] == t.items[id]
  {
    assert id in Scoped(s, slug) <==> id in Scoped(t, slug);
    if InScope(s, id, slug) {
      assert Scoped(s, slug)[id] == s.items[id] && Scoped(t, slug)[id] == t.items[id];
    }
  }

  lemma SameActive(s: Db, t: Db, slug: string)
    requires TenantRows(s, slug) == TenantRows(t, slug) && UniqueSlugs(s) && UniqueSlugs(t)
    ensures FindActive(s, slug) == FindActive(t, slug)
  {
    forall pk: Uuid
      ensures HasSlug(s, pk, slug) <==> HasSlug(t, pk, slug)
      ensures HasSlug(s, pk, slug) ==> s.tenants[pk] == t.tenants[pk]
    {
      SameTenant(s, t, slug, pk);
    }
  }

  ghost predicate KeptStepAgrees(s: State, t: State, e: Event, slug: string)
    requires Allowed(s, e)
  {
    && Allowed(t, e)
    && Similar(Step(s, e).0, Step(t, e).0, slug)
    && RepliesTo(Step(t, e).1, slug) == RepliesTo(Step(s, e).1, slug)
  }

  lemma SameResolution(s: Db, t: Db, ctx: Ctx, other: Ctx, request: Request, slug: string)
    requires TenantRows(s, slug) == TenantRows(t, slug) && UniqueSlugs(s) && UniqueSlugs(t)
    requires Claim(request) == Some(slug)
    ensures var (inS, verdictS) := Resolve(s, ctx, request.path, request.header, request.reachable);
            var (inT, verdictT) := Resolve(t, other, request.path, request.header, request.reachable);
            verdictS == verdictT && (verdictS.Proceed? ==> inS == inT)
  {
    SameActive(s, t, slug);
  }

  lemma {:induction false} OneReplyTo(w: nat, request: Request, response: Response, tenantId: string, slug: string)
    requires Claim(request) == Some(slug)
    ensures RepliesTo([LogLine(w, request, tenantId), Reply(w, request, response)], slug)
         == [Reply(w, request, response)]
  {
    var line, reply := LogLine(w, request, tenantId), Reply(w, request, response);
    assert [line, reply][1..] == [reply] && [reply][1..] == [];
    assert RepliesTo([reply], slug) == [reply];
  }

  lemma {:induction false} KeptArrive(s: State, t: State, w: nat, request: Request, slug: string)
    requires Inv(s) && Inv(t) && Similar(s, t, slug)
    requires Allowed(s, Arrive(w, request)) && Claim(request) == Some(slug)
    ensures KeptStepAgrees(s, t, Arrive(w, request), slug)
  {
    assert SimilarWorker(s, t, w, slug);
    var ctx, other := WorkerOf(s, w).ctx, WorkerOf(t, w).ctx;
    SameResolution(s.db, t.db, ctx, other, request, slug);
    var verdict := Resolve(s.db, ctx, request.path, request.header, request.reachable).1;
    if verdict.Reject? {
      OneReplyTo(w, request, Failed(verdict.status), ctx.slug, slug);
      OneReplyTo(w, request, Failed(verdict.status), other.slug, slug);
    }
    var s', t' := ArriveStep(s, w, request).0, ArriveStep(t, w, request).0;
    forall v: nat
      ensures SimilarWorker(s', t', v, slug)
    {
      assert SimilarWorker(s, t, v, slug);
    }
  }

  lemma {:induction false} KeptView(s: State, t: State, w: nat, id: Uuid, slug: string)
    requires Inv(s) && Inv(t) && Similar(s, t, slug)
    requires Allowed(s, View(w, id)) && Owns(s, w, slug)
    ensures KeptStepAgrees(s, t, View(w, id), slug)
  {
    assert SimilarWorker(s, t, w, slug) && Coherent(s, w);
    SameActive(s.db, t.db, slug);
    var action := WorkerOf(s, w).phase.request.action;
    if action.Fetch? {
      SameItem(s.db, t.db, slug, action.id);
    }
    var s', t' := ViewStep(s, w, id).0, ViewStep(t, w, id).0;
    forall v: nat
      ensures SimilarWorker(s', t', v, slug)
    {
      assert SimilarWorker(s, t, v, slug);
    }
  }

  lemma SameDraftTenant(s: State, t: State, w: nat, slug: string)
    requires Inv(s) && Inv(t) && Similar(s, t, slug)
    requires Owns(s, w, slug) && HasDraft(WorkerOf(s, w).phase)
    ensures WorkerOf(t, w) == WorkerOf(s, w) && WorkerOf(s, w).ctx.slug == slug
    ensures var pk := WorkerOf(s, w).phase.draft.tenant;
            && (pk in s.db.tenants <==> pk in t.db.tenants)
            && (pk in s.db.tenants ==> HasSlug(s.db, pk, slug) && HasSlug(t.db, pk, slug))
    ensures WorkerOf(s, w).phase.id !in s.db.items && WorkerOf(s, w).phase.id !in t.db.items
  {
    assert SimilarWorker(s, t, w, slug) && Coherent(s, w) && Coherent(t, w);
    SameTenant(s.db, t.db, slug, WorkerOf(s, w).phase.draft.tenant);
  }

  lemma {:induction false} KeptClean(s: State, t: State, w: nat, slug: string)
    requires Inv(s) && Inv(t) && Similar(s, t, slug)
    requires Allowed(s, Clean(w)) && Owns(s, w, slug)
    ensures KeptStepAgrees(s, t, Clean(w), slug)
  {
    SameDraftTenant(s, t, w, slug);
    var s', t' := CleanStep(s, w).0, CleanStep(t, w).0;
    forall v: nat
      ensures SimilarWorker(s', t', v, slug)
    {
      assert SimilarWorker(s, t, v, slug);
    }
  }

  /** An insert adds its row to the scope of its own tenant and to no other. */
  lemma InsertInScope(db: Db, id: Uuid, draft: Draft, now: nat, slug: string)
    requires Saves(db, id, draft)
    ensures var db' := Insert(db, id, draft, now);
            && TenantRows(db', slug) == TenantRows(db, slug)
            && Scoped(db', slug) == if HasSlug(db, draft.tenant, slug) then Scoped(db, slug)[id := db'.items[id]]
                                    else Scoped(db, slug)
  {
  }

  lemma {:induction false} KeptSave(s: State, t: State, w: nat, now: nat, slug: string)
    requires Inv(s) && Inv(t) && Similar(s, t, slug)
    requires Allowed(s, Save(w, now)) && Owns(s, w, slug)
    ensures KeptStepAgrees(s, t, Save(w, now), slug)
  {
    SameDraftTenant(s, t, w, slug);
    var Saving(request, id, draft) := WorkerOf(s, w).phase;
    if Saves(s.db, id, draft) {
      InsertInScope(s.db, id, draft, now, slug);
      InsertInScope(t.db, id, draft, now, slug);
    }
    var s', t' := SaveStep(s, w, now).0, SaveStep(t, w, now).0;
    forall v: nat
      ensures SimilarWorker(s', t', v, slug)
    {
      assert SimilarWorker(s, t, v, slug);
    }
  }

  /** What administration makes of one key of `slug` is the same wherever the rows of `slug` are. */
  lemma SameAdministeredTenant(s: State, t: State, e: Event, slug: string, pk: Uuid)
    requires Inv(s) && Inv(t) && Similar(s, t, slug)
    requires IsAdmin(e) && Allowed(s, e) && Allowed(t, e)
    ensures var s', t' := Administer(s.db, e), Administer(t.db, e);
            && (HasSlug(s', pk, slug) <==> HasSlug(t', pk, slug))
            && (HasSlug(s', pk, slug) ==> s'.tenants[pk] == t'.tenants[pk])
  {
    SameTenant(s.db, t.db, slug, pk);
    if e.AddTenant? && e.slug == slug {
      SameTaken(s.db, t.db, slug);
    }
    if e.DeleteTenant? && e.pk == pk && HasSlug(s.db, pk, slug) {
      SameHasItems(s.db, t.db, slug, pk);
    }
  }

  lemma SameAdministration(s: State, t: State, e: Event, slug: string)
    requires Inv(s) && Inv(t) && Similar(s, t, slug)
    requires IsAdmin(e) && Allowed(s, e) && Allowed(t, e)
    ensures TenantRows(Administer(s.db, e), slug) == TenantRows(Administer(t.db, e), slug)
    ensures Scoped(Administer(s.db, e), slug) == Scoped(Administer(t.db, e), slug)
  {
    AdministrationInScope(s.db, e, slug);
    AdministrationInScope(t.db, e, slug);
    forall pk: Uuid {
      SameAdministeredTenant(s, t, e, slug, pk);
    }
  }

  lemma SameTaken(s: Db, t: Db, slug: string)
    requires TenantRows(s, slug) == TenantRows(t, slug)
    ensures SlugTaken(s, slug) <==> SlugTaken(t, slug)
  {
    forall pk: Uuid
      ensures HasSlug(s, pk, slug) <==> HasSlug(t, pk, slug)
    {
      SameTenant(s, t, slug, pk);
    }
  }

  lemma SameHasItems(s: Db, t: Db, slug: string, pk: Uuid)
    requires TenantRows(s, slug) == TenantRows(t, slug) && Scoped(s, slug) == Scoped(t, slug)
    requires HasSlug(s, pk, slug)
    ensures HasItems(s, pk) <==> HasItems(t, pk)
  {
    SameTenant(s, t, slug, pk);
    forall id: Uuid
      ensures id in s.items && s.items[id].tenant == pk <==> id in t.items && t.items[id].tenant == pk
    {
      SameItem(s, t, slug, id);
    }
  }

  /** Administration never moves an item into or out of a scope. */
  lemma AdministrationInScope(db: Db, e: Event, slug: string)
    requires IsAdmin(e) && Referential(db)
    ensures Scoped(Administer(db, e), slug) == Scoped(db, slug)
  {
  }

  lemma {:induction false} KeptAdmin(s: State, t: State, e: Event, slug: string)
    requires Inv(s) && Inv(t) && Similar(s, t, slug)
    requires Allowed(s, e) && IsAdmin(e)
    ensures KeptStepAgrees(s, t, e, slug)
  {
    SameAdministration(s, t, e, slug);
    var s', t' := Step(s, e).0, Step(t, e).0;
    forall v: nat
      ensures SimilarWorker(s', t', v, slug)
    {
      assert SimilarWorker(s, t, v, slug);
    }
  }

  lemma KeptStep(s: State, t: State, e: Event, slug: string)
    requires Inv(s) && Inv(t) && Similar(s, t, slug)
    requires Allowed(s, e) && Kept(s, e, slug)
    ensures KeptStepAgrees(s, t, e, slug)
  {
    match e
    case Arrive(w, request) => KeptArrive(s, t, w, request, slug);
    case View(w, id) => KeptView(s, t, w, id, slug);
    case Clean(w) => KeptClean(s, t, w, slug);
    case Save(w, now) => KeptSave(s, t, w, now, slug);
    case _ => KeptAdmin(s, t, e, slug);
  }

  /** A step of a request for another tenant changes nothing `slug` can see. */
  lemma {:induction false} DroppedStep(s: State, t: State, e: Event, slug: string)
    requires Inv(s) && Similar(s, t, slug)
    requires Allowed(s, e) && !Kept(s, e, slug)
    ensures Similar(Step(s, e).0, t, slug)
    ensures RepliesTo(Step(s, e).1, slug) == []
  {
    var s' := Step(s, e).0;
    NoRepliesTo(Step(s, e).1, slug);
    if e.Save? {
      assert Coherent(s, e.worker);
      var Saving(request, id, draft) := WorkerOf(s, e.worker).phase;
      if Saves(s.db, id, draft) {
        InsertInScope(s.db, id, draft, e.now, slug);
      }
    }
    forall v: nat
      ensures SimilarWorker(s', t, v, slug)
    {
      assert SimilarWorker(s, t, v, slug);
    }
  }

  /** From states that look the same to `slug`, the run and its purged run stay so and answer alike. */
  lemma {:induction false} Unwinding(s: State, t: State, es: seq<Event>, slug: string)
    requires Inv(s) && Inv(t) && Similar(s, t, slug) && IsRun(s, es)
    ensures IsRun(t, Purge(s, es, slug))
    ensures RepliesTo(Outputs(t, Purge(s, es, slug)), slug) == RepliesTo(Outputs(s, es), slug)
    ensures Similar(End(s, es), End(t, Purge(s, es, slug)), slug)
    decreases |es|
  {
    if es != [] {
      var e := es[0];
      var s' := Step(s, e).0;
      var rest := Purge(s', es[1..], slug);
      StepKeepsInv(s, e);
      RepliesToJoin(Step(s, e).1, Outputs(s', es[1..]), slug);
      if Kept(s, e, slug) {
        KeptStep(s, t, e, slug);
        StepKeepsInv(t, e);
        var t' := Step(t, e).0;
        Unwinding(s', t', es[1..], slug);
        var ps := Purge(s, es, slug);
        assert ps[0] == e && ps[1..] == rest;
        RepliesToJoin(Step(t, e).1, Outputs(t', rest), slug);
      } else {
        DroppedStep(s, t, e, slug);
        Unwinding(s', t, es[1..], slug);
      }
    }
  }

  ghost predicate AllIdle(s: State) {
    forall w: nat :: WorkerOf(s, w).phase.Idle?
  }

  /** Noninterference: however requests and administration interleave on however many workers, every reply to
      a request for `slug`, and every row of `slug`, is what it would be had no other tenant sent a request. */
  lemma TenantsDoNotInterfere(s: State, es: seq<Event>, slug: string)
    requires Inv(s) && AllIdle(s) && IsRun(s, es)
    ensures IsRun(s, Purge(s, es, slug))
    ensures RepliesTo(Outputs(s, Purge(s, es, slug)), slug) == RepliesTo(Outputs(s, es), slug)
    ensures Scoped(End(s, Purge(s, es, slug)).db, slug) == Scoped(End(s, es).db, slug)
  {
    forall w: nat
      ensures SimilarWorker(s, s, w, slug)
    {
      assert WorkerOf(s, w).phase.Idle?;
    }
    Unwinding(s, s, es, slug);
  }

  /** What is asked of the service: administration and arriving requests. */
  function Asked(es: seq<Event>): seq<Event> {
    if es == [] then []
    else if IsAdmin(es[0]) || es[0].Arrive? then [es[0]] + Asked(es[1..])
    else Asked(es[1..])
  }

  /** The same of one tenant's requests only. */
  function AskedFor(es: seq<Event>, slug: string): seq<Event> {
    if es == [] then []
    else if IsAdmin(es[0]) || (es[0].Arrive? && Claim(es[0].request) == Some(slug)) then
      [es[0]] + AskedFor(es[1..], slug)
    else AskedFor(es[1..], slug)
  }

  /** Purging leaves exactly the administration and the requests for `slug`, in their order and as often as they
      were made. */
  lemma {:induction false} PurgeLeavesOneTenant(s: State, es: seq<Event>, slug: string)
    requires IsRun(s, es)
    ensures Asked(Purge(s, es, slug)) == AskedFor(es, slug)
    ensures forall e | e in Purge(s, es, slug) && e.Arrive? :: Claim(e.request) == Some(slug)
    ensures forall e | e in es && e.Arrive? && Claim(e.request) == Some(slug) :: e in Purge(s, es, slug)
    decreases |es|
  {
    if es != [] {
      PurgeLeavesOneTenant(Step(s, es[0]).0, es[1..], slug);
      var rest := Purge(Step(s, es[0]).0, es[1..], slug);
      assert ([es[0]] + rest)[1..] == rest;
    }
  }

  // ----- Leftovers in the context variables -----

  function RepliesOnly(outs: seq<Output>): seq<Output> {
    if outs == [] then []
    else if outs[0].Reply? then [outs[0]] + RepliesOnly(outs[1..])
    else RepliesOnly(outs[1..])
  }

  lemma {:induction false} RepliesOnlyJoin(a: seq<Output>, b: seq<Output>)
    ensures RepliesOnly(a + b) == RepliesOnly(a) + RepliesOnly(b)
  {
    if a == [] {
      assert a + b == b;
    } else {
      RepliesOnlyJoin(a[1..], b);
      assert (a + b)[1..] == a[1..] + b;
    }
  }

  predicate SameButLeftover(s: State, t: State, w: nat) {
    var a, b := WorkerOf(s, w), WorkerOf(t, w);
    a.phase == b.phase && (!a.phase.Idle? ==> a.ctx == b.ctx)
  }

  /** `s` and `t` differ only in what finished requests left in the context variables. */
  ghost predicate SameButLeftovers(s: State, t: State) {
    s.db == t.db && s.minted == t.minted && forall w: nat :: SameButLeftover(s, t, w)
  }

  lemma {:induction false} LeftoverStep(s: State, t: State, e: Event)
    requires SameButLeftovers(s, t) && Allowed(s, e)
    ensures Allowed(t, e)
    ensures SameButLeftovers(Step(s, e).0, Step(t, e).0)
    ensures RepliesOnly(Step(s, e).1) == RepliesOnly(Step(t, e).1)
  {
    if !IsAdmin(e) {
      assert SameButLeftover(s, t, e.worker);
    }
    var s', t' := Step(s, e).0, Step(t, e).0;
    forall w: nat
      ensures SameButLeftover(s', t', w)
    {
      assert SameButLeftover(s, t, w);
    }
  }

  /** Nothing resets the context variables, yet no reply and no row depends on what they held before. */
  lemma {:induction false} LeftoversDoNotMatter(s: State, t: State, es: seq<Event>)
    requires SameButLeftovers(s, t) && IsRun(s, es)
    ensures IsRun(t, es)
    ensures RepliesOnly(Outputs(s, es)) == RepliesOnly(Outputs(t, es))
    ensures End(s, es).db == End(t, es).db
    decreases |es|
  {
    if es != [] {
      LeftoverStep(s, t, es[0]);
      var s', t' := Step(s, es[0]).0, Step(t, es[0]).0;
      LeftoversDoNotMatter(s', t', es[1..]);
      RepliesOnlyJoin(Step(s, es[0]).1, Outputs(s', es[1..]));
      RepliesOnlyJoin(Step(t, es[0]).1, Outputs(t', es[1..]));
    }
  }

  ghost predicate IsFresh(s: State, w: nat) {
    WorkerOf(s, w) == Worker(Ctx(DEFAULT_TENANT, None), Idle)
  }

  /** The tenant asked for by the request at step `k`, or the default tenant when there is none. */
  function Served(es: seq<Event>, k: int): Option<string>
    requires k < |es| && (k >= 0 ==> es[k].Arrive?)
  {
    if k < 0 then Some(DEFAULT_TENANT) else Claim(es[k].request)
  }

  ghost predicate IsRejected(s: State, w: nat, request: Request) {
    Resolve(s.db, WorkerOf(s, w).ctx, request.path, request.header, request.reachable).1.Reject?
  }

  /** Log lines are another matter: the line of a rejected request names the tenant of the last request that the
      worker let through to its view, at step `k`, or the default tenant if it has let none through. So it names
      the tenant asked for exactly when the two requests asked for the same one. */
  lemma {:induction false} RejectionIsLoggedUnderLeftover(s: State, es: seq<Event>, w: nat, request: Request)
    returns (k: int)
    requires IsRun(s, es) && IsFresh(s, w)
    requires Allowed(End(s, es), Arrive(w, request)) && IsRejected(End(s, es), w, request)
    ensures -1 <= k < |es| && (k >= 0 ==> Reaches(s, es, w, k))
    ensures forall j | k < j < |es| :: !Reaches(s, es, w, j)
    ensures var outs := Step(End(s, es), Arrive(w, request)).1;
            && |outs| == 2 && outs[1].Reply? && outs[1].response.Failed? && outs[1].response.status in {400, 503}
            && outs[0].LogLine? && Some(outs[0].tenantId) == Served(es, k)
            && (Some(outs[0].tenantId) == Claim(request) <==> Served(es, k) == Claim(request))
  {
    k := LastReached(s, es, w);
  }

  /** Every line logged below the tenant middleware names the tenant the request asked for. */
  lemma AcceptedRequestIsLoggedUnderItsTenant(s: State, e: Event, line: Output)
    requires Inv(s) && Allowed(s, e) && !e.Arrive? && line in Step(s, e).1 && line.LogLine?
    ensures Claim(line.request) == Some(line.tenantId)
  {
    assert Coherent(s, e.worker);
  }

  /** A tenant is added, and worker `w` serves it one request. */
  function OneServed(pk: Uuid, tenant: Tenant, w: nat, request: Request, drawn: Uuid): seq<Event> {
    [AddTenant(pk, tenant.slug, tenant.name, true), Arrive(w, request), View(w, drawn)]
  }

  lemma {:induction false} AfterOneServed(s: State, pk: Uuid, tenant: Tenant, w: nat, request: Request, drawn: Uuid)
    requires s == State(Db(map[], map[]), map[], {}) && drawn != pk
    requires ITEM_ROUTES <= request.path && request.reachable && request.action.Ping?
    requires Claim(request) == Some(tenant.slug) && tenant.active
    ensures var es := OneServed(pk, tenant, w, request, drawn);
            IsRun(s, es) && End(s, es) == State(Db(map[pk := tenant], map[]),
                                                map[w := Worker(Ctx(tenant.slug, Some(pk)), Idle)], {pk, drawn})
  {
    var es := OneServed(pk, tenant, w, request, drawn);
    ItemRoutesAreNotExempt(request.path);
    var s1 := Step(s, es[0]).0;
    assert s1 == State(Db(map[pk := tenant], map[]), map[], {pk});
    assert HasSlug(s1.db, pk, tenant.slug);
    var s2 := Step(s1, es[1]).0;
    RunOfOne(s2, es[2]);
    RunStarts(s1, es[1], [es[2]]);
    RunStarts(s, es[0], [es[1]] + [es[2]]);
    assert es == [es[0]] + ([es[1]] + [es[2]]);
  }

  function FirstLine(outs: seq<Output>): Option<Output> {
    if outs != [] && outs[0].LogLine? then Some(outs[0]) else None
  }

  lemma {:induction false} UnknownIsRejected(s: State, pk: Uuid, tenant: Tenant, w: nat, request: Request)
    requires s.db == Db(map[pk := tenant], map[]) && Allowed(s, Arrive(w, request))
    requires ITEM_ROUTES <= request.path && Claim(request) != Some(tenant.slug)
    ensures var outs := Step(s, Arrive(w, request)).1;
            FirstLine(outs) == Some(LogLine(w, request, WorkerOf(s, w).ctx.slug))
  {
    ItemRoutesAreNotExempt(request.path);
    assert IsRejected(s, w, request);
  }

  /** The leftover does show: from the same fresh workers, two runs that differ only in which worker served a
      tenant end in states that differ in leftovers only, and a request for an unknown tenant is then rejected by
      the same worker with different log lines, one of which names the tenant served before. */
  lemma {:induction false} LeftoversShowInLogs(pk: Uuid, tenant: Tenant, w: nat, v: nat, first: Request, drawn: Uuid,
                                               second: Request) returns (s: State)
    requires v != w && drawn != pk && tenant.active && tenant.slug != DEFAULT_TENANT
    requires ITEM_ROUTES <= first.path && first.reachable && first.action.Ping? && Claim(first) == Some(tenant.slug)
    requires ITEM_ROUTES <= second.path && Claim(second) != Some(tenant.slug)
    ensures Inv(s) && forall u: nat :: IsFresh(s, u)
    ensures IsRun(s, OneServed(pk, tenant, w, first, drawn)) && IsRun(s, OneServed(pk, tenant, v, first, drawn))
    ensures var a, b := End(s, OneServed(pk, tenant, w, first, drawn)), End(s, OneServed(pk, tenant, v, first, drawn));
            && SameButLeftovers(a, b) && Allowed(a, Arrive(w, second)) && Allowed(b, Arrive(w, second))
            && FirstLine(Step(a, Arrive(w, second)).1) == Some(LogLine(w, second, tenant.slug))
            && FirstLine(Step(b, Arrive(w, second)).1) == Some(LogLine(w, second, DEFAULT_TENANT))
  {
    s := State(Db(map[], map[]), map[], {});
    AfterOneServed(s, pk, tenant, w, first, drawn);
    AfterOneServed(s, pk, tenant, v, first, drawn);
    UnknownIsRejected(End(s, OneServed(pk, tenant, w, first, drawn)), pk, tenant, w, second);
    UnknownIsRejected(End(s, OneServed(pk, tenant, v, first, drawn)), pk, tenant, w, second);
  }
}
