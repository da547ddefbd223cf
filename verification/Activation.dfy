/** What (de)activating a tenant does to requests: it decides about those that arrive, not about those that run. */
module Activation {
  import opened Context
  import opened Tenancy
  import opened Isolation

  // ----- States that differ in active flags -----

  ghost predicate SameTables(a: Db, b: Db) {
    && a.items == b.items
    && a.tenants.Keys == b.tenants.Keys
    && forall pk | pk in a.tenants :: a.tenants[pk] == b.tenants[pk].(active := a.tenants[pk].active)
  }

  /** The worker runs the same request in the same context in both states, or runs in at most one of them. */
  predicate SameIfBothRun(s: State, t: State, w: nat) {
    var a, b := WorkerOf(s, w), WorkerOf(t, w);
    !a.phase.Idle? && !b.phase.Idle? ==> a == b
  }

  ghost predicate SameButFlags(s: State, t: State) {
    SameTables(s.db, t.db) && s.minted == t.minted && forall w: nat :: SameIfBothRun(s, t, w)
  }

  predicate RunsInBoth(s: State, t: State, w: nat) {
    WorkerOf(s, w).phase.Idle? <==> WorkerOf(t, w).phase.Idle?
  }

  /** Every worker runs in both states or in neither. */
  ghost predicate RunTogether(s: State, t: State) {
    forall w: nat :: RunsInBoth(s, t, w)
  }

  /** The step is one of a request past its resolution that carries a pk. */
  predicate CarriesPk(s: State, e: Event) {
    !IsAdmin(e) && !e.Arrive? && WorkerOf(s, e.worker).ctx.pk.Some?
  }

  lemma SameFound(a: Db, b: Db, slug: string)
    requires SameTables(a, b) && UniqueSlugs(a)
    ensures FindActive(a, slug).Some? && FindActive(b, slug).Some? ==> FindActive(a, slug) == FindActive(b, slug)
  {
    forall pk: Uuid
      ensures HasSlug(a, pk, slug) <==> HasSlug(b, pk, slug)
    {
    }
  }

  ghost predicate StepAgrees(s: State, t: State, e: Event)
    requires Allowed(s, e) && Allowed(t, e)
  {
    && SameButFlags(Step(s, e).0, Step(t, e).0)
    && (CarriesPk(s, e) <==> CarriesPk(t, e))
    && (CarriesPk(s, e) ==> Step(s, e).1 == Step(t, e).1)
    && (RunTogether(s, t) && (IsAdmin(e) || CarriesPk(s, e)) ==> RunTogether(Step(s, e).0, Step(t, e).0))
  }

  /** A step of worker `w` leaves the other workers as they are. */
  lemma {:induction false} OthersStay(s: State, e: Event, v: nat)
    requires Allowed(s, e) && !IsAdmin(e) && v != e.worker
    ensures WorkerOf(Step(s, e).0, v) == WorkerOf(s, v)
  {
  }

  lemma {:induction false} WorkersAgree(s: State, t: State, s': State, t': State, w: nat)
    requires (forall v: nat :: SameIfBothRun(s, t, v)) && SameIfBothRun(s', t', w)
    requires forall v: nat | v != w :: WorkerOf(s', v) == WorkerOf(s, v) && WorkerOf(t', v) == WorkerOf(t, v)
    ensures forall v: nat :: SameIfBothRun(s', t', v)
    ensures RunTogether(s, t) && RunsInBoth(s', t', w) ==> RunTogether(s', t')
  {
    forall v: nat
      ensures SameIfBothRun(s', t', v)
      ensures RunTogether(s, t) && RunsInBoth(s', t', w) ==> RunsInBoth(s', t', v)
    {
      assert SameIfBothRun(s, t, v) && (RunTogether(s, t) ==> RunsInBoth(s, t, v));
    }
  }

  /** What remains to show of a step of worker `w`: how `w` comes out of it, and with what outputs. */
  lemma {:induction false} OwnStepAgrees(s: State, t: State, e: Event, s': State, t': State)
    requires SameButFlags(s, t) && Allowed(s, e) && Allowed(t, e) && !IsAdmin(e)
    requires s' == Step(s, e).0 && t' == Step(t, e).0
    requires SameIfBothRun(s', t', e.worker) && SameTables(s'.db, t'.db) && s'.minted == t'.minted
    requires CarriesPk(s, e) <==> CarriesPk(t, e)
    requires CarriesPk(s, e) ==> Step(s, e).1 == Step(t, e).1 && RunsInBoth(s', t', e.worker)
    ensures StepAgrees(s, t, e)
  {
    forall v: nat | v != e.worker
      ensures WorkerOf(s', v) == WorkerOf(s, v) && WorkerOf(t', v) == WorkerOf(t, v)
    {
      OthersStay(s, e, v);
      OthersStay(t, e, v);
    }
    WorkersAgree(s, t, s', t', e.worker);
  }

  lemma {:induction false} ArriveAgrees(s: State, t: State, w: nat, request: Request)
    requires SameButFlags(s, t) && UniqueSlugs(s.db) && Allowed(s, Arrive(w, request)) && Allowed(t, Arrive(w, request))
    ensures StepAgrees(s, t, Arrive(w, request))
  {
    if NormalizeTenantId(request.header).Some? {
      SameFound(s.db, t.db, NormalizeTenantId(request.header).value);
    }
    OwnStepAgrees(s, t, Arrive(w, request), Step(s, Arrive(w, request)).0, Step(t, Arrive(w, request)).0);
  }

  lemma {:induction false} ViewAgrees(s: State, t: State, w: nat, id: Uuid)
    requires SameButFlags(s, t) && UniqueSlugs(s.db) && Allowed(s, View(w, id)) && Allowed(t, View(w, id))
    ensures StepAgrees(s, t, View(w, id))
  {
    assert SameIfBothRun(s, t, w);
    var me := WorkerOf(s, w);
    SameFound(s.db, t.db, me.ctx.slug);
    if me.phase.request.action.Fetch? {
      var i := me.phase.request.action.id;
      assert InScope(s.db, i, me.ctx.slug) <==> InScope(t.db, i, me.ctx.slug);
    }
    OwnStepAgrees(s, t, View(w, id), Step(s, View(w, id)).0, Step(t, View(w, id)).0);
  }

  lemma {:induction false} DraftStepAgrees(s: State, t: State, e: Event)
    requires SameButFlags(s, t) && Allowed(s, e) && Allowed(t, e) && (e.Clean? || e.Save?)
    ensures StepAgrees(s, t, e)
  {
    assert SameIfBothRun(s, t, e.worker);
    OwnStepAgrees(s, t, e, Step(s, e).0, Step(t, e).0);
  }

  lemma RequestStepAgrees(s: State, t: State, e: Event)
    requires SameButFlags(s, t) && UniqueSlugs(s.db) && Allowed(s, e) && Allowed(t, e) && !IsAdmin(e)
    ensures StepAgrees(s, t, e)
  {
    match e
    case Arrive(w, request) => ArriveAgrees(s, t, w, request);
    case View(w, id) => ViewAgrees(s, t, w, id);
    case _ => DraftStepAgrees(s, t, e);
  }

  lemma SameAdministered(a: Db, b: Db, e: Event)
    requires SameTables(a, b) && IsAdmin(e)
    ensures SameTables(Administer(a, e), Administer(b, e))
    ensures e.SetActive? ==> SameTables(Administer(a, e), b)
  {
    if e.AddTenant? {
      forall pk: Uuid
        ensures HasSlug(a, pk, e.slug) <==> HasSlug(b, pk, e.slug)
      {
      }
    }
  }

  lemma {:induction false} AdminStepAgrees(s: State, t: State, e: Event)
    requires SameButFlags(s, t) && Allowed(s, e) && Allowed(t, e) && IsAdmin(e)
    ensures StepAgrees(s, t, e)
  {
    SameAdministered(s.db, t.db, e);
    var s', t' := Step(s, e).0, Step(t, e).0;
    forall v: nat
      ensures SameIfBothRun(s', t', v) && (RunTogether(s, t) ==> RunsInBoth(s', t', v))
    {
      assert SameIfBothRun(s, t, v) && (RunTogether(s, t) ==> RunsInBoth(s, t, v));
    }
  }

  /** A flag set on one side only. */
  lemma {:induction false} FlagStepAgrees(s: State, t: State, e: Event)
    requires SameButFlags(s, t) && e.SetActive?
    ensures SameButFlags(Step(s, e).0, t) && (RunTogether(s, t) ==> RunTogether(Step(s, e).0, t))
  {
    SameAdministered(s.db, t.db, e);
    var s' := Step(s, e).0;
    forall v: nat
      ensures SameIfBothRun(s', t, v) && (RunTogether(s, t) ==> RunsInBoth(s', t, v))
    {
      assert SameIfBothRun(s, t, v) && (RunTogether(s, t) ==> RunsInBoth(s, t, v));
    }
  }

  lemma {:induction false} SameButFlagsIsSymmetric(s: State, t: State)
    requires SameButFlags(s, t)
    ensures SameButFlags(t, s) && (RunTogether(s, t) ==> RunTogether(t, s))
  {
    forall v: nat
      ensures SameIfBothRun(t, s, v) && (RunTogether(s, t) ==> RunsInBoth(t, s, v))
    {
      assert SameIfBothRun(s, t, v) && (RunTogether(s, t) ==> RunsInBoth(s, t, v));
    }
  }

  lemma {:induction false} OtherFlagStepAgrees(s: State, t: State, e: Event)
    requires SameButFlags(s, t) && e.SetActive?
    ensures SameButFlags(s, Step(t, e).0) && (RunTogether(s, t) ==> RunTogether(s, Step(t, e).0))
  {
    SameButFlagsIsSymmetric(s, t);
    FlagStepAgrees(t, s, e);
    SameButFlagsIsSymmetric(Step(t, e).0, s);
  }

  // ----- Runs that differ in flag steps -----

  function WithoutFlags(es: seq<Event>): seq<Event> {
    if es == [] then [] else (if es[0].SetActive? then [] else [es[0]]) + WithoutFlags(es[1..])
  }

  /** The outputs of the requests that carry a pk, from their resolution on. */
  ghost function PkOutputs(s: State, es: seq<Event>): seq<Output>
    requires IsRun(s, es)
    decreases |es|
  {
    if es == [] then []
    else (if CarriesPk(s, es[0]) then Step(s, es[0]).1 else []) + PkOutputs(Step(s, es[0]).0, es[1..])
  }

  lemma WithoutFlagsStarts(es: seq<Event>)
    requires es != [] && !es[0].SetActive?
    ensures WithoutFlags(es) != [] && WithoutFlags(es)[0] == es[0] && WithoutFlags(es)[1..] == WithoutFlags(es[1..])
  {
  }

  lemma {:induction false} FlagsDoNotMatter(s: State, t: State, es: seq<Event>, fs: seq<Event>)
    requires Inv(s) && Inv(t) && SameButFlags(s, t) && IsRun(s, es) && IsRun(t, fs)
    requires WithoutFlags(es) == WithoutFlags(fs)
    ensures PkOutputs(s, es) == PkOutputs(t, fs)
    ensures SameTables(End(s, es).db, End(t, fs).db)
    decreases |es| + |fs|
  {
    if es != [] && es[0].SetActive? {
      FlagStepAgrees(s, t, es[0]);
      StepKeepsInv(s, es[0]);
      FlagsDoNotMatter(Step(s, es[0]).0, t, es[1..], fs);
    } else if fs != [] && fs[0].SetActive? {
      OtherFlagStepAgrees(s, t, fs[0]);
      StepKeepsInv(t, fs[0]);
      FlagsDoNotMatter(s, Step(t, fs[0]).0, es, fs[1..]);
    } else if es != [] {
      WithoutFlagsStarts(es);
      WithoutFlagsStarts(fs);
      if IsAdmin(es[0]) {
        AdminStepAgrees(s, t, es[0]);
      } else {
        RequestStepAgrees(s, t, es[0]);
      }
      StepKeepsInv(s, es[0]);
      StepKeepsInv(t, es[0]);
      FlagsDoNotMatter(Step(s, es[0]).0, Step(t, es[0]).0, es[1..], fs[1..]);
    }
  }

  /** Deactivating a tenant does not stop the requests that run for it: over two runs that are the same but for
      (de)activations, wherever these are put, every reply and log line of a request that carries a pk, once it is
      resolved, is the same, and so is every row. */
  lemma {:induction false} DeactivationDoesNotStopAWrite(s: State, es: seq<Event>, fs: seq<Event>)
    requires Inv(s) && IsRun(s, es) && IsRun(s, fs) && WithoutFlags(es) == WithoutFlags(fs)
    ensures PkOutputs(s, es) == PkOutputs(s, fs)
    ensures End(s, es).db.items == End(s, fs).db.items
  {
    FlagsDoNotMatter(s, s, es, fs);
  }

  // ----- Where flags may be set -----

  /** The steps of a run that finishes what runs, each with a pk in its context, beside administration. */
  ghost predicate AllCarryPk(s: State, es: seq<Event>)
    requires IsRun(s, es)
    decreases |es|
  {
    es == [] || ((IsAdmin(es[0]) || CarriesPk(s, es[0])) && AllCarryPk(Step(s, es[0]).0, es[1..]))
  }

  lemma {:induction false} FlagsFitAnywhere(s: State, t: State, es: seq<Event>, fs: seq<Event>)
    requires Inv(s) && SameButFlags(s, t) && RunTogether(s, t) && IsRun(s, es) && AllCarryPk(s, es)
    requires WithoutFlags(es) == WithoutFlags(fs)
    ensures IsRun(t, fs)
    decreases |es| + |fs|
  {
    if es != [] && es[0].SetActive? {
      FlagStepAgrees(s, t, es[0]);
      StepKeepsInv(s, es[0]);
      FlagsFitAnywhere(Step(s, es[0]).0, t, es[1..], fs);
    } else if fs != [] && fs[0].SetActive? {
      OtherFlagStepAgrees(s, t, fs[0]);
      FlagsFitAnywhere(s, Step(t, fs[0]).0, es, fs[1..]);
    } else if es != [] {
      WithoutFlagsStarts(es);
      WithoutFlagsStarts(fs);
      var e := es[0];
      if IsAdmin(e) {
        AdminStepAgrees(s, t, e);
      } else {
        assert SameIfBothRun(s, t, e.worker) && RunsInBoth(s, t, e.worker);
        RequestStepAgrees(s, t, e);
      }
      StepKeepsInv(s, e);
      FlagsFitAnywhere(Step(s, e).0, Step(t, e).0, es[1..], fs[1..]);
    }
  }

  /** However (de)activations are put into or taken out of a run of resolved requests that carry a pk, it stays a
      run, with the same replies and rows. */
  lemma {:induction false} ActivationAnywhereAfterResolution(s: State, es: seq<Event>, fs: seq<Event>)
    requires Inv(s) && IsRun(s, es) && AllCarryPk(s, es) && WithoutFlags(es) == WithoutFlags(fs)
    ensures IsRun(s, fs)
    ensures PkOutputs(s, es) == PkOutputs(s, fs)
    ensures End(s, es).db.items == End(s, fs).db.items
  {
    FlagsFitAnywhere(s, s, es, fs);
    FlagsDoNotMatter(s, s, es, fs);
  }

  // ----- Where the flag decides -----

  /** Past its resolution a request sees the flag in one place only: the fallback lookup of a permitted create that
      carries no pk, and there exactly when the flag of the tenant it looks up differs. */
  lemma {:induction false} OnlyTheFallbackSeesTheFlag(a: Db, b: Db, ctx: Ctx, request: Request, id: Uuid)
    requires SameTables(a, b) && UniqueSlugs(a)
    ensures RunView(a, ctx, request, id) != RunView(b, ctx, request, id)
       <==> ctx.pk.None? && request.action.Create? && request.action.access.Granted? && request.action.payload.Some?
            && exists pk :: HasSlug(a, pk, ctx.slug) && a.tenants[pk].active != b.tenants[pk].active
  {
    SameFound(a, b, ctx.slug);
    forall pk: Uuid
      ensures HasSlug(a, pk, ctx.slug) <==> HasSlug(b, pk, ctx.slug)
    {
    }
    if pk: Uuid :| HasSlug(a, pk, ctx.slug) {
      assert FindActive(a, ctx.slug) == if a.tenants[pk].active then Some(pk) else None;
      assert FindActive(b, ctx.slug) == if b.tenants[pk].active then Some(pk) else None;
    }
  }

  lemma FlagsThatDiffer(db: Db, pk: Uuid, active: bool, slug: string)
    ensures var later := Administer(db, SetActive(pk, active));
            && SameTables(db, later)
            && ((exists p :: HasSlug(db, p, slug) && db.tenants[p].active != later.tenants[p].active)
                <==> HasSlug(db, pk, slug) && db.tenants[pk].active != active)
  {
    var later := Administer(db, SetActive(pk, active));
    if HasSlug(db, pk, slug) && db.tenants[pk].active != active {
      assert later.tenants[pk].active == active;
    }
  }

  /** The outputs of a view and the worker after it tell what `RunView` made of the request. */
  lemma {:induction false} ViewShows(s: State, t: State, w: nat, id: Uuid)
    requires Allowed(s, View(w, id)) && Allowed(t, View(w, id)) && WorkerOf(s, w) == WorkerOf(t, w)
    ensures var me := WorkerOf(s, w);
            Step(s, View(w, id)).1 == Step(t, View(w, id)).1
            && WorkerOf(Step(s, View(w, id)).0, w) == WorkerOf(Step(t, View(w, id)).0, w)
            <==> RunView(s.db, me.ctx, me.phase.request, id) == RunView(t.db, me.ctx, me.phase.request, id)
  {
  }

  /** In every state a run can reach: setting a flag right before a view runs changes what the view does if and only
      if the request is a permitted, valid create on an exempt path and the flag that changes is the public
      tenant's. */
  lemma {:induction false} FlagBeforeView(s: State, pk: Uuid, active: bool, w: nat, id: Uuid)
    requires Inv(s) && Allowed(s, View(w, id))
    ensures var later, request := Step(s, SetActive(pk, active)).0, WorkerOf(s, w).phase.request;
            && Allowed(later, View(w, id))
            && (Step(later, View(w, id)).1 != Step(s, View(w, id)).1
                || WorkerOf(Step(later, View(w, id)).0, w) != WorkerOf(Step(s, View(w, id)).0, w)
                <==> ShouldSkip(request.path) && request.action.Create? && request.action.access.Granted?
                     && request.action.payload.Some?
                     && HasSlug(s.db, pk, DEFAULT_TENANT) && s.db.tenants[pk].active != active)
  {
    assert Coherent(s, w);
    var later, me := Step(s, SetActive(pk, active)).0, WorkerOf(s, w);
    OnlyTheFallbackSeesTheFlag(s.db, later.db, me.ctx, me.phase.request, id);
    FlagsThatDiffer(s.db, pk, active, me.ctx.slug);
    ViewShows(s, later, w, id);
  }

  /** A tenant that is added under a free slug has the row it was given, and the next request that names it reaches
      its view, under its key, if and only if it was added active. */
  lemma {:induction false} AddedTenantIsServed(s: State, pk: Uuid, tenant: Tenant, w: nat, request: Request)
    requires Inv(s) && pk !in s.minted && !SlugTaken(s.db, tenant.slug)
    requires !ShouldSkip(request.path) && request.reachable && Names(request.header, tenant.slug)
    requires WorkerOf(s, w).phase.Idle?
    ensures var add := AddTenant(pk, tenant.slug, tenant.name, tenant.active);
            var later := Step(s, add).0;
            var after := Step(later, Arrive(w, request)).0;
            && later.db == s.db.(tenants := s.db.tenants[pk := tenant])
            && (if tenant.active then WorkerOf(after, w) == Worker(Ctx(tenant.slug, Some(pk)), InView(request))
                else WorkerOf(after, w) == WorkerOf(s, w))
  {
    var add := AddTenant(pk, tenant.slug, tenant.name, tenant.active);
    AdminKeepsInv(s, add);
    NormalizedTenantId(request.header);
    var later := Step(s, add).0;
    assert HasSlug(later.db, pk, tenant.slug);
    assert FindActive(later.db, tenant.slug) == if tenant.active then Some(pk) else None;
  }

  /** New requests do see the flag: right after a tenant is (de)activated, a request that names it reaches its view
      if and only if the tenant is active now. */
  lemma ActivationDecidesNewRequests(s: State, pk: Uuid, active: bool, w: nat, request: Request)
    requires Inv(s) && pk in s.db.tenants && !ShouldSkip(request.path) && request.reachable
    requires NormalizeTenantId(request.header) == Some(s.db.tenants[pk].slug)
    requires WorkerOf(s, w).phase.Idle?
    ensures var later := Step(s, SetActive(pk, active)).0;
            var after := Step(later, Arrive(w, request)).0;
            if active then WorkerOf(after, w) == Worker(Ctx(s.db.tenants[pk].slug, Some(pk)), InView(request))
            else WorkerOf(after, w) == WorkerOf(s, w)
  {
    var later := Step(s, SetActive(pk, active)).0;
    var slug := s.db.tenants[pk].slug;
    AdminKeepsInv(s, SetActive(pk, active));
    assert HasSlug(later.db, pk, slug) && later.db.tenants[pk].active == active;
    assert FindActive(later.db, slug) == if active then Some(pk) else None;
  }
}
