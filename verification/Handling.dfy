/** One request on a worker of its own: middleware, view, service and tables in sequence. */
module Handling {
  import opened Context
  import opened Tenancy
  import opened Isolation
  import Noninterference

  /** Tables, context and response after a request that nothing interleaves with. */
  ghost function Alone(db: Db, ctx: Ctx, request: Request, id: Uuid, now: nat): (Db, Ctx, Response) {
    var (entered, verdict) := Resolve(db, ctx, request.path, request.header, request.reachable);
    if verdict.Reject? then (db, entered, Failed(verdict.status))
    else
      var (phase, response) := RunView(db, entered, request, id);
      if response.Some? then (db, entered, response.value)
      else if !Cleans(db, id, phase.draft) then (db, entered, Failed(500))
      else
        var after := Insert(db, id, phase.draft, now);
        (after, entered, Show(201, id, after.items[id]))
  }

  /** `ItemCreateView.post`: refused without the role, and on an invalid payload; else the item asked for is stored
      under the tenant of the context and returned, or the request fails and nothing is stored. That is what the
      create phases of the machine do in sequence. */
  method Post(vars: ContextVars, db: Database, access: Access, payload: Option<Payload>, id: Uuid, now: nat)
    returns (response: Response)
    requires UniqueSlugs(db.Tables())
    modifies db`items
    ensures access.Anonymous? ==> response == Failed(401) && db.items == old(db.items)
    ensures access.NoRole? ==> response == Failed(403) && db.items == old(db.items)
    ensures access.Granted? && payload.None? ==> response == Failed(400) && db.items == old(db.items)
    ensures access.Granted? && payload.Some? ==>
              var Payload(name, description) := payload.value;
              if exists pk :: CanStore(old(db.Tables()), CtxOf(vars), name, id, pk) then
                && response == Shown(201, id, name, description, now)
                && exists pk :: CanStore(old(db.Tables()), CtxOf(vars), name, id, pk)
                                && db.items == old(db.items)[id := Item(name, description, pk, now)]
              else response == Failed(500) && db.items == old(db.items)
    ensures var request := Request("", None, true, Create(access, payload));
            var (phase, answer) := RunView(old(db.Tables()), CtxOf(vars), request, id);
            if answer.Some? then response == answer.value && db.items == old(db.items)
            else if !Cleans(old(db.Tables()), id, phase.draft) then response == Failed(500) && db.items == old(db.items)
            else
              && db.Tables() == Insert(old(db.Tables()), id, phase.draft, now)
              && response == Show(201, id, db.items[id])
  {
    if access != Granted {
      return Denied(access);
    }
    if payload.None? {
      return Failed(400);
    }
    ghost var before, ctx := db.Tables(), CtxOf(vars);
    var r := CreateItem(vars, db, payload.value.name, payload.value.description, id, now);
    WriteTenantIsTheOne(before, ctx);
    if r.Created? {
      assert CanStore(before, ctx, payload.value.name, id, r.row.tenant);
      response := Show(201, r.id, r.row);
    } else {
      response := Failed(500);
    }
  }

  /** An item of this name and id can be stored under the tenant `pk`, and that is the one the code stores under. */
  ghost predicate CanStore(db: Db, ctx: Ctx, name: string, id: Uuid, pk: Uuid) {
    WritesUnder(db, ctx, pk) && pk in db.tenants && id !in db.items && 1 <= |name| <= 255
  }

  /** `ItemDetailView.get` */
  method Get(vars: ContextVars, db: Database, access: Access, id: Uuid) returns (response: Response)
    ensures access.Anonymous? ==> response == Failed(401)
    ensures access.NoRole? ==> response == Failed(403)
    ensures access.Granted? ==>
              response == if InScope(db.Tables(), id, vars.tenantId)
                          then Shown(200, id, db.items[id].name, db.items[id].description, db.items[id].createdAt)
                          else Failed(404)
  {
    if access != Granted {
      return Denied(access);
    }
    if id in db.items && db.items[id].tenant in db.tenants && db.tenants[db.items[id].tenant].slug == vars.tenantId {
      response := Show(200, id, db.items[id]);
    } else {
      response := Failed(404);
    }
  }

  /** The header names an active tenant and the database can say so. */
  ghost predicate MayEnter(db: Db, request: Request) {
    !IsMalformed(request.header) && request.reachable && !NamesNoActive(db, request.header)
  }

  /** A request from the middleware to its response, on the live context variables and tables. */
  method Handle(vars: ContextVars, db: Database, request: Request, id: Uuid, now: nat) returns (response: Response)
    requires UniqueSlugs(db.Tables())
    modifies vars`tenantId, vars`tenantPk, db`items
    ensures (db.Tables(), CtxOf(vars), response) == Alone(old(db.Tables()), old(CtxOf(vars)), request, id, now)
    ensures !ShouldSkip(request.path) && IsMalformed(request.header) ==> response == Failed(400)
    ensures !ShouldSkip(request.path) && !IsMalformed(request.header) ==>
              && (!request.reachable ==> response == Failed(503))
              && (request.reachable && NamesNoActive(old(db.Tables()), request.header) ==> response == Failed(400))
    ensures request.action.Ping? && (ShouldSkip(request.path) || MayEnter(old(db.Tables()), request)) ==>
              response == Pong
  {
    var verdict := EnterTenant(vars, db, request.path, request.header, request.reachable);
    if verdict.Reject? {
      return Failed(verdict.status);
    }
    match request.action {
      case Ping => response := Pong;
      case Fetch(access, i) => response := Get(vars, db, access, i);
      case Create(access, payload) => response := Post(vars, db, access, payload, id, now);
    }
  }

  /** The steps of a worker that handles a request without interruption. */
  ghost function OwnSteps(s: State, w: nat, request: Request, id: Uuid, now: nat): seq<Event> {
    var (entered, verdict) := Resolve(s.db, WorkerOf(s, w).ctx, request.path, request.header, request.reachable);
    if verdict.Reject? then [Arrive(w, request)]
    else
      var (phase, response) := RunView(s.db, entered, request, id);
      if response.Some? then [Arrive(w, request), View(w, id)]
      else if !Cleans(s.db, id, phase.draft) then [Arrive(w, request), View(w, id), Clean(w)]
      else [Arrive(w, request), View(w, id), Clean(w), Save(w, now)]
  }

  ghost predicate EndsAs(s: State, es: seq<Event>, w: nat, request: Request, db: Db, ctx: Ctx, response: Response) {
    && IsRun(s, es)
    && End(s, es).db == db
    && WorkerOf(End(s, es), w) == Worker(ctx, Idle)
    && Noninterference.RepliesOnly(Outputs(s, es)) == [Reply(w, request, response)]
  }

  lemma OneReply(outs: seq<Output>, reply: Output)
    requires reply.Reply? && (outs == [reply] || (|outs| == 2 && outs[0].LogLine? && outs[1] == reply))
    ensures Noninterference.RepliesOnly(outs) == [reply]
  {
  }

  lemma FinishCreate(s: State, w: nat, now: nat)
    requires WorkerOf(s, w).phase.Cleaning?
    ensures var me := WorkerOf(s, w);
            var Cleaning(request, id, draft) := me.phase;
            if !Cleans(s.db, id, draft) then EndsAs(s, [Clean(w)], w, request, s.db, me.ctx, Failed(500))
            else
              var db := Insert(s.db, id, draft, now);
              EndsAs(s, [Clean(w), Save(w, now)], w, request, db, me.ctx, Show(201, id, db.items[id]))
  {
    var me := WorkerOf(s, w);
    var Cleaning(request, id, draft) := me.phase;
    if Cleans(s.db, id, draft) {
      var s1 := Step(s, Clean(w)).0;
      RunOfOne(s1, Save(w, now));
      RunStarts(s, Clean(w), [Save(w, now)]);
      assert [Clean(w)] + [Save(w, now)] == [Clean(w), Save(w, now)];
      var outs := Outputs(s, [Clean(w), Save(w, now)]);
      assert outs == Step(s1, Save(w, now)).1;
      OneReply(outs, outs[1]);
    } else {
      RunOfOne(s, Clean(w));
      OneReply(Step(s, Clean(w)).1, Reply(w, request, Failed(500)));
    }
  }

  lemma FinishView(s: State, w: nat, id: Uuid, now: nat)
    requires WorkerOf(s, w).phase.InView? && id !in s.minted
    ensures var me := WorkerOf(s, w);
            var request := me.phase.request;
            var (phase, response) := RunView(s.db, me.ctx, request, id);
            if response.Some? then EndsAs(s, [View(w, id)], w, request, s.db, me.ctx, response.value)
            else if !Cleans(s.db, id, phase.draft) then
              EndsAs(s, [View(w, id), Clean(w)], w, request, s.db, me.ctx, Failed(500))
            else
              var db := Insert(s.db, id, phase.draft, now);
              EndsAs(s, [View(w, id), Clean(w), Save(w, now)], w, request, db, me.ctx, Show(201, id, db.items[id]))
  {
    var me := WorkerOf(s, w);
    var (phase, response) := RunView(s.db, me.ctx, me.phase.request, id);
    if response.Some? {
      RunOfOne(s, View(w, id));
      OneReply(Step(s, View(w, id)).1, Reply(w, me.phase.request, response.value));
    } else {
      var s1 := Step(s, View(w, id)).0;
      FinishCreate(s1, w, now);
      var rest := if Cleans(s.db, id, phase.draft) then [Clean(w), Save(w, now)] else [Clean(w)];
      RunStarts(s, View(w, id), rest);
      assert Outputs(s, [View(w, id)] + rest) == Outputs(s1, rest);
      assert [View(w, id)] + rest
          == if Cleans(s.db, id, phase.draft) then [View(w, id), Clean(w), Save(w, now)] else [View(w, id), Clean(w)];
    }
  }

  /** What follows a silent step ends the same when the step is put in front. */
  lemma SilentStepFirst(s: State, e: Event, rest: seq<Event>, w: nat, request: Request, db: Db, ctx: Ctx,
                        response: Response)
    requires Allowed(s, e) && Step(s, e).1 == [] && EndsAs(Step(s, e).0, rest, w, request, db, ctx, response)
    ensures EndsAs(s, [e] + rest, w, request, db, ctx, response)
  {
    RunStarts(s, e, rest);
    assert Outputs(s, [e] + rest) == Outputs(Step(s, e).0, rest);
  }

  /** The sequential code is one of the interleavings: a worker that is not interrupted takes the tables, its
      context and the client to exactly where the code takes them. */
  lemma AloneIsARun(s: State, w: nat, request: Request, id: Uuid, now: nat)
    requires WorkerOf(s, w).phase.Idle? && id !in s.minted
    ensures var (db, ctx, response) := Alone(s.db, WorkerOf(s, w).ctx, request, id, now);
            EndsAs(s, OwnSteps(s, w, request, id, now), w, request, db, ctx, response)
  {
    var (entered, verdict) := Resolve(s.db, WorkerOf(s, w).ctx, request.path, request.header, request.reachable);
    var arrive := Arrive(w, request);
    if verdict.Reject? {
      RunOfOne(s, arrive);
      OneReply(Step(s, arrive).1, Step(s, arrive).1[1]);
    } else {
      var (db, ctx, response) := Alone(s.db, WorkerOf(s, w).ctx, request, id, now);
      var own := OwnSteps(s, w, request, id, now);
      FinishView(Step(s, arrive).0, w, id, now);
      assert own == [arrive] + own[1..];
      SilentStepFirst(s, arrive, own[1..], w, request, db, ctx, response);
    }
  }
}
