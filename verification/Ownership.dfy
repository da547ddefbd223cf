/** Where items live: scopes partition the item table, and an item stays where it was created. */
module Ownership {
  import opened Context
  import opened Tenancy
  import opened Isolation

  // ----- Partition -----

  /** The items owned by the tenants `pks`. */
  ghost function ItemsUnder(db: Db, pks: set<Uuid>): map<Uuid, Item> {
    map id | id in db.items && db.items[id].tenant in pks :: db.items[id]
  }

  /** The number of items in the scopes of the tenants `pks`, one tenant after the other. */
  ghost function ScopeSizes(db: Db, pks: set<Uuid>): nat
    requires pks <= db.tenants.Keys
  {
    if pks == {} then 0
    else
      var pk :| pk in pks;
      |Scoped(db, db.tenants[pk].slug)| + ScopeSizes(db, pks - {pk})
  }

  lemma ScopeIsOwned(db: Db, pk: Uuid)
    requires UniqueSlugs(db) && pk in db.tenants
    ensures Scoped(db, db.tenants[pk].slug) == ItemsUnder(db, {pk})
  {
  }

  lemma SizesOfParts<K, V>(all: map<K, V>, one: map<K, V>, others: map<K, V>)
    requires all.Keys == one.Keys + others.Keys && one.Keys !! others.Keys
    ensures |all| == |one| + |others|
  {
    assert |all| == |all.Keys| && |one| == |one.Keys| && |others| == |others.Keys|;
  }

  lemma OwnersSplit(db: Db, pk: Uuid, pks: set<Uuid>)
    requires pk in pks
    ensures |ItemsUnder(db, pks)| == |ItemsUnder(db, {pk})| + |ItemsUnder(db, pks - {pk})|
  {
    var one, others, all := ItemsUnder(db, {pk}), ItemsUnder(db, pks - {pk}), ItemsUnder(db, pks);
    SizesOfParts(all, one, others);
  }

  lemma {:induction false} ScopeSizesAddUp(db: Db, pks: set<Uuid>)
    requires UniqueSlugs(db) && pks <= db.tenants.Keys
    ensures ScopeSizes(db, pks) == |ItemsUnder(db, pks)|
    decreases |pks|
  {
    if pks == {} {
      assert ItemsUnder(db, pks) == map[];
    } else {
      var pk :| pk in pks && ScopeSizes(db, pks) == |Scoped(db, db.tenants[pk].slug)| + ScopeSizes(db, pks - {pk});
      ScopeSizesAddUp(db, pks - {pk});
      ScopeIsOwned(db, pk);
      OwnersSplit(db, pk, pks);
    }
  }

  /** In every reachable state the scopes of all tenants are disjoint, together they are the whole item table,
      and their sizes sum to its size. */
  lemma ScopesPartitionItems(s: State, es: seq<Event>)
    requires Inv(s) && IsRun(s, es)
    ensures var db := End(s, es).db;
            && (forall a, b | a != b :: Scoped(db, a).Keys !! Scoped(db, b).Keys)
            && (forall id | id in db.items :: exists pk ::
                  pk in db.tenants && id in Scoped(db, db.tenants[pk].slug)
                  && Scoped(db, db.tenants[pk].slug)[id] == db.items[id])
            && ScopeSizes(db, db.tenants.Keys) == |db.items|
  {
    RunKeepsInv(s, es);
    var db := End(s, es).db;
    ScopeSizesAddUp(db, db.tenants.Keys);
    assert ItemsUnder(db, db.tenants.Keys) == db.items;
    forall id | id in db.items
      ensures exists pk ::
                pk in db.tenants && id in Scoped(db, db.tenants[pk].slug)
                && Scoped(db, db.tenants[pk].slug)[id] == db.items[id]
    {
      var pk := db.items[id].tenant;
      assert pk in db.tenants && id in Scoped(db, db.tenants[pk].slug);
    }
  }

  // ----- Read your write -----

  lemma StepKeepsItem(s: State, e: Event, id: Uuid, slug: string)
    requires Inv(s) && Allowed(s, e) && InScope(s.db, id, slug)
    ensures var db := Step(s, e).0.db; InScope(db, id, slug) && db.items[id] == s.db.items[id]
  {
  }

  /** No step changes an item, moves it to another tenant or takes its tenant away. */
  lemma {:induction false} ItemsStay(s: State, es: seq<Event>, id: Uuid, slug: string)
    requires Inv(s) && IsRun(s, es) && InScope(s.db, id, slug)
    ensures var db := End(s, es).db; InScope(db, id, slug) && db.items[id] == s.db.items[id]
    decreases |es|
  {
    if es != [] {
      StepKeepsItem(s, es[0], id, slug);
      StepKeepsInv(s, es[0]);
      ItemsStay(Step(s, es[0]).0, es[1..], id, slug);
    }
  }

  /** A successful save puts the row it returns into the scope of the tenant the request asked for. */
  lemma CreatedInScope(s: State, w: nat, now: nat, reply: Output)
    requires Inv(s) && Allowed(s, Save(w, now))
    requires reply in Step(s, Save(w, now)).1 && reply.Reply? && reply.response.Shown?
    ensures Claim(reply.request).Some?
    ensures var db, r := Step(s, Save(w, now)).0.db, reply.response;
            && InScope(db, r.id, Claim(reply.request).value)
            && Show(201, r.id, db.items[r.id]) == r
            && r.id !in s.db.items
  {
    assert Coherent(s, w);
  }

  // ----- What is stored and shown is what was asked for -----

  predicate IsCreated(reply: Output) {
    reply.Reply? && reply.response.Shown? && reply.response.status == 201
  }

  /** The item of a 201 reply is stored, with the name and description its own request carries, under the tenant that
      request asked for. */
  ghost predicate IsStored(db: Db, reply: Output)
    requires IsCreated(reply)
  {
    var r := reply.response;
    && AsksFor(reply.request, r.name, r.description)
    && Claim(reply.request).Some? && InScope(db, r.id, Claim(reply.request).value)
    && db.items[r.id].name == r.name && db.items[r.id].description == r.description
    && db.items[r.id].createdAt == r.createdAt
  }

  lemma SaveStoresWhatWasAsked(s: State, e: Event, reply: Output)
    requires Inv(s) && Allowed(s, e) && reply in Step(s, e).1 && IsCreated(reply)
    ensures e == Save(reply.worker, reply.response.createdAt)
    ensures IsStored(Step(s, e).0.db, reply) && reply.response.id !in s.db.items
  {
    assert Coherent(s, e.worker);
  }

  /** Over any run, a 201 reply is given by a save, at step `k`, with the time of that save, and its item is new and
      stays stored as it was asked for. */
  lemma {:induction false} CreatedAsAsked(s: State, es: seq<Event>, reply: Output) returns (k: nat)
    requires Inv(s) && IsRun(s, es) && reply in Outputs(s, es) && IsCreated(reply)
    ensures k < |es| && es[k] == Save(reply.worker, reply.response.createdAt)
    ensures IsStored(End(s, es).db, reply) && reply.response.id !in s.db.items
    decreases |es|
  {
    var s1 := Step(s, es[0]).0;
    StepKeepsInv(s, es[0]);
    if reply in Step(s, es[0]).1 {
      k := 0;
      SaveStoresWhatWasAsked(s, es[0], reply);
      ItemsStay(s1, es[1..], reply.response.id, Claim(reply.request).value);
    } else {
      var later := CreatedAsAsked(s1, es[1..], reply);
      k := later + 1;
      if reply.response.id in s.db.items {
        StepKeepsItem(s, es[0], reply.response.id, s.db.tenants[s.db.items[reply.response.id].tenant].slug);
      }
    }
  }

  lemma {:induction false} NewRowIsAnswered(s: State, e: Event, id: Uuid) returns (reply: Output)
    requires Inv(s) && Allowed(s, e) && id in Step(s, e).0.db.items && id !in s.db.items
    ensures reply in Step(s, e).1 && IsCreated(reply) && reply.response.id == id
  {
    reply := Step(s, e).1[1];
  }

  /** And every row that a run adds was asked for and answered so. */
  lemma {:induction false} EveryNewRowWasAsked(s: State, es: seq<Event>, id: Uuid) returns (reply: Output)
    requires Inv(s) && IsRun(s, es) && id in End(s, es).db.items && id !in s.db.items
    ensures reply in Outputs(s, es) && IsCreated(reply) && reply.response.id == id && IsStored(End(s, es).db, reply)
    decreases |es|
  {
    var s1 := Step(s, es[0]).0;
    StepKeepsInv(s, es[0]);
    if id in s1.db.items {
      reply := NewRowIsAnswered(s, es[0], id);
    } else {
      reply := EveryNewRowWasAsked(s1, es[1..], id);
    }
    var _ := CreatedAsAsked(s, es, reply);
  }

  /** In every reachable state, an item is shown by a lookup only to a permitted request for it, as it is stored, and
      only when the tenant the request asked for owns it. */
  lemma ShownIsOwn(s: State, e: Event, reply: Output)
    requires Inv(s) && Allowed(s, e) && reply in Step(s, e).1
    requires reply.Reply? && reply.response.Shown? && reply.response.status == 200
    ensures reply.request.action == Fetch(Granted, reply.response.id)
    ensures Claim(reply.request).Some? && InScope(s.db, reply.response.id, Claim(reply.request).value)
    ensures var row := s.db.items[reply.response.id];
            reply.response == Shown(200, reply.response.id, row.name, row.description, row.createdAt)
  {
    assert Coherent(s, e.worker);
  }

  /** An item returned by a create is found, as returned, by every later permitted lookup under its own tenant
      and by none under another, whatever ran in between. */
  lemma ReadYourWrite(s: State, w: nat, now: nat, reply: Output, es: seq<Event>, v: nat, drawn: Uuid)
    requires Inv(s) && Allowed(s, Save(w, now)) && IsRun(Step(s, Save(w, now)).0, es)
    requires reply in Step(s, Save(w, now)).1 && reply.Reply? && reply.response.Shown?
    requires Allowed(End(Step(s, Save(w, now)).0, es), View(v, drawn))
    requires WorkerOf(End(Step(s, Save(w, now)).0, es), v).phase.request.action == Fetch(Granted, reply.response.id)
    ensures var later := End(Step(s, Save(w, now)).0, es);
            var request := WorkerOf(later, v).phase.request;
            Step(later, View(v, drawn)).1
              == [Reply(v, request, if Claim(request) == Claim(reply.request) then reply.response.(status := 200)
                                    else Failed(404))]
  {
    var s1 := Step(s, Save(w, now)).0;
    CreatedInScope(s, w, now, reply);
    StepKeepsInv(s, Save(w, now));
    ItemsStay(s1, es, reply.response.id, Claim(reply.request).value);
    RunKeepsInv(s1, es);
    assert Coherent(End(s1, es), v);
  }

  /** An insert that was validated fails only when its tenant was deleted in between: ids never clash. */
  lemma SaveFailsOnlyWithoutTenant(s: State, w: nat, now: nat)
    requires Inv(s) && Allowed(s, Save(w, now))
    ensures var Saving(request, id, draft) := WorkerOf(s, w).phase;
            Reply(w, request, Failed(500)) in Step(s, Save(w, now)).1 <==> draft.tenant !in s.db.tenants
  {
    assert Coherent(s, w);
  }
}
