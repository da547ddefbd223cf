/** The migrations that give every item a tenant, as the starting point of every later run. */
module Migrations {
  import opened Context
  import opened Tenancy
  import opened Isolation
  import Ownership

  /** An item while its tenant column still allows null. */
  datatype PartialItem = PartialItem(name: string, description: string, tenant: Option<Uuid>, createdAt: nat)

  ghost predicate PublicExists(tenants: map<Uuid, Tenant>) {
    SlugTaken(Db(tenants, map[]), DEFAULT_TENANT)
  }

  ghost predicate SameFields(a: PartialItem, b: Item) {
    a.name == b.name && a.description == b.description && a.createdAt == b.createdAt
  }

  /** The two tables while the migrations run. */
  class Schema {
    var tenants: map<Uuid, Tenant>
    var items: map<Uuid, PartialItem>

    ghost predicate UniqueTenants()
      reads this
    {
      UniqueSlugs(Db(tenants, map[]))
    }

    constructor (tenants: map<Uuid, Tenant>, items: map<Uuid, PartialItem>)
      ensures this.tenants == tenants && this.items == items
    {
      this.tenants, this.items := tenants, items;
    }

    /** `seed_public_tenant`: get or create, so an existing public tenant keeps its row even when inactive. */
    method SeedPublicTenant(drawn: Uuid)
      requires UniqueTenants() && drawn !in tenants
      modifies this`tenants
      ensures UniqueTenants() && PublicExists(tenants)
      ensures tenants == if PublicExists(old(tenants)) then old(tenants)
                         else old(tenants)[drawn := Tenant(DEFAULT_TENANT, "Public", true)]
    {
      if pk :| pk in tenants && tenants[pk].slug == DEFAULT_TENANT {
        assert HasSlug(Db(tenants, map[]), pk, DEFAULT_TENANT);
        return;
      }
      ghost var before := Db(tenants, map[]);
      tenants := tenants[drawn := Tenant(DEFAULT_TENANT, "Public", true)];
      assert HasSlug(Db(tenants, map[]), drawn, DEFAULT_TENANT);
      assert !SlugTaken(before, DEFAULT_TENANT);
    }

    /** `AddField` with `null=True`: no item is lost or gained, none has a tenant, and all else is as it was. */
    method AddTenantColumn()
      modifies this`items
      ensures items.Keys == old(items).Keys
      ensures forall id | id in items ::
                && items[id].tenant.None?
                && items[id].name == old(items)[id].name
                && items[id].description == old(items)[id].description
                && items[id].createdAt == old(items)[id].createdAt
    {
      items := map id | id in items :: items[id].(tenant := None);
    }

    /** `assign_public_tenant`: fails and changes nothing without a public tenant; otherwise gives it every
        item that has no tenant, and no other. */
    method AssignPublicTenant() returns (ok: bool)
      requires UniqueTenants()
      modifies this`items
      ensures ok <==> PublicExists(tenants)
      ensures !ok ==> items == old(items)
      ensures ok ==> items.Keys == old(items).Keys
      ensures ok ==> forall id | id in items ::
                if old(items)[id].tenant.Some? then items[id] == old(items)[id]
                else
                  && items[id].tenant.Some?
                  && HasSlug(Db(tenants, map[]), items[id].tenant.value, DEFAULT_TENANT)
                  && items[id] == old(items)[id].(tenant := items[id].tenant)
    {
      if pk :| pk in tenants && tenants[pk].slug == DEFAULT_TENANT {
        assert HasSlug(Db(tenants, map[]), pk, DEFAULT_TENANT);
        items := map id | id in items :: if items[id].tenant.None? then items[id].(tenant := Some(pk)) else items[id];
        ok := true;
      } else {
        ok := false;
      }
    }

    /** `AlterField` to a required tenant: fails when an item has none. */
    method RequireTenant() returns (ok: bool, rows: map<Uuid, Item>)
      ensures ok <==> forall id | id in items :: items[id].tenant.Some?
      ensures !ok ==> rows == map[]
      ensures ok ==> rows.Keys == items.Keys
      ensures ok ==> forall id | id in rows ::
                SameFields(items[id], rows[id]) && Some(rows[id].tenant) == items[id].tenant
    {
      ok := forall id | id in items :: items[id].tenant.Some?;
      rows := map[];
      if ok {
        rows := map id | id in items ::
          Item(items[id].name, items[id].description, items[id].tenant.value, items[id].createdAt);
      }
    }

    /** Both migrations in dependency order. They succeed on any tables, and every item ends up under the
        public tenant with its other fields unchanged. */
    method Migrate(drawn: Uuid) returns (ok: bool, db: Db)
      requires UniqueTenants() && drawn !in tenants
      modifies this
      ensures ok
      ensures UniqueSlugs(db) && Referential(db)
      ensures db.items.Keys == old(items).Keys && old(tenants).Keys <= db.tenants.Keys <= old(tenants).Keys + {drawn}
      ensures forall pk | pk in old(tenants) :: db.tenants[pk] == old(tenants)[pk]
      ensures forall id | id in db.items ::
                SameFields(old(items)[id], db.items[id]) && InScope(db, id, DEFAULT_TENANT)
    {
      SeedPublicTenant(drawn);
      AddTenantColumn();
      var backfilled := AssignPublicTenant();
      assert backfilled;
      var rows;
      ok, rows := RequireTenant();
      db := Db(tenants, rows);
      forall id | id in db.items
        ensures SameFields(old(items)[id], db.items[id]) && InScope(db, id, DEFAULT_TENANT)
      {
        assert HasSlug(Db(tenants, map[]), rows[id].tenant, DEFAULT_TENANT);
      }
    }
  }

  /** From migrated tables on, whatever requests and administration follow, tenant deletion included, every
      item has an existing tenant, and an item from before the migration stays under the public tenant. */
  lemma ReferentialForEver(db: Db, minted: set<Uuid>, es: seq<Event>)
    requires UniqueSlugs(db) && Referential(db) && db.tenants.Keys <= minted && db.items.Keys <= minted
    requires IsRun(State(db, map[], minted), es)
    ensures Referential(End(State(db, map[], minted), es).db)
    ensures db.items.Keys <= End(State(db, map[], minted), es).db.items.Keys
    ensures forall id | id in db.items && InScope(db, id, DEFAULT_TENANT) ::
              InScope(End(State(db, map[], minted), es).db, id, DEFAULT_TENANT)
  {
    var s := State(db, map[], minted);
    assert Inv(s);
    RunKeepsInv(s, es);
    forall id | id in db.items
      ensures id in End(s, es).db.items
      ensures InScope(db, id, DEFAULT_TENANT) ==> InScope(End(s, es).db, id, DEFAULT_TENANT)
    {
      Ownership.ItemsStay(s, es, id, db.tenants[db.items[id].tenant].slug);
    }
  }
}
