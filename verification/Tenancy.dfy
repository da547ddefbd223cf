/** Tenants, the items they own, and the code that resolves, reads and writes under a tenant. */
module Tenancy {
  import opened Context
  import opened Text

  // ----- Tables -----

  datatype Tenant = Tenant(slug: string, name: string, active: bool)

  datatype Item = Item(name: string, description: string, tenant: Uuid, createdAt: nat)

  datatype Db = Db(tenants: map<Uuid, Tenant>, items: map<Uuid, Item>)

  /** The unique index on the slug. */
  ghost predicate UniqueSlugs(db: Db) {
    forall p, q | p in db.tenants && q in db.tenants && db.tenants[p].slug == db.tenants[q].slug :: p == q
  }

  /** The foreign key from items to tenants. */
  ghost predicate Referential(db: Db) {
    forall i | i in db.items :: db.items[i].tenant in db.tenants
  }

  predicate HasSlug(db: Db, pk: Uuid, slug: string) {
    pk in db.tenants && db.tenants[pk].slug == slug
  }

  ghost predicate SlugTaken(db: Db, slug: string) {
    exists pk :: HasSlug(db, pk, slug)
  }

  ghost predicate HasItems(db: Db, pk: Uuid) {
    exists i :: i in db.items && db.items[i].tenant == pk
  }

  // ----- Resolving a request to a tenant -----

  predicate IsSlugStart(c: char) {
    'a' <= c <= 'z' || '0' <= c <= '9'
  }

  /** `^[a-z0-9][a-z0-9_-]{0,62}$`, matched in full. */
  predicate IsSlug(s: string) {
    && 1 <= |s| <= 63
    && IsSlugStart(s[0])
    && forall i | 0 <= i < |s| :: IsSlugStart(s[i]) || s[i] == '_' || s[i] == '-'
  }

  ghost predicate SlugParts(s: string, head: char, tail: string) {
    && s == [head] + tail && |tail| <= 62
    && ('a' <= head <= 'z' || '0' <= head <= '9')
    && forall c | c in tail :: 'a' <= c <= 'z' || '0' <= c <= '9' || c == '_' || c == '-'
  }

  /** The pattern read as a first character and up to 62 more. */
  lemma SlugForm(s: string)
    ensures IsSlug(s) <==> exists head, tail :: SlugParts(s, head, tail)
  {
    if IsSlug(s) {
      assert SlugParts(s, s[0], s[1..]);
    }
    if head, tail :| SlugParts(s, head, tail) {
      forall i | 0 <= i < |s|
        ensures IsSlugStart(s[i]) || s[i] == '_' || s[i] == '-'
      {
        assert s[i] == if i == 0 then head else tail[i - 1];
        assert i > 0 ==> tail[i - 1] in tail;
      }
    }
  }

  function NormalizeTenantId(raw: Option<string>): Option<string> {
    if raw.None? then Some(DEFAULT_TENANT)
    else
      var candidate := Lower(Strip(raw.value));
      if candidate == "" then Some(DEFAULT_TENANT)
      else if IsSlug(candidate) then Some(candidate)
      else None
  }

  lemma SlugCharacters(s: string, c: char)
    requires IsSlug(s) && c in s
    ensures !IsSpace(c) && !('A' <= c <= 'Z') && c as int < 0x80
  {
  }

  lemma SlugIsNormal(s: string)
    requires IsSlug(s)
    ensures Lower(Strip(s)) == s
  {
    forall c | c in s
      ensures !IsSpace(c) && !('A' <= c <= 'Z') && c as int < 0x80
    {
      SlugCharacters(s, c);
    }
    StripOfSpaceless(s);
    LowerOfLower(s);
  }

  lemma SlugCharAt(slug: string, i: nat)
    requires IsSlug(slug) && i < |slug|
    ensures !IsSpace(slug[i])
  {
    assert IsSlugStart(slug[i]) || slug[i] == '_' || slug[i] == '-';
  }

  lemma SlugIsNotEmpty(slug: string)
    requires IsSlug(slug)
    ensures slug != ""
  {
  }

  lemma {:induction false} LowerOfNothing(word: string)
    ensures Lower(word) != "" <==> word != ""
  {
  }

  /** A space lowers to itself, so text that lowers to a slug neither begins nor ends with one. */
  lemma {:induction false} SpellingHasNoPadding(word: string, slug: string)
    requires IsSlug(slug) && Lower(word) == slug
    ensures word != "" && !IsSpace(word[0]) && !IsSpace(word[|word| - 1])
  {
    SlugIsNotEmpty(slug);
    LowerOfNothing(word);
    SlugCharAt(slug, 0);
    SlugCharAt(slug, |slug| - 1);
    LowerOfHead(word);
    LowerOfLast(word);
  }

  lemma NormalizeStripped(raw: string, word: string, slug: string)
    requires Strip(raw) == word && Lower(word) == slug && IsSlug(slug)
    ensures NormalizeTenantId(Some(raw)) == Some(slug)
  {
    SlugIsNotEmpty(slug);
  }

  /** Any spelling of a slug, whatever its case and the space around it, resolves to the slug. */
  lemma {:induction false} SpellingsOfSlug(before: string, word: string, after: string, slug: string)
    requires IsPadding(before) && IsPadding(after) && IsSlug(slug) && Lower(word) == slug
    ensures NormalizeTenantId(Some(before + word + after)) == Some(slug)
  {
    SpellingHasNoPadding(word, slug);
    StripOfPadded(before, word, after);
    NormalizeStripped(before + word + after, word, slug);
  }

  // ----- What a header means -----

  ghost predicate Spells(raw: string, before: string, word: string, after: string, slug: string) {
    raw == before + word + after && IsPadding(before) && IsPadding(after) && Lower(word) == slug && IsSlug(slug)
  }

  /** `raw` is `slug` in any mix of cases, with any padding around it. */
  ghost predicate IsSpelling(raw: string, slug: string) {
    exists before, word, after :: Spells(raw, before, word, after, slug)
  }

  /** An absent or blank header names the public tenant, any other one the slug it spells. */
  ghost predicate Names(header: Option<string>, slug: string) {
    if header.None? || IsPadding(header.value) then slug == DEFAULT_TENANT else IsSpelling(header.value, slug)
  }

  ghost predicate IsMalformed(header: Option<string>) {
    header.Some? && !IsPadding(header.value) && forall slug :: !IsSpelling(header.value, slug)
  }

  lemma {:induction false} StrippedSpells(raw: string)
    requires IsSlug(Lower(Strip(raw)))
    ensures IsSpelling(raw, Lower(Strip(raw)))
  {
    var before, after := StripParts(raw);
    assert Spells(raw, before, Strip(raw), after, Lower(Strip(raw)));
  }

  lemma {:induction false} SpellingIsNotPadding(raw: string, slug: string)
    requires IsSpelling(raw, slug)
    ensures !IsPadding(raw) && NormalizeTenantId(Some(raw)) == Some(slug)
  {
    var before, word, after :| Spells(raw, before, word, after, slug);
    SpellingsOfSlug(before, word, after, slug);
    SpellingHasNoPadding(word, slug);
    assert raw[|before|] == word[0];
  }

  /** A header resolves to a slug exactly when it names it and to none exactly when it is malformed. A normalized
      header is a slug, and sending it back resolves the same way. */
  lemma {:induction false} NormalizedTenantId(raw: Option<string>)
    ensures var n := NormalizeTenantId(raw); n.Some? ==> IsSlug(n.value) && NormalizeTenantId(n) == n
    ensures forall slug :: NormalizeTenantId(raw) == Some(slug) <==> Names(raw, slug)
    ensures NormalizeTenantId(raw).None? <==> IsMalformed(raw)
  {
    var n := NormalizeTenantId(raw);
    assert IsSlug(DEFAULT_TENANT);
    if n.Some? {
      SlugIsNormal(n.value);
    }
    if raw.Some? {
      StripOfPadding(raw.value);
      LowerOfNothing(Strip(raw.value));
      if IsSlug(Lower(Strip(raw.value))) {
        StrippedSpells(raw.value);
      }
      forall slug | IsSpelling(raw.value, slug)
        ensures n == Some(slug) && !IsPadding(raw.value)
      {
        SpellingIsNotPadding(raw.value, slug);
      }
    }
  }

  const SKIP_PREFIXES: seq<string> :=
    ["/healthz", "/readyz", "/metrics", "/api/openapi.json", "/api/docs", "/api/redoc", "/admin/", "/static/"]

  predicate ShouldSkip(path: string) {
    path == "/healthz" || path == "/readyz" || exists i | 0 <= i < |SKIP_PREFIXES| :: SKIP_PREFIXES[i] <= path
  }

  const ITEM_ROUTES := "/api/v1/"

  lemma PrefixLetters(i: nat)
    requires i < |SKIP_PREFIXES|
    ensures |SKIP_PREFIXES[i]| > 5 && (SKIP_PREFIXES[i][1] != 'a' || SKIP_PREFIXES[i][5] != 'v')
  {
  }

  lemma ItemRouteLetters(path: string)
    requires ITEM_ROUTES <= path
    ensures |path| > 5 && path[1] == 'a' && path[5] == 'v'
  {
    assert ITEM_ROUTES[1] == 'a' && ITEM_ROUTES[5] == 'v';
  }

  /** The paths listed one by one add nothing to the prefixes, and no item route has one of the prefixes. */
  lemma ItemRoutesAreNotExempt(path: string)
    ensures ShouldSkip(path) <==> exists i | 0 <= i < |SKIP_PREFIXES| :: SKIP_PREFIXES[i] <= path
    ensures ITEM_ROUTES <= path ==> !ShouldSkip(path)
  {
    if ITEM_ROUTES <= path {
      ItemRouteLetters(path);
      forall i | 0 <= i < |SKIP_PREFIXES|
        ensures !(SKIP_PREFIXES[i] <= path)
      {
        PrefixLetters(i);
      }
    }
    assert "/healthz" == SKIP_PREFIXES[0] && "/readyz" == SKIP_PREFIXES[1];
  }

  /** The two context variables a request reads its tenant from. */
  datatype Ctx = Ctx(slug: string, pk: Option<Uuid>)

  /** `Tenant.objects.get(slug=slug, is_active=True)`, or nothing when no row matches. */
  ghost function FindActive(db: Db, slug: string): Option<Uuid> {
    if pk: Uuid :| HasSlug(db, pk, slug) && db.tenants[pk].active then Some(pk) else None
  }

  datatype Verdict = Proceed | Reject(status: nat)

  /** `TenantMiddleware.__call__` up to `get_response`: the new context, and whether the view runs. */
  ghost function Resolve(db: Db, ctx: Ctx, path: string, header: Option<string>, reachable: bool): (Ctx, Verdict) {
    if ShouldSkip(path) then (Ctx(DEFAULT_TENANT, None), Proceed)
    else
      var slug := NormalizeTenantId(header);
      if slug.None? then (ctx, Reject(400))
      else if !reachable then (ctx, Reject(503))
      else
        var pk := FindActive(db, slug.value);
        if pk.None? then (ctx, Reject(400)) else (Ctx(slug.value, pk), Proceed)
  }

  predicate IsActive(db: Db, pk: Uuid, slug: string) {
    HasSlug(db, pk, slug) && db.tenants[pk].active
  }

  /** A request reaches its view exactly when its path is exempt or its header names an active tenant that the
      database can confirm. The view then runs under that tenant whatever the context held; a rejected request
      leaves the context as it was. */
  lemma {:induction false} ResolvesToActiveTenants(db: Db, ctx: Ctx, path: string, header: Option<string>,
                                                   reachable: bool)
    ensures var (ctx', verdict) := Resolve(db, ctx, path, header, reachable);
            match verdict
            case Proceed =>
              if ShouldSkip(path) then ctx' == Ctx(DEFAULT_TENANT, None)
              else reachable && Names(header, ctx'.slug) && ctx'.pk.Some? && IsActive(db, ctx'.pk.value, ctx'.slug)
            case Reject(status) =>
              && !ShouldSkip(path)
              && ctx' == ctx
              && (IsMalformed(header) || !reachable || NamesNoActive(db, header))
              && status == if !IsMalformed(header) && !reachable then 503 else 400
  {
    NormalizedTenantId(header);
  }

  /** No tenant the header names is active. */
  ghost predicate NamesNoActive(db: Db, header: Option<string>) {
    forall slug, pk: Uuid | Names(header, slug) :: !IsActive(db, pk, slug)
  }

  // ----- Reading -----

  predicate InScope(db: Db, id: Uuid, slug: string) {
    id in db.items && HasSlug(db, db.items[id].tenant, slug)
  }

  /** `Item.scoped.all()` while the context names `slug`. */
  function Scoped(db: Db, slug: string): map<Uuid, Item> {
    map id | id in db.items && InScope(db, id, slug) :: db.items[id]
  }

  // ----- Writing -----

  /** An item that is built but not saved. */
  datatype Draft = Draft(name: string, description: string, tenant: Uuid)

  /** The tenant `create_item` writes under: the pk in the context, else the active tenant of its slug. */
  ghost function WriteTenant(db: Db, ctx: Ctx): Option<Uuid> {
    if ctx.pk.Some? then ctx.pk else FindActive(db, ctx.slug)
  }

  /** `full_clean`: the name is neither blank nor too long, the tenant exists and the id is free. */
  predicate Cleans(db: Db, id: Uuid, draft: Draft) {
    1 <= |draft.name| <= 255 && Saves(db, id, draft)
  }

  /** The constraints an insert is checked against. */
  predicate Saves(db: Db, id: Uuid, draft: Draft) {
    draft.tenant in db.tenants && id !in db.items
  }

  function Insert(db: Db, id: Uuid, draft: Draft, now: nat): Db {
    db.(items := db.items[id := Item(draft.name, draft.description, draft.tenant, now)])
  }

  // ----- The code on the live context variables and tables -----

  class Database {
    var tenants: map<Uuid, Tenant>
    var items: map<Uuid, Item>

    ghost function Tables(): Db
      reads this
    {
      Db(tenants, items)
    }

    constructor (tenants: map<Uuid, Tenant>, items: map<Uuid, Item>)
      ensures this.tenants == tenants && this.items == items
    {
      this.tenants, this.items := tenants, items;
    }
  }

  ghost function CtxOf(vars: ContextVars): Ctx
    reads vars
  {
    Ctx(vars.tenantId, vars.tenantPk)
  }

  method GetActive(db: Database, slug: string) returns (pk: Option<Uuid>)
    requires UniqueSlugs(db.Tables())
    ensures pk == FindActive(db.Tables(), slug)
  {
    if p :| p in db.tenants && db.tenants[p].slug == slug && db.tenants[p].active {
      assert HasSlug(db.Tables(), p, slug);
      pk := Some(p);
    } else {
      pk := None;
    }
  }

  /** The view runs exactly for exempt paths and for headers that name an active tenant; then the context
      names that tenant. Otherwise the context keeps what the last request left there. */
  method EnterTenant(vars: ContextVars, db: Database, path: string, header: Option<string>, reachable: bool)
    returns (verdict: Verdict)
    requires UniqueSlugs(db.Tables())
    modifies vars`tenantId, vars`tenantPk
    ensures (CtxOf(vars), verdict) == Resolve(db.Tables(), old(CtxOf(vars)), path, header, reachable)
    ensures verdict.Reject? ==> CtxOf(vars) == old(CtxOf(vars))
    ensures ShouldSkip(path) ==> verdict.Proceed? && CtxOf(vars) == Ctx(DEFAULT_TENANT, None)
    ensures !ShouldSkip(path) && IsMalformed(header) ==> verdict == Reject(400)
    ensures !ShouldSkip(path) && !IsMalformed(header) && !reachable ==> verdict == Reject(503)
    ensures !ShouldSkip(path) && !IsMalformed(header) && reachable ==>
              if NamesNoActive(db.Tables(), header) then verdict == Reject(400)
              else
                && verdict.Proceed? && Names(header, vars.tenantId) && vars.tenantPk.Some?
                && IsActive(db.Tables(), vars.tenantPk.value, vars.tenantId)
  {
    ResolvesToActiveTenants(db.Tables(), CtxOf(vars), path, header, reachable);
    NormalizedTenantId(header);
    if ShouldSkip(path) {
      vars.tenantId, vars.tenantPk := DEFAULT_TENANT, None;
      return Proceed;
    }
    var slug := NormalizeTenantId(header);
    if slug.None? {
      return Reject(400);
    }
    if !reachable {
      return Reject(503);
    }
    var pk := GetActive(db, slug.value);
    if pk.None? {
      return Reject(400);
    }
    vars.tenantId, vars.tenantPk := slug.value, pk;
    verdict := Proceed;
  }

  /** What `create_item` does: it returns the saved item, or fails with an exception and changes nothing. */
  datatype CreateResult = Created(id: Uuid, row: Item) | DoesNotExist | ValidationError

  /** `pk` is what `create_item` writes under: the key in the context, or without one the key of the active tenant
      of its slug. */
  ghost predicate WritesUnder(db: Db, ctx: Ctx, pk: Uuid) {
    if ctx.pk.Some? then pk == ctx.pk.value else IsActive(db, pk, ctx.slug)
  }

  lemma WriteTenantIsTheOne(db: Db, ctx: Ctx)
    requires UniqueSlugs(db)
    ensures forall pk: Uuid :: WritesUnder(db, ctx, pk) <==> WriteTenant(db, ctx) == Some(pk)
  {
    forall pk: Uuid | IsActive(db, pk, ctx.slug)
      ensures FindActive(db, ctx.slug) == Some(pk)
    {
    }
  }

  /** `create_item` when nothing else touches the tables meanwhile; `id` and `now` are what it draws. */
  method CreateItem(vars: ContextVars, db: Database, name: string, description: string, id: Uuid, now: nat)
    returns (r: CreateResult)
    requires UniqueSlugs(db.Tables())
    modifies db`items
    ensures r.DoesNotExist? <==> forall pk :: !WritesUnder(old(db.Tables()), CtxOf(vars), pk)
    ensures !r.Created? ==> db.items == old(db.items)
    ensures r.Created? <==>
              && 1 <= |name| <= 255 && id !in old(db.items)
              && exists pk :: pk in db.tenants && WritesUnder(old(db.Tables()), CtxOf(vars), pk)
    ensures r.Created? ==>
              && r.id == id
              && r.row.name == name && r.row.description == description && r.row.createdAt == now
              && WritesUnder(old(db.Tables()), CtxOf(vars), r.row.tenant)
              && db.items == old(db.items)[id := r.row]
  {
    ghost var before, ctx := db.Tables(), CtxOf(vars);
    WriteTenantIsTheOne(before, ctx);
    var pk := vars.tenantPk;
    if pk.None? {
      pk := GetActive(db, vars.tenantId);
      if pk.None? {
        return DoesNotExist;
      }
    }
    assert forall p: Uuid :: WritesUnder(before, ctx, p) <==> p == pk.value;
    if !(1 <= |name| <= 255 && pk.value in db.tenants && id !in db.items) {
      assert old(db.Tables()) == before && CtxOf(vars) == ctx;
      assert forall p: Uuid | WritesUnder(old(db.Tables()), CtxOf(vars), p) :: p == pk.value;
      return ValidationError;
    }
    var row := Item(name, description, pk.value, now);
    db.items := db.items[id := row];
    r := Created(id, row);
    assert CtxOf(vars) == ctx && WritesUnder(before, ctx, row.tenant);
  }
}
