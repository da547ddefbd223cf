# A verified model of the Django DRF base template

The template is a multi-tenant API service. This project models the four parts of it that have behaviour
worth a proof, and proves what each of them is for.

* **Tenant isolation** (`Context`, `Tenancy`, `Isolation`, `Noninterference`, `Ownership`, `Activation`, `Handling`,
  `Migrations`). The tenant middleware stores a slug and a primary key in context variables that nothing ever
  resets; reads filter by the slug and writes use the key. `Tenancy` and `Handling` hold the code on live context
  variables and tables; `Isolation` lets any number of workers and administrators interleave step by step
  (resolve, view, clean, save; add, activate or deactivate, delete). On that machine tenants are proved not to
  influence each other, leftovers in the context variables are proved not to matter, and scopes are proved to
  partition the item table. `Migrations` supplies the starting point.
* **Logging** (`Text`, `Bearer`, `Redaction`, `Correlation`). Redaction of nested values and of Bearer tokens inside
  text, and the link between the id in a log record and the id in the response header.
* **Bootstrap** (`Sed`, `Placeholders`, `Bootstrap`, `Cleanup`). The script escapes values for sed, runs six
  substitutions one after the other and cleans up two files with awk. The `s` command follows the `sed` utility
  in the Shell and Utilities volume of IEEE Std 1003.1-2017.
* **Metrics** (`Metrics`, `Allowlist`). Two metrics that concurrent requests update one after the other, and the
  address allowlist of the metrics endpoint.

Conventions: UUIDs are natural numbers of which only identity matters; `minted` in `Isolation.State` holds those
already drawn, and a drawn UUID is new. Clocks, drawn UUIDs, the outcome of authentication and role check, the
verdict of the request serializer and the reachability of the database while a tenant is resolved are inputs of
the steps. Responses are reduced to a status and the fields an item is shown with.

Where the code and its documentation disagree the model follows the code:

* `docs/adr/0002-multitenancy-strategy.md` has every log record carry the tenant id. The record of a rejected request
  carries the tenant of the last request the worker let through to a view, or "public" if there was none
  (`Noninterference.RejectionIsLoggedUnderLeftover`).
* The comments in `scripts/bootstrap.sh` present the secret key as patched directly into `.env`. It is inserted as
  drawn exactly when it contains no `&` (`Sed.SecretKeyPatchIsExact`).

Run `dafny verify dfyconfig.toml` to check everything.

## Model

| member | source | states |
|---|---|---|
| `Tenancy.NormalizedTenantId` | config/middleware/tenant.py:30-41 | for every header: it resolves to a slug exactly when it is some spelling of that slug, to the public one when absent or blank, and to none exactly when it is present, not blank and no spelling of a slug; an accepted id is a slug and sent back is accepted unchanged |
| `Tenancy.SlugForm` | config/middleware/tenant.py:15 | a slug is one small letter or digit and up to 62 more, underscores or hyphens |
| `Tenancy.SpellingsOfSlug` | config/middleware/tenant.py:34 | any spelling of a slug, whatever its case and the space around it, resolves to that slug |
| `Tenancy.ItemRoutesAreNotExempt` | config/middleware/tenant.py:44-47 | the test of whole paths adds nothing to the test of prefixes, and no path under the API's item routes skips tenant validation |
| `Tenancy.ResolvesToActiveTenants` | config/middleware/tenant.py:62-118 | a request reaches its view exactly when its path is exempt or its header names an active tenant the reachable database holds; then the context names that tenant whatever it held before, and after a rejection (400 for a malformed header or when no tenant it names is active, 503 when the database cannot be asked) it is what it was |
| `Tenancy.GetActive` | config/middleware/tenant.py:86-88 | the lookup by slug among active tenants finds the one row or nothing |
| `Tenancy.EnterTenant` | config/middleware/tenant.py:62-118 | the middleware on live context variables, for every path, header and database: 400 for each malformed header and for each that names no active tenant, 503 without a database, and else the view under slug and pk of the active tenant that is named |
| `Tenancy.CreateItem` | apps/example/services.py:9-18 | the service on live variables and table: the row it adds has the name, description and time given and the tenant of the context, by pk or else by slug; exactly when it fails, and that the table then stays |
| `Handling.Post` | apps/example/api/views.py:53-64 | 401, 403 and 400 by access and payload; else 201 with the item as asked for, stored under the tenant of the context, exactly when it can be stored, or 500 and nothing stored; as the three create phases of the machine do in sequence |
| `Handling.Get` | apps/example/api/views.py:80-86 | a permitted lookup shows the item, field by field, if and only if it is in the scope of the current slug, else 404; 401 and 403 without permission |
| `Handling.Handle` | config/middleware/tenant.py:62-118 | a whole request on live state: tables, context and response of the sequential reading, with 400 for every malformed header and 503 without a database |
| `Handling.AloneIsARun` | apps/example/api/views.py:53-86 | the sequential code is one interleaving of the machine: same tables, same context, one reply, the same one |
| `Isolation.StepKeepsInv` | apps/tenants/models.py:14-55 | every step of a request or of administration keeps unique slugs, the foreign key, the coherence of every running request and the distinctness of drafts |
| `Isolation.RunKeepsInv` | apps/tenants/models.py:14-55 | so does every run |
| `Isolation.ClaimIsWhatIsNamed` | config/middleware/tenant.py:63-69 | the tenant a request asks for is the public one on an exempt path and else the one its header names |
| `Isolation.LastReached` | config/middleware/tenant.py:114-117 | after any run, whatever was rejected since, a worker's context holds what its last request that reached a view put there: the slug that request asked for and, unless its path was exempt, the pk of that tenant, active at the time |
| `Isolation.PkAndSlugAgree` | config/middleware/tenant.py:86-118 | in every reachable state where a request runs, either its path is exempt and the context is the public slug alone, or the context holds the pk of the tenant it asked for, which was active when the request was resolved at its arrival, and which still exists, under that slug, if and only if no deletion has taken it since; so reads by slug and writes by pk mean one tenant |
| `Isolation.PkCanDangle` | apps/tenants/models.py:48-52 | for every item request and every active tenant it names, a run in which that tenant, having no items, is deleted between the arrival and the view |
| `Isolation.ItemRequestsCarryPk` | apps/example/services.py:10-13 | in every reachable state a running request on an item route has its tenant's pk in the context, so the fallback lookup by slug never decides where it writes |
| `Noninterference.Unwinding` | apps/tenants/models.py:33-44 | two states that look alike to a tenant stay so, and answer it alike, when one runs everything and the other skips all other tenants' requests |
| `Noninterference.TenantsDoNotInterfere` | config/middleware/tenant.py:50-57 | for any interleaving on any number of workers, every reply to a tenant's requests and every row of it is what it would be without any other tenant's requests |
| `Noninterference.PurgeLeavesOneTenant` | config/middleware/tenant.py:62-118 | the administration and arrivals of the purged run are exactly, in order and as often, those of the whole run without other tenants' requests |
| `Noninterference.LeftoversDoNotMatter` | config/context.py:4-6 | runs that start with different leftovers in the context variables give the same replies and the same tables |
| `Noninterference.RejectionIsLoggedUnderLeftover` | config/middleware/tenant.py:70-112 | after any run from a fresh worker, a rejected request is logged under the tenant of the last request this worker let through to a view, or the public one: under its own exactly when both asked for the same |
| `Noninterference.AcceptedRequestIsLoggedUnderItsTenant` | apps/example/api/views.py:62 | every line logged below the middleware names the tenant the request asked for |
| `Noninterference.LeftoversShowInLogs` | config/middleware/tenant.py:89-90 | for any tenant and any two workers, two runs from the same fresh state that end alike but for leftovers, after which the same rejected request is logged under that tenant or under the public one |
| `Ownership.ScopesPartitionItems` | apps/tenants/models.py:33-55 | in every reachable state the scopes of distinct slugs are disjoint, together they are the item table, and their sizes sum to its size |
| `Ownership.ItemsStay` | apps/tenants/models.py:47-52 | no run changes an item, moves it or, deletion being protected, takes its tenant away |
| `Ownership.CreatedInScope` | apps/example/services.py:15-18 | the row of a successful create is new and in the scope of the tenant the request asked for |
| `Ownership.CreatedAsAsked` | apps/example/api/views.py:53-64 | over any run, every 201 reply comes from a permitted, valid create, shows the name and description of its own request and the time of its save, and its row stays stored so under the tenant asked for |
| `Ownership.EveryNewRowWasAsked` | apps/example/services.py:15-18 | over any run, every row added was answered with such a 201 reply |
| `Ownership.ShownIsOwn` | apps/example/selectors.py:8-9 | in every reachable state, a lookup shows an item only to a permitted request for it, as stored, and only when the tenant asked for owns it |
| `Ownership.ReadYourWrite` | apps/example/selectors.py:8-9 | after any run, every permitted lookup of a created item under its tenant shows it as the create returned it, and every one under another tenant gives 404 |
| `Activation.DeactivationDoesNotStopAWrite` | apps/example/services.py:10-18 | over two runs that are the same but for (de)activations, wherever these stand, every reply and log line of a resolved request that carries a pk is the same, and so are all rows |
| `Activation.ActivationAnywhereAfterResolution` | apps/example/services.py:10-18 | a run of resolved requests that carry a pk stays a run, with the same replies and rows, however (de)activations of any tenants are put into it or taken out |
| `Activation.OnlyTheFallbackSeesTheFlag` | apps/example/services.py:11-13 | with tables that differ in active flags only, a view differs if and only if it is a permitted, valid create without a pk in its context and the flag of the tenant it looks up differs |
| `Activation.FlagBeforeView` | apps/example/services.py:11-13 | in every reachable state, (de)activating a tenant right before a view runs changes what the view does if and only if the request is a permitted, valid create on an exempt path and the public tenant's flag changes |
| `Activation.ActivationDecidesNewRequests` | config/middleware/tenant.py:86-100 | the next request naming a tenant just (de)activated reaches its view, under that tenant, if and only if it is active now |
| `Activation.AddedTenantIsServed` | apps/tenants/models.py:14-22 | a tenant added under a free slug has the row it was given, and the next request naming it reaches its view under its key if and only if it was added active |
| `Ownership.SaveFailsOnlyWithoutTenant` | apps/example/services.py:16-17 | an insert that passed validation fails exactly when its tenant has been deleted meanwhile |
| `Migrations.Schema.SeedPublicTenant` | apps/tenants/migrations/0002_seed_public_tenant.py:4-12 | afterwards there is a public tenant; an existing one keeps its row |
| `Migrations.Schema.AddTenantColumn` | apps/example/migrations/0002_item_tenant.py:23-32 | no item is lost or gained, every item is without a tenant, and its other fields are as they were |
| `Migrations.Schema.AssignPublicTenant` | apps/example/migrations/0002_item_tenant.py:5-9 | fails exactly without a public tenant; else gives it the items that have none and touches no other item and no other field |
| `Migrations.Schema.RequireTenant` | apps/example/migrations/0002_item_tenant.py:34-42 | succeeds exactly when every item has a tenant, and keeps all fields |
| `Migrations.Schema.Migrate` | apps/example/migrations/0002_item_tenant.py:22-42 | on any tables the migrations succeed; every item is then under the public tenant, its other fields and all tenants unchanged |
| `Migrations.ReferentialForEver` | apps/tenants/models.py:47-52 | from migrated tables on, every run keeps each item with an existing tenant, and old items under the public one |
| `Bearer.GreedyMatchIsTheMatch` | config/logging.py:23 | the pattern can match at a position exactly when the greedy reading does; all ways to match share the group and the greedy one has the longest token, so backtracking changes nothing |
| `Bearer.KeywordInAnyCase` | config/logging.py:23 | the keyword matches exactly the six characters that lower to those of the pattern |
| `Bearer.LeftmostMatchesExist` | config/logging.py:40-41 | there is exactly one list of leftmost, non-overlapping, greedily preferred matches |
| `Bearer.SubIsLeftmostSubstitution` | config/logging.py:40-41 | the recursive substitution is the text with the tokens of that list replaced |
| `Bearer.MatchAt` | config/logging.py:23 | a loop that tries the pattern at a position finds it exactly when it matches there, with group and token end |
| `Bearer.Scan` | config/logging.py:40-41 | one left-to-right pass computes the substitution |
| `Bearer.NoMatchAppears` | config/logging.py:40-41 | a redacted text starts with a match only if the text did, with the same group |
| `Bearer.OutputIsCovered` | config/logging.py:23-41 | at every position of a redacted text where the pattern matches, overlapping ones included, the whole token is the mask |
| `Bearer.SubIdempotent` | config/logging.py:40-41 | redacting text again changes nothing |
| `Bearer.SubHidesExactlyTokens` | config/logging.py:40-41 | two texts have the same redaction if and only if they agree outside the tokens of their leftmost matches |
| `Bearer.SubSplitsAtSeparator` | config/logging.py:23 | a comma or semicolon cuts a text into parts redacted independently |
| `Bearer.CredentialRemovedWhole` | config/logging.py:23 | a credential of section 2.1 of RFC 6750 at a match leaves nothing of its token |
| `Bearer.SecondKeywordProtectsNothing` | config/logging.py:40-41 | a second keyword at the end of the first match's token is taken with it: what follows stays as it is unless it holds a match of its own |
| `Bearer.TextWithSurvivor` | config/logging.py:40-41 | one text in which a word after a keyword is not redacted for that reason |
| `Redaction.RedactedIsClean` | config/logging.py:26-43 | at any nesting, a redacted value has the mask under every sensitive key and no unmasked token in any text |
| `Redaction.MarkerInAnyCase` | config/logging.py:27-29 | a marker in any mix of cases, anywhere in a key, makes the key sensitive |
| `Redaction.SensitiveExactly` | config/logging.py:27-29 | a key is sensitive if and only if it holds a marker in some mix of cases |
| `Redaction.UnchangedExactlyWhenClean` | config/logging.py:26-43 | the values redaction leaves alone are exactly those |
| `Redaction.RedactIdempotent` | config/logging.py:26-43 | redacting a value again under the same key changes nothing |
| `Redaction.RedactHidesExactlySecrets` | config/logging.py:26-43 | two nested values have the same redaction if and only if they differ only under sensitive keys and inside tokens of leftmost matches |
| `Redaction.EventDict.RedactSensitiveFields` | config/logging.py:46-53 | the loop redacts every field under its own key in place and keeps the order |
| `Redaction.EventHidesExactlySecrets` | config/logging.py:46-53 | the same secrecy for whole records, both ways |
| `Redaction.EventRedactionIdempotent` | config/logging.py:46-53 | redacting a record again changes nothing |
| `Correlation.NormalizedRequestId` | config/middleware/request_id.py:17-29 | the id has the accepted form, is the header's unless newly drawn, and survives any further hop |
| `Correlation.RequestIdMeaning` | config/middleware/request_id.py:17-29 | a header is used exactly when it is an id with padding around it, and one that is present is rejected with a warning exactly when it is neither that nor blank |
| `Correlation.RequestIdForm` | config/middleware/request_id.py:12 | an id is a letter or digit and up to 127 more, dots, underscores or hyphens |
| `Correlation.EnterRequest` | config/middleware/request_id.py:36-39 | the middleware sets the context variable to the id it will put in the header |
| `Correlation.ProcessRecord` | config/logging.py:56-116 | the processors in their order, ending with the redaction, on a live event: the keys of the record, each of the fields they add, tenant and request id among them, and every other field as the caller's redacted under its key |
| `Correlation.ProcessedExactly` | config/logging.py:56-116 | the same of the records of interleaved requests |
| `Correlation.ProcessedKeepsRequestId` | config/logging.py:46-63 | the processed record holds the request id as it was, whatever fields the caller supplied |
| `Correlation.LogCorrelation` | config/middleware/request_id.py:36-43 | in any interleaving every record a request logs after its id is set has the id of that request's response header |
| `Correlation.WarningNamesLeftover` | config/middleware/request_id.py:25-27 | after any run, the warning about a bad header names the id of the last request the worker took, or what it started with, the empty default in a new process, and agrees with the response exactly when that is the id just drawn |
| `Sed.EscapeRoundTrip` | scripts/bootstrap.sh:90-106 | for every single-line value and every line, the script built from the escaped value replaces all occurrences by that exact value |
| `Sed.ExecEscaped` | scripts/bootstrap.sh:90-106 | for any value at all, the script built from it fails on every line if a newline stands before the value's end, and otherwise inserts the value without the newlines at its end |
| `Sed.TrimmedExactly` | scripts/bootstrap.sh:96 | command substitution takes off newlines at the end of a text, all of them and nothing else |
| `Sed.EscapingIsExact` | scripts/bootstrap.sh:94-96 | the value is inserted as it is on all lines if and only if it is a single line |
| `Sed.SecretKeyPatchIsExact` | scripts/bootstrap.sh:215 | for keys over the alphabet they are drawn from, the unescaped patch inserts the key on all lines if and only if it has no ampersand |
| `Sed.SomeKeyIsNotInserted` | scripts/bootstrap.sh:59-63 | a key of the drawn length over that alphabet for which it does not |
| `Placeholders.FirstPieceApart` | scripts/bootstrap.sh:103 | if no other placeholder starts inside the first piece of a text, the passes act on that piece and on the rest separately, whatever the rest is |
| `Placeholders.PassesFill` | scripts/bootstrap.sh:103-114 | after any of the passes, in any order, exactly their placeholders are replaced, each where it stood in the text |
| `Placeholders.NoneLeft` | scripts/bootstrap.sh:109-114 | once its pass is over, a placeholder occurs at no position of the text |
| `Placeholders.PassesAreSimultaneous` | scripts/bootstrap.sh:109-114 | if placeholder occurrences do not overlap and values are apart from placeholders, the passes in any order, repeated or not, equal one simultaneous substitution and leave no placeholder |
| `Placeholders.OrderShowsExactly` | scripts/bootstrap.sh:109-114 | for values apart from placeholders, none beginning as its own, every order of the passes is the simultaneous substitution if and only if no placeholder starts inside a piece of the text that is another one |
| `Bootstrap.OrdinaryValuesApart` | scripts/bootstrap.sh:44-49 | values that are no part of a placeholder and have no double underscore next to a capital meet the hypothesis on values for all six placeholders |
| `Bootstrap.UsualValuesAreOrdinary` | scripts/bootstrap.sh:52-55 | every slug the script accepts is such a value, underscores at its end included, and so is every value that is not all capitals and underscores and has no capital or no double underscore |
| `Bootstrap.OrderShowsExactly` | scripts/bootstrap.sh:109-114 | for the six placeholders and such values, none beginning with an underscore, every order of the calls is the simultaneous substitution on a line if and only if no placeholder of the line starts inside a piece that is another one |
| `Bootstrap.UnmentionedUnchanged` | scripts/bootstrap.sh:101 | passing over files without the placeholder loses nothing |
| `Bootstrap.PatchFile` | scripts/bootstrap.sh:103 | sed on one file runs its script on every line, and fails when it fails on one |
| `Bootstrap.ReplaceInFiles` | scripts/bootstrap.sh:90-107 | for any value: in every file, in place, every occurrence becomes the value without newlines at its end, or, exactly when a newline stands before that and some file is to be patched, the script stops and no file is changed |
| `Bootstrap.Rewrite` | scripts/bootstrap.sh:109-114 | for any values: the six calls on all files amount to the simultaneous substitution, under its hypotheses, unless a value of several lines stops them after the passes before it |
| `Bootstrap.OverlapShows` | scripts/bootstrap.sh:109-114 | a line where two placeholders overlap and the order of the passes shows |
| `Cleanup.OutputIsSurvivors` | scripts/bootstrap.sh:120-163 | what a one-flag line machine prints is exactly its surviving lines, in order, each edited by itself |
| `Cleanup.CleanupReadme` | scripts/bootstrap.sh:157-163 | the loop with its flag prints what the machine of its line kinds prints |
| `Cleanup.ReadmeKeepsTheRest` | scripts/bootstrap.sh:153-164 | kept, in order and unchanged: exactly the lines outside the template section that are not its contents entry |
| `Cleanup.ReadmeCleanupIdempotent` | scripts/bootstrap.sh:153-164 | a second cleanup changes nothing |
| `Cleanup.PrintPhony` | scripts/bootstrap.sh:123-131 | the field loop prints the first field and the other non-empty fields but `init` |
| `Cleanup.CleanPhonyExactly` | scripts/bootstrap.sh:123-131 | whatever blanks a line has, it becomes its first word and each other word but `init` after one space |
| `Cleanup.PhonyReads` | scripts/bootstrap.sh:124 | every `.PHONY` line is a first word and further words with blanks between and after them |
| `Cleanup.PhonyKeepsOtherNames` | scripts/bootstrap.sh:123-131 | a cleaned line, read again, lists every name but `init`, in order and as often |
| `Cleanup.CleanupMakefile` | scripts/bootstrap.sh:120-150 | the loop with its flag prints what the machine of its line kinds prints |
| `Cleanup.DocumentedTargetExactly` | scripts/bootstrap.sh:141 | a documented target is exactly a name of letters, underscores and hyphens, a colon, blanks and `## ` |
| `Cleanup.InitRuleExactly` | scripts/bootstrap.sh:135 | the `init` rule is exactly that with the name `init` |
| `Cleanup.MakefileKeepsTheRest` | scripts/bootstrap.sh:116-151 | kept: every `.PHONY` line, cleaned, and of the others exactly those outside a run from a documented rule for `init` to the next one for another name of letters, underscores and hyphens |
| `Cleanup.MakefileCleanupIdempotent` | scripts/bootstrap.sh:116-151 | a second cleanup changes nothing |
| `Metrics.Registry.Track` | config/metrics.py:58-68 | one request adds one to its counter and one to its histogram |
| `Metrics.Registry.Handle` | config/metrics.py:75-95 | the outcome is passed on; with metrics on it is tracked once, raised ones as 500; with metrics off nothing is |
| `Metrics.ConservedAlways` | config/metrics.py:58-95 | at every step of any interleaving the counter summed over statuses is the observations plus the requests between the two updates, and per status the counter is what ended that way less what is about to be counted |
| `Metrics.AgreeAtRest` | config/metrics.py:75-95 | with no request being tracked, counter and histogram both equal the requests that ended with metrics on |
| `Metrics.UninterruptedRequest` | config/metrics.py:75-95 | the steps of one request without interleaving change the metrics as the sequential middleware does |
| `Metrics.StartIsConserved` | config/metrics.py:39-48 | fresh metrics satisfy the invariant |
| `Allowlist.MembershipIsInterval` | config/metrics.py:147 | masked comparison is membership in the aligned interval of the entry (section 3.1 of RFC 4632, section 2.3 of RFC 4291) |
| `Allowlist.ParseAllowedNetworks` | config/metrics.py:98-110 | the loop yields the networks of exactly the well-formed candidates |
| `Allowlist.HasPermission` | config/metrics.py:113-147 | with metrics on, access is granted exactly for the configured token and when the first forwarded address, whatever follows it, or without any the peer's, is in the union of the intervals |
| `Allowlist.FirstOfSplit` | config/metrics.py:116 | the first part of a split is the text up to its first comma |
| `Allowlist.StrippedFrom` | config/metrics.py:99-102 | the candidates are exactly the parts that are not blank, without their padding |
| `Allowlist.AdmitsTheUnion` | config/metrics.py:147 | an address is in some network of the setting if and only if it is in the union of the intervals of the well-formed candidates |
| `Allowlist.OnlyWellFormedEntriesMatter` | config/metrics.py:105-109 | settings with the same well-formed candidates, in whatever order and number and beside whatever malformed ones, have the same networks and admit the same addresses |
| `Allowlist.LineAndListAgree` | config/metrics.py:99-102 | a list of texts and its comma-separated line have the same candidates if and only if no text of the list has a comma |

## Left out

- Noninterference.TenantsDoNotInterfere: covers replies and rows; log lines of rejected requests do carry leftovers, which is stated separately. Runs rename no slug and edit no item from the admin site, and the client's credentials are an input of each request.
- Noninterference.LeftoversDoNotMatter: for the same reason about replies and tables, not log lines.
- Handling.Post: the serializer's verdict is an input; a database that fails inside a view is not modelled.
- Bearer.SubHidesExactlyTokens: the tokens are those of the leftmost matches; a second keyword that is itself in the token of the first match does not protect the word after it (`Bearer.SecondKeywordProtectsNothing`).
- Redaction.RedactHidesExactlySecrets: dict keys are strings, since the code lower-cases them; fields added after the redaction (logger name, level, time, stack) are not covered.
- Correlation.LogCorrelation: what `merge_contextvars` adds counts as part of the caller's fields.
- Sed.EscapingIsExact: only the `s` command with a literal pattern and flag `g` is modelled; which files are found and the order of the finds are not.
- Bootstrap.Rewrite: which files are found is an input, and a failing call ends the method, not a whole script.
- Bootstrap.OrderShowsExactly: a value that begins with an underscore is outside; for such values `Placeholders.PassesFill` still says that on the lines described every order is the simultaneous substitution, but not that some order shows on the others.
- Allowlist.HasPermission: parsing of address and CIDR text is a parameter.
- Routing: any action may come with any path, which only adds runs; what holds for paths of the item routes alone says so.
- The text of error bodies, DRF serialization, JWT and role lookup: fixed inputs, straight-line branching.
- SQL, transactions and the ORM: tables are maps and each query or insert is one step.
- Prometheus internals: an increment is atomic, and of an observation only its count is kept; the choice of the view label is an input.
- Celery tasks, health views, Sentry, OpenTelemetry, renderers, settings and deployment files: I/O or configuration.
- Prompts, key generation, renaming of files and installation of dependencies in the bootstrap script.
