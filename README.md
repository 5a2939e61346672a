# GearGuard backend core in Dafny

GearGuard is a maintenance tracker. Its Express backend registers equipment,
tracks maintenance requests against it, logs users in with a JWT, guards the
routes, and reports request counts. This project models the backend's
controllers and its authentication middleware in Dafny and proves what they
promise:

- **Requests** (`RequestWorkflow`, `requests.dfy`):
  - Creation derives the maintenance team from the equipment whenever
    `equipment_id` is truthy, and defaults a falsy status to `new`.
  - The listing is filtered by status, left-joined with equipment and users,
    and ordered newest first.
  - Get.
  - The partial update runs the scrap cascade. A status of exactly `scrap`
    marks the equipment scrapped: either the equipment the body names, or the
    one the stored request names. The cascade runs before the request row is
    updated, so it also runs when that row turns out not to exist (the update
    then answers 404).
- **Equipment** (`EquipmentRegistry`, `equipment.dfy`): create, list (by id
  descending) and get, each read carrying `open_request_count` (the
  referencing requests whose status is not `repaired`). Also the partial
  update.
- **Partial updates** (`Updates`, `updates.dfy`): both controllers share one
  `forEach` over `baseFields`. It is a loop (`CollectAssignments`) proved to
  compute the assignment list. Applying that list sets exactly the recognised
  columns the body carries, even to null, and keeps the others.
- **Login** (`Identity`, `identity.dfy`):
  - Finds the user by email, or creates one with role `user`, named by the
    given name or else by the email's local part.
  - Signs claims carrying a display name that is never stored.
- **Middleware** (`AccessGuard`, `guard.dfy`): `authenticate` parses
  `Authorization: Bearer <token>` and verifies the token. `requireRole`
  admits an identity by role.
- **Reports** (`Reports`, `reports.dfy`):
  - Per team: every team, including those without requests.
  - Per non-null equipment category.
  - Per request type.
  - The first two are ordered by request count descending. Each row holds the
    conditional counts of its group.

The database is a `Store` class (`schema.dfy`). It has one `map` per table,
the next value of each serial id, and a clock that stamps `created_at`.
Handlers that write are methods whose `modifies` clauses name single fields of the store.
Queries that only read are functions over the maps. They are built from the
table scan, `WHERE`, `GROUP BY` and `ORDER BY` helpers in `seqs.dfy`. JSON
values and the JavaScript operators the handlers use (truthiness, `||`, `??`)
are in `json.dfy`. `String.prototype.split` and its inverse are in
`strings.dfy`.

Where the code and the design disagree, the model follows the code:

- The design says an equipment's scrapped flag only goes from false to true.
  But `is_scrapped` is one of the equipment controller's `baseFields`, so a
  partial update can set it back to false (`UpdateCanClearScrapped`).
- The design gives the scrapped flag a default of false. Creation sends
  `body.is_scrapped ?? null` for every field, so a body without the flag
  stores an explicit null (`NewEquipment`).
- The design derives the team when `equipment_id` is present and defaults
  the status when it is absent. The code tests truthiness in both places, so
  `equipment_id: 0` derives no team and `status: ""` becomes `new`
  (`CreatedTeamFromClient`, `CreatedStatus`).
- The design counts every request whose status is not `repaired` as open.
  The SQL condition `r.status != 'repaired'` is unknown for a null status, so
  a request with a null status is not counted (`OpenRequestCount`).
- The design has login create the user for any new email. For a truthy email
  that is not a string, and with no truthy name, the code has to split the
  email to infer the name. That throws, and login answers 500 (`Login`).

## Model

| member | source | states |
|---|---|---|
| Json.Or | backend/controllers/authController.js:22 | JavaScript's or-operator yields the left operand when it is truthy and the right one otherwise |
| Schema.SetEquipmentColumn | backend/controllers/equipmentController.js:60 | assigning one recognised column changes that column and no other, and keeps the id |
| Schema.SetRequestColumn | backend/controllers/requestsController.js:72 | assigning one recognised column changes that column only, and keeps the id and `created_at` |
| Seqs.Descending | backend/controllers/equipmentController.js:28 | the key order of `ORDER BY id DESC`: strictly decreasing, and it holds every key of the table once |
| Seqs.Filter | backend/controllers/requestsController.js:45 | a `WHERE` clause keeps exactly the rows that satisfy the condition, and never adds rows |
| Seqs.SortDesc | backend/controllers/requestsController.js:46 | `ORDER BY key DESC` yields a permutation of its input sorted by descending key |
| Seqs.PickFilterCount | backend/controllers/reportsController.js:8 | counting the filtered rows at distinct keys gives the number of keys whose row satisfies the filter |
| Seqs.RowsFilterCount | backend/controllers/reportsController.js:8 | a `COUNT` over a filtered scan equals the number of rows the condition selects, whatever order the scan takes |
| Seqs.FilterFilter | backend/controllers/reportsController.js:30 | filtering by a `WHERE` condition and then by a `CASE WHEN` condition keeps exactly the rows meeting both, in order |
| Seqs.ScanCount | backend/controllers/reportsController.js:30 | a conditional count over a filtered scan is the number of rows meeting both conditions |
| Seqs.Enumerate | backend/controllers/reportsController.js:15 | the groups of a `GROUP BY`: every element of the set, and each exactly once |
| Strings.Split | backend/middleware/auth.js:6 | `split` on one character yields at least one piece; no piece holds the separator; the pieces joined back give the input |
| Strings.SplitCons | backend/middleware/auth.js:6 | a separator-free prefix followed by the separator splits into that prefix followed by the pieces of the rest |
| Strings.SplitJoin | backend/middleware/auth.js:6 | joining separator-free pieces and splitting again returns the same pieces |
| Strings.SplitHead | backend/controllers/authController.js:13 | the first piece is the text before the first separator, which ends the piece or the input |
| Strings.SplitSecond | backend/middleware/auth.js:6 | with two or more pieces, the input starts with the first piece, a separator and the second piece, followed by nothing or a separator |
| Updates.Assignments | backend/controllers/equipmentController.js:57-62 | the assignments are exactly the recognised fields that are keys of the body, even with a null value, each carrying the body's value: every such field has its assignment and no other field does; the list is empty exactly when the body has none of the fields |
| Updates.AssignmentsDistinct | backend/controllers/requestsController.js:69-74 | when the field list has no duplicates, no column is assigned twice in the SET clause |
| Updates.NoColumnTwice | backend/controllers/equipmentController.js:3-5 | for both controllers' `baseFields`, no body makes the SET clause name a column twice |
| Updates.CollectAssignments | backend/controllers/requestsController.js:69-74 | the `forEach` loop's parallel column and parameter lists pair up to exactly the assignment list |
| Updates.EquipmentColumnAfter | backend/controllers/equipmentController.js:57-66 | after the `UPDATE ... SET`, a recognised equipment column holds the body's value if the body carries it, else its old value |
| Updates.RequestColumnAfter | backend/controllers/requestsController.js:69-90 | the same rule for request columns |
| EquipmentRegistry.NewEquipment | backend/controllers/equipmentController.js:9-12 | the inserted row takes each of the ten recognised fields from the body or null, under the given id |
| EquipmentRegistry.NewEquipmentIgnoresOtherKeys | backend/controllers/equipmentController.js:3-9 | keys outside `baseFields` have no effect on the inserted row |
| EquipmentRegistry.CreateEquipment | backend/controllers/equipmentController.js:7-19 | inserts that row under the next serial id, which was unused; the other rows are kept and the table stays valid |
| EquipmentRegistry.OpenRequestCount | backend/controllers/equipmentController.js:24-26 | the count is the number of requests referencing the equipment whose status is non-null and not `repaired` |
| EquipmentRegistry.ListEquipment | backend/controllers/equipmentController.js:21-34 | one entry per equipment row, ids strictly descending, each entry the stored row with its open-request count |
| EquipmentRegistry.ListEquipmentComplete | backend/controllers/equipmentController.js:23-28 | every equipment row's annotated view is in the list |
| EquipmentRegistry.GetEquipment | backend/controllers/equipmentController.js:36-51 | succeeds iff the id exists, with the stored row and its open-request count; otherwise 404 `Not found` |
| EquipmentRegistry.GetMatchesList | backend/controllers/equipmentController.js:38-46 | a successful get returns an entry of the list, and any list entry with that id is what get returns |
| EquipmentRegistry.UpdatedEquipment | backend/controllers/equipmentController.js:57-66 | the updated row keeps its id, and each recognised column is the body's value if present, else the old value |
| EquipmentRegistry.UpdateCanClearScrapped | backend/controllers/equipmentController.js:3-5 | an update with `is_scrapped: false` clears the scrapped flag of a scrapped row |
| EquipmentRegistry.UpdateEquipment | backend/controllers/equipmentController.js:53-74 | 400 with no change when no recognised field is supplied; 404 with no change for an absent id; otherwise the updated row is stored and returned |
| RequestWorkflow.EquipmentTeam | backend/controllers/requestsController.js:7-10 | null or truthy; truthy iff the value names an existing equipment row whose team is truthy, and then it is that team |
| RequestWorkflow.NewRequest | backend/controllers/requestsController.js:14-25 | the inserted row carries the given id and stamp, and every recognised field other than team and status comes from the body or null |
| RequestWorkflow.CreatedTeamIgnoresClient | backend/controllers/requestsController.js:15-17 | with a truthy `equipment_id`, the stored team is the equipment's team, whatever team the client sent |
| RequestWorkflow.CreatedTeamFromClient | backend/controllers/requestsController.js:15-20 | without a truthy `equipment_id`, the client's team (or null) is stored |
| RequestWorkflow.CreatedStatus | backend/controllers/requestsController.js:18 | the stored status is the body's when truthy, `new` otherwise, so it is always truthy |
| RequestWorkflow.NewRequestIgnoresOtherKeys | backend/controllers/requestsController.js:20 | keys outside `baseFields` have no effect on the created request |
| RequestWorkflow.CreateRequest | backend/controllers/requestsController.js:12-30 | the payload's effect: inserts that row under a fresh serial id and stamps it later than every existing request; the other rows are kept |
| RequestWorkflow.ScrapTarget | backend/controllers/requestsController.js:80-85 | a target resolves only for status exactly `scrap`, and is truthy: the body's truthy `equipment_id`, else the stored request's truthy one, else none |
| RequestWorkflow.ScrapKey | backend/controllers/requestsController.js:86 | the cascade writes a key iff the resolved target names an existing equipment row |
| RequestWorkflow.MarkScrapped | backend/controllers/requestsController.js:86 | the cascade's write sets `is_scrapped` true on that one row and changes nothing else |
| RequestWorkflow.NonScrapLeavesEquipment | backend/controllers/requestsController.js:80 | a status other than exactly `scrap` leaves the equipment table unchanged |
| RequestWorkflow.ScrapMarksTarget | backend/controllers/requestsController.js:80-87 | status `scrap` scraps the equipment the body names, or else the one the stored request names, and no other row |
| RequestWorkflow.UnresolvedScrapLeavesEquipment | backend/controllers/requestsController.js:82-86 | if neither the body nor the stored request names an equipment, the cascade writes nothing |
| RequestWorkflow.UnknownRequestStillScraps | backend/controllers/requestsController.js:79-93 | the cascade runs before the existence check: an unknown request id with an explicit `equipment_id` still scraps that equipment |
| RequestWorkflow.UpdatedRequest | backend/controllers/requestsController.js:89-92 | the updated request keeps id and `created_at`, and each recognised column is the body's value if present, else the old value |
| RequestWorkflow.CascadeScrap | backend/controllers/requestsController.js:79-87 | the equipment table after the step is the cascade's write applied to it |
| RequestWorkflow.UpdateRequest | backend/controllers/requestsController.js:65-98 | 400 with no change when no recognised field is supplied; otherwise the cascade applies, then 404 for an absent id or the updated row stored and returned |
| RequestWorkflow.GetRequest | backend/controllers/requestsController.js:55-63 | succeeds iff the id exists, with the stored row; otherwise 404 `Not found` |
| RequestWorkflow.Joined | backend/controllers/requestsController.js:41-44 | a listed entry carries the request row unchanged; `equipment_name` is the name of the equipment row its `equipment_id` names, else null; `technician_name` and `avatar_url` come from the user row its `assigned_technician` names, else null |
| RequestWorkflow.NewestFirst | backend/controllers/requestsController.js:45-46 | the selected rows, rearranged without loss or addition, with `created_at` never increasing |
| RequestWorkflow.ListRequests | backend/controllers/requestsController.js:32-53 | as many entries as requests pass the status filter, newest first, each a stored row passing the filter with its joined names |
| RequestWorkflow.ListRequestsComplete | backend/controllers/requestsController.js:34-46 | every request that passes the filter is listed |
| RequestWorkflow.ListAllWhenUnfiltered | backend/controllers/requestsController.js:35-36 | without a truthy `status` parameter, every request is listed |
| Identity.FindUser | backend/controllers/authController.js:9-10 | the lookup yields a user holding the email, or none exactly when no user holds it |
| Identity.FindUserUnique | backend/controllers/authController.js:9-10 | with unique emails, the lookup yields exactly the user holding the email |
| Identity.LocalPart | backend/controllers/authController.js:13 | `email.split('@')[0]` is the prefix before the first `@`, free of `@`, ending at an `@` or at the end |
| Identity.InferredName | backend/controllers/authController.js:13 | a new user's name is the given name when truthy, else the email's local part |
| Identity.DisplayName | backend/controllers/authController.js:22 | the display name is the given name when truthy, else the stored name |
| Identity.ResolveUser | backend/controllers/authController.js:9-19 | the resolved user holds the email and is in the resulting table |
| Identity.NewUserCreated | backend/controllers/authController.js:12-19 | an unknown email adds exactly one user with the next id, the inferred name and role `user` |
| Identity.KnownUserFound | backend/controllers/authController.js:9-12 | a known email resolves to the stored user and inserts nothing |
| Identity.ResolveKeepsValid | backend/controllers/authController.js:9-19 | find-or-create keeps serial ids and unique emails |
| Identity.ResolveIdempotent | backend/controllers/authController.js:9-19 | a second login with the same email, under any name, resolves to the same user and inserts nothing |
| Identity.Respond | backend/controllers/authController.js:24-30 | the token is signed over the user's id, email, role and display name for 12 hours, and the response user carries the same identity and display name |
| Identity.DisplayNameNotStored | backend/controllers/authController.js:21-30 | a login with a new name shows that name but leaves the stored name unchanged |
| Identity.Login | backend/controllers/authController.js:4-34 | 400 for a falsy email; 500 for a truthy non-string email that no user holds when no truthy name spares the split; otherwise the table after find-or-create and the response for the resolved user |
| AccessGuard.BearerToken | backend/middleware/auth.js:6-7 | an accepted header yields a non-empty token without spaces; every rejection is `Invalid auth header` |
| AccessGuard.BearerTokenSound | backend/middleware/auth.js:6-7 | an accepted header is `Bearer`, a space and the token, then nothing or a space |
| AccessGuard.BearerTokenComplete | backend/middleware/auth.js:6-7 | `Bearer <token>`, alone or followed by a space and anything else, is accepted with that token |
| AccessGuard.Authenticate | backend/middleware/auth.js:3-15 | 401 for a missing or empty header, 401 for a malformed one, success iff the verifier accepts the token (with its claims), and every failure is a 401 |
| AccessGuard.LoginTokenAuthenticates | backend/middleware/auth.js:8-11 | a token that login signed, and that the verifier accepts, authenticates as the claims it was signed over |
| AccessGuard.RequireRole | backend/middleware/auth.js:17-24 | success passes the identity through unchanged; every failure is 403 `Forbidden` |
| AccessGuard.RequireRoleNeedsIdentity | backend/middleware/auth.js:19-20 | without an identity, every role list rejects |
| AccessGuard.RequireRoleEmptyAdmitsAll | backend/middleware/auth.js:17-19 | the empty role list admits any identity |
| AccessGuard.RequireRoleMembership | backend/middleware/auth.js:19-22 | a non-empty list admits an identity iff its role is in the list |
| Reports.StatusCountsBound | backend/controllers/reportsController.js:8-12 | counting row by row, the request count is the number of rows, and the four status counts add up to at most it, and to exactly it when every status is one of the four |
| Reports.TypeCountsBound | backend/controllers/reportsController.js:34-35 | the corrective and preventive counts add up to at most the request count |
| Reports.TallyColumns | backend/controllers/reportsController.js:30-35 | counting row by row, each `COUNT(CASE WHEN ...)` column is the number of rows meeting its condition |
| Reports.GroupCounts | backend/controllers/reportsController.js:8-14 | a group's request count is the number of requests the join condition selects; each conditional count is the number of those requests that also meet its `CASE WHEN` condition; the status and type counts obey both bounds |
| Reports.EmptyGroupZero | backend/controllers/reportsController.js:14 | a group no request joins counts zero in every column |
| Reports.TeamStats | backend/controllers/reportsController.js:7-15 | a team's row has its name, counts the requests naming the team, and counts in each status column the requests naming the team with that status; the status counts add up to at most the request count, and to exactly it when all statuses are known |
| Reports.IdleTeamZero | backend/controllers/reportsController.js:13-14 | a team no request names still has its row, with every count zero |
| Reports.OneScrappedRequest | backend/controllers/reportsController.js:8-14 | a team whose only request is scrapped reports `request_count = 1` and `scrap_count = 1`, with the other status counts zero |
| Reports.ByTeam | backend/controllers/reportsController.js:3-22 | one row per team, by request count descending, holding exactly the teams' rows |
| Reports.ByTeamComplete | backend/controllers/reportsController.js:13-15 | every team's row is in the report |
| Reports.ByTeamSound | backend/controllers/reportsController.js:13-15 | every row of the report is some team's row |
| Reports.CategorySet | backend/controllers/reportsController.js:38-39 | the groups are the non-null equipment categories, all of them |
| Reports.CategoryFromEquipment | backend/controllers/reportsController.js:36-39 | every group is the category of some equipment row |
| Reports.CategoryStats | backend/controllers/reportsController.js:28-39 | a category's row counts the requests on equipment of that category, and in each status and type column those of them meeting its condition; both groups of columns are bounded by the request count |
| Reports.ByCategory | backend/controllers/reportsController.js:24-46 | one row per non-null category, by request count descending, holding exactly the categories' rows |
| Reports.ByCategorySound | backend/controllers/reportsController.js:28-39 | every row is the row of a non-null category, so the `Uncategorized` fallback never appears |
| Reports.ByCategoryComplete | backend/controllers/reportsController.js:36-39 | every non-null category of the equipment has its row |
| Reports.IdleCategoryZero | backend/controllers/reportsController.js:36-37 | a category whose equipment has no requests has every count zero |
| Reports.TypeSet | backend/controllers/reportsController.js:57-58 | every request's type, null included, is a group |
| Reports.TypeStatsCounts | backend/controllers/reportsController.js:52-58 | a type's row counts the requests of that type, and in each status column the requests of that type with that status; the three status counts add up to at most the count |
| Reports.ByType | backend/controllers/reportsController.js:48-64 | one row per distinct request type, each that type's row |
| Reports.ByTypeDistinct | backend/controllers/reportsController.js:58 | no two rows share a type |
| Reports.ByTypeComplete | backend/controllers/reportsController.js:57-58 | every request is counted in the row of its own type |
| Reports.TypeHeld | backend/controllers/reportsController.js:57-58 | every group of the by-type report is the type of some request |
| Reports.TypeRowNonEmpty | backend/controllers/reportsController.js:53-58 | the row of a type that some request has counts at least one request |
| Reports.ByTypeNonEmpty | backend/controllers/reportsController.js:53-58 | every row counts at least one request |

## Left out

- The SQL engine is not modelled. Queries are stated over in-memory maps. The 500 answers a failing query or a violated column constraint would produce are left out (unique serial numbers, foreign keys, column types); `models/db.js` and the schema are not part of this model.
- JWT signing and verification are function-typed parameters (`sign`, `verify`). Expiry checking lives inside `verify`. The secret from the environment is not modelled.
- `created_at` is a counter clock that strictly increases with every insert. Real timestamps can tie, and `SortDesc` leaves the order of ties unspecified, as SQL does.
- JSON numbers are integers; fractional values are not modelled. Bodies hold scalars only; arrays and objects in a body are not modelled.
- Values are stored as the client sent them. Postgres's coercion of a value to its column's type is not modelled. For example, `5` sent as a text `category` is stored as `'5'`, so the source groups it with the string `"5"` and the model does not. The one exception is the login email, which is looked up and stored as the text it is sent as.
- Ids are modelled as integers. A value matches an integer id column only when it is a number. Postgres would also cast a numeric string such as `"5"`, and a non-numeric path id would answer 500; neither is modelled.
- RequestWorkflow.ListRequests: the listing returns `scheduled_date` as stored; the `TO_CHAR(..., 'YYYY-MM-DD')` formatting is not modelled. The `status` query parameter is a single string or absent.
- Reports.ByType: the source's query has no `ORDER BY`, so its row order is unspecified. The model lists the groups in some fixed order and proves nothing about it.
- RequestWorkflow.UpdateRequest: an update that changes `equipment_id` does not re-derive the team. That is the source's behaviour (only creation derives it), not an omission.
- The scrap cascade and the request update are two separate writes in the source, without a transaction. The model applies them in sequence and does not model a failure between them. Concurrency between requests is not modelled.
- Routes, `server.js`, `seed.js` and the frontend are outside the modelled core. So is the order in which the middleware is chained.
- Users are created with a null `avatar_url`; database defaults for other columns are not modelled.
