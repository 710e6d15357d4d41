# Wedding planning backend: a Dafny model of its decision rules

This project models the request handlers of a small multi-tenant wedding-planning application: an
Express/Prisma REST backend with workspaces, members, budgets, tasks, guests, notes and a wedding
configuration, plus an Astro frontend whose middleware gates pages on a session cookie.

The relational store becomes the class `Store.Db`. It holds one `seq` field per table and the counter
that issues row ids. `Db.Valid()` states the store's invariants: ids are distinct and below the
counter, user e-mails are unique, there is one membership row per (workspace, user) pair, and there is
at most one configuration per workspace. Every handler that writes is a method with a `modifies`
clause naming `db`'s table fields. It returns the HTTP status, and its result and new store state are
tied to the old state in its `ensures`. Read-only handlers (listings, the dashboard, login, both gates, the CORS check)
are functions over the tables or the request fields.

Modules:

- `Wrappers`: `Option`, JavaScript truthiness of an optional string, `a || b` defaults.
- `Collections`: keyed lookup, filter, stable insertion sort, "the n smallest", row removal and the
  frame lemmas the handlers share.
- `Text`: `String.prototype.split` on one character and `trim` with the ECMAScript white-space set.
- `Store`: the tables, the key columns, the membership predicate and `Db`.
- `Members`, `Workspaces`, `Configs`, `Dashboard`, `Tasks`, `Guests`, `Budgets`, `Notes`: one module per
  route file.
- `Auth`: the login handler. `AuthGate`: the bearer-header middleware. `PageGate`: the frontend
  middleware. `Cors`: the origin allow list.

Password comparison, token signing and token verification are parameters of the functions that use
them: `compare`, `sign`, and `verify`, which returns an `Option`. The clock is the parameter `now` of
the create handlers.

Access rules and error paths as the handlers implement them:

- Creating a budget, task, guest or note checks no membership; only the listings filter by membership.
- Reading and writing the configuration checks no membership at all.
- The member list is served to any authenticated caller, not only to members.
- Deleting or updating a row that does not exist fails with 500, because the ORM throws.
- A non-owner who asks to remove the owner gets 403, not 400, because ownership is checked first.
- A token that fails verification gets 403 from the backend gate; 401 is only for a missing or
  malformed header.

## Model

| member | source | states |
|---|---|---|
| Members.ListMembers | backend/routes/members.js:10-17 | every membership row of the workspace is listed as often as it occurs in the table and nothing else, each joined with its user's id, name, e-mail and avatar; no caller check |
| Members.Invite | backend/routes/members.js:24-67 | 400 iff the e-mail is missing or empty; then 403 iff the workspace is missing or not owned by the caller; then 404 iff no user has the e-mail; then 409 iff that user is already a member; otherwise 201 and exactly one `(workspace, user, member)` row is appended; every refusal leaves the memberships unchanged; the store stays valid |
| Members.Remove | backend/routes/members.js:70-91 | 403 iff the caller does not own the workspace (checked before the target), 400 iff the target is the owner, 500 iff the pair does not exist; otherwise 204 and exactly that pair is gone, every other row kept |
| Workspaces.ListWorkspaces | backend/routes/workspaces.js:10-29 | returns exactly the caller's workspaces; if there were some, nothing is written; if there were none, one workspace named prefix + caller's name, owned by the caller, is created with the caller as its sole `owner` member, and it is the whole result |
| Workspaces.BootstrapIsOnlyWorkspace | backend/routes/workspaces.js:15-23 | for a caller with no workspaces, adding the new workspace and its owner row makes that workspace the only one the caller belongs to |
| Workspaces.BootstrapSoleMember | backend/routes/workspaces.js:20 | the bootstrapped workspace's member list is exactly the caller as owner |
| Workspaces.BootstrapConsistent | backend/routes/workspaces.js:16-22 | creating the workspace with a fresh id and its owner row keeps ids unique and below the counter |
| Workspaces.ListWorkspacesTwice | backend/routes/workspaces.js:12-24 | a second call returns the same non-empty list as the first, which is the caller's workspaces afterwards; the two calls together add at most one workspace, one membership and one id |
| Configs.Overwrite | backend/routes/configs.js:43 | the upsert's update branch keeps the workspace, carries every supplied field and keeps every absent field as it was; with no field supplied the record is unchanged |
| Configs.FromFields | backend/routes/configs.js:44 | the upsert's create branch carries every supplied field under the route's workspace |
| Configs.GetConfig | backend/routes/configs.js:10-33 | an existing record is returned and nothing is written; otherwise the default record (empty names and venue, no dates) is appended and returned; either way it is then the workspace's record |
| Configs.GetConfigTwice | backend/routes/configs.js:13-29 | two GETs return the same record and add at most one row |
| Configs.PutConfig | backend/routes/configs.js:36-51 | afterwards the workspace has exactly one record, carrying every supplied field, updated or created; no other workspace's record changes |
| Dashboard.TotalsZeroWithoutItems | backend/routes/dashboard.js:66-67 | with no item under the workspace's budgets both totals are 0 |
| Dashboard.ForeignItemsDoNotCount | backend/routes/dashboard.js:29-39 | items whose budget lies outside the workspace do not change the totals |
| Dashboard.ForeignBudgetsDoNotCount | backend/routes/dashboard.js:29-39 | budgets of other workspaces do not change the totals |
| Dashboard.TotalsAddItem | backend/routes/dashboard.js:29-39 | an item under one of the workspace's budgets adds its expected and actual amounts to the totals |
| Dashboard.Upcoming | backend/routes/dashboard.js:42-51 | as many tasks as there are open ones, capped at 5; a sub-multiset of the workspace's open tasks, so no task twice; oldest first; and none of the open tasks left out is older than one taken |
| Dashboard.UpcomingAreOpen | backend/routes/dashboard.js:43-46 | every upcoming task is a task of the workspace whose status is not `done` |
| Dashboard.DoneAtMostTotal | backend/routes/dashboard.js:52-53 | the done count never exceeds the task count |
| Dashboard.NewTaskCounted | backend/routes/dashboard.js:52-53 | a new task of the workspace raises the total by one and the done count only when it is done |
| Dashboard.ConfigPart | backend/routes/dashboard.js:60-64 | without a config the names are absent and the dates empty; with one, its names and dates (or no dates) |
| Dashboard.GetDashboard | backend/routes/dashboard.js:10-85 | 403 with no body iff the caller is not a member; otherwise 200 with the budget totals, the upcoming tasks, the number of tasks, the number of `done` tasks (never above the total) and the number of guests of that workspace |
| Tasks.ListTasks | backend/routes/tasks.js:9-18 | a member gets exactly the workspace's tasks (as a multiset), newest first; a non-member gets an empty list |
| Tasks.PatchTask | backend/routes/tasks.js:34 | an update keeps the id, workspace and creation time, writes each supplied field and keeps each absent one |
| Tasks.CreateTask | backend/routes/tasks.js:19-29 | 400 iff the title is missing or empty, and nothing is written; otherwise 201 and one task is appended under the route's workspace with status `todo` and priority `medium` unless given |
| Tasks.UpdateTask | backend/routes/tasks.js:30-37 | 500 iff no task has the id, and nothing changes; otherwise 200 and only that row is patched, every other row kept in place |
| Tasks.DeleteTask | backend/routes/tasks.js:38-44 | 500 iff no task has the id; otherwise 204 and exactly that task is removed |
| Guests.ListGuests | backend/routes/guests.js:10-24 | a member gets exactly the workspace's guests, newest first; a non-member gets an empty list |
| Guests.PatchGuest | backend/routes/guests.js:52-55 | an update keeps the id, workspace and creation time, writes each supplied field and keeps each absent one |
| Guests.CreateGuest | backend/routes/guests.js:27-45 | 400 iff the name or the side is missing or empty, and nothing is written; otherwise 201 and one guest is appended under the route's workspace with status `pending` unless given |
| Guests.UpdateGuest | backend/routes/guests.js:48-60 | 500 iff no guest has the id; otherwise 200 and only that row is patched |
| Guests.DeleteGuest | backend/routes/guests.js:63-71 | 500 iff no guest has the id; otherwise 204 and exactly that guest is removed |
| Budgets.WithItems | backend/routes/budgets.js:15 | each category comes with exactly its own items, oldest first |
| Budgets.ListBudgets | backend/routes/budgets.js:10-20 | a member gets exactly the workspace's categories in ascending `order`, each with exactly its items, oldest first; a non-member gets an empty list |
| Budgets.PatchItem | backend/routes/budgets.js:52 | an item update keeps the id, category and creation time, writes each supplied field and keeps each absent one |
| Budgets.CreateBudget | backend/routes/budgets.js:21-29 | 400 iff the category is missing or empty; otherwise 201 and one category is appended under the route's workspace |
| Budgets.DeleteBudget | backend/routes/budgets.js:30-36 | 500 iff no category has the id; otherwise 204 and exactly that category row is removed |
| Budgets.CreateItem | backend/routes/budgets.js:39-47 | 400 iff the name is missing or empty; otherwise 201 and one item is appended under the route's category, expected amount 0 unless given, actual amount 0 |
| Budgets.UpdateItem | backend/routes/budgets.js:48-55 | 500 iff no item has the id; otherwise 200 and only that row is patched |
| Budgets.DeleteItem | backend/routes/budgets.js:56-62 | 500 iff no item has the id; otherwise 204 and exactly that item is removed |
| Notes.AttachmentsOf | backend/routes/notes.js:18-20 | the attachments of a note are exactly the media rows whose ids it links, each as often as it occurs in the table |
| Notes.WithAttachments | backend/routes/notes.js:18-20 | each note is joined with exactly the media rows it links, each as often as it occurs in the table |
| Notes.ListNotes | backend/routes/notes.js:10-27 | a member gets exactly the workspace's notes, most recently updated first, each with exactly its linked media, each media row once per occurrence in the table; a non-member gets an empty list |
| Notes.Connect | backend/routes/notes.js:40-42 | no ids means no links; the link set is exactly the given ids, and it fails iff one of them names no media row; the media's workspace is not consulted |
| Notes.ForeignMediaAttaches | backend/routes/notes.js:40-42 | a media row of another workspace is linked and returned as an attachment |
| Notes.CreateNote | backend/routes/notes.js:30-50 | 400 iff the content is missing or empty; 500 iff a media id names no row, with nothing written; otherwise 201 and one note is appended under the route's workspace, linked to exactly the given media |
| Notes.DeleteNote | backend/routes/notes.js:53-62 | no permission check; 500 iff no note has the id; otherwise 204 and exactly that note is removed |
| Auth.Public | backend/routes/auth.js:21 | the returned user keeps every column but the password hash |
| Auth.PublicHidesOnlyHash | backend/routes/auth.js:21 | two users give the same public user exactly when they differ at most in the hash |
| Auth.Login | backend/routes/auth.js:12-26 | 400 iff e-mail or password is missing or empty; 404 iff no user has the e-mail; 401 iff the password does not match; the same message for 404 and 401; otherwise the token signs exactly `{userId, email, name}` of that user and the user is returned without the hash |
| Auth.LoginTokenVerifies | backend/routes/auth.js:20 | a login token verifies back to the logged-in user's id, e-mail and name |
| AuthGate.BearerToken | backend/middleware/authMiddleware.js:9 | the token is the text after `Bearer ` up to the next space |
| AuthGate.BearerTokenOf | backend/middleware/authMiddleware.js:9 | from `Bearer <t>`, a space-free `t` is read back whole |
| AuthGate.Gate | backend/middleware/authMiddleware.js:4-17 | 401 iff the header is missing or lacks the exact `Bearer ` prefix; 403 iff the token does not verify; otherwise the request passes with the decoded payload |
| AuthGate.LoginThenGate | backend/middleware/authMiddleware.js:9-13 | a token from a successful login, sent as `Bearer <token>`, passes the gate as the user who logged in |
| PageGate.OnRequest | frontend/src/middleware.js:8-50 | `/api/` paths pass untouched; a redirect to `/login` iff the page is protected and the cookie is absent or fails verification; a redirect to `/dashboard` iff the page is `/login` with a verifying cookie; the cookie is deleted and the user set to null iff it fails verification, and the user is the decoded payload iff it verifies |
| PageGate.PrefixReach | frontend/src/middleware.js:16-21 | the prefix tests protect `/budgets` and `/configuration`; `/api` without its slash is neither skipped nor protected |
| Text.Split | backend/config/corsConfig.js:2 | the pieces contain no separator, and there are at least two when the separator occurs |
| Text.SplitJoin | backend/config/corsConfig.js:2 | splitting a join of separator-free pieces gives the pieces back |
| Text.JoinSplit | backend/config/corsConfig.js:2 | joining the pieces of a split gives the string back |
| Text.FirstPiece | backend/middleware/authMiddleware.js:9 | the first piece is the longest separator-free prefix |
| Text.Trim | backend/config/corsConfig.js:3 | the result has no white space at either end, is empty iff the input is all white space, and is the middle of the input with only white space removed around it |
| Text.Trimmed | backend/config/corsConfig.js:3 | a string without white space at either end is unchanged by trimming |
| Text.TrimIdempotent | backend/config/corsConfig.js:3 | trimming twice is trimming once |
| Cors.AllowedOrigins | backend/config/corsConfig.js:1-3 | at least one entry, none containing a comma, each without white space at either end |
| Cors.Allow | backend/config/corsConfig.js:6-13 | a request with no or an empty origin passes; any other passes iff its origin equals a listed entry exactly |
| Cors.ListedOriginsTrimmed | backend/config/corsConfig.js:1-3 | a comma-join of comma-free origins, padded or not, is read back as the list of their trimmed forms |
| Cors.ListedOriginAllowed | backend/config/corsConfig.js:1-9 | for such a list, a non-empty origin passes iff it equals the trimmed form of one of the listed origins |
| Cors.EveryValueIsAList | backend/config/corsConfig.js:1-3 | every value of the variable is the comma-join of its comma-free pieces, and the allow list is their trimmed forms |
| Cors.UnsetAllowsOnlyNoOrigin | backend/config/corsConfig.js:1-9 | with the variable unset or empty the list is `[""]` and only requests without an origin pass |
| Cors.ListedOriginsRoundTrip | backend/config/corsConfig.js:1-9 | a comma-joined list of trimmed, comma-free origins is read back as that list, and a non-empty origin passes iff it is in it |
| Cors.PaddedOriginRejected | backend/config/corsConfig.js:8-13 | an origin with white space at either end is never allowed |

## Left out

- The media upload route: it is file-system I/O with a random file name, so media rows enter the model only as table contents.
- Server wiring, request logging, the frontend's login and logout API pages, the seeding script and the build configuration are not part of this model.
- Foreign keys: creating a task, guest, note, category or item under a workspace or category id that does not exist succeeds in the model. The relational schema is not part of this model.
- Budgets.DeleteBudget: removes only the category row and leaves its items; whether the schema cascades is not known.
- Budgets.CreateBudget: a new category's `order` is taken to be 0 and a new item's actual amount 0, the column defaults assumed for a schema that is not part of this model.
- Storage failures other than a missing row (connection loss, constraint violations) and the 500 they would give are not modelled.
- Token expiry, the signing secret and its default value are inside `sign` and `verify`, which are parameters.
- The check-then-create sequences (invite, config GET, workspace bootstrap) race under concurrent requests; the model runs one request at a time.
- Budget amounts are integers; floating-point sums and their rounding are not modelled.
- Request bodies are typed: an explicit `null` is treated like an absent field, and values of the wrong JSON type (a non-array `mediaIds`, a numeric title) are not modelled.
- Ids are naturals from one counter, not the ORM's generated strings; a route parameter that is not a well-formed id is not modelled.
- Among rows with equal sort keys, and for the queries with no `orderBy` at all (the member list, the
  workspace list and a note's attachments), the model fixes table order; the ORM leaves it unspecified.
- Response bodies are reduced to status plus result: error message texts are modelled only for login and the bearer gate, and the user columns included in the invite response are left out.
- PageGate.OnRequest: treats every decoded payload as truthy, so a token whose payload decodes to a falsy value is not modelled.
- Dashboard.GetDashboard: reads one snapshot of the tables; the handler's separate reads are not atomic.
