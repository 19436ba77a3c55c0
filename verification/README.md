# Log store with soft delete, and its auth gate, in Dafny

This project models the core of a multi-tenant log API built on Express and
Sequelize. Users store application log records scoped to themselves. Each record
is Active, SoftDeleted (hidden from normal reads, restorable) or Purged (removed
for good). Two controller files implement the same log API with different
scoping, existence checks and status codes; an auth middleware file gates every
request.

- `wrappers.dfy`: `Option`, and `Call` for a collaborator that may throw.
- `log_store.dfy` (module `LogStore`): the log table as `map<LogId, Row>` plus
  the auto-increment counter, with Sequelize's "paranoid" contract written out:
  - `FindAll` and `Found` skip deleted rows unless `paranoid: false`;
  - `Destroy` marks matching active rows deleted, `ForceDestroy` removes matching rows;
  - `Restore` clears the flag of matching rows; `Everything` is `restore()` without a filter.
  It also defines the lifecycle phases of an id and the `Lifecycle` step relation.
- `accounts.dfy` (module `Accounts`): the user table as a sequence; `FindByEmail`
  is `User.findOne` by email. A `findOne` without `order` fixes no particular
  match, so the model picks the first one in table order; with unique emails
  there is at most one match and the choice does not matter.
- `logs_controller.dfy` (module `LogsController`): src/controllers/LogsController.js.
- `backend_logs_controller.dfy` (module `BackendLogsController`):
  backend/src/controllers/LogsController.js.
- `auth_gate.dfy` (module `AuthGate`): backend/src/middlewares/auth.js, each
  middleware a function returning `Respond(status)`, `Issue(token)` (200 with a
  token), `Next(locals)`, `Hang` (neither a response nor `next`) or `Error500`.
- `lifecycle.dfy`, `divergence.dfy`, `auth_properties.dfy`: lemmas that relate
  several calls.

Every handler is a pure function of the caller's id, its arguments and the
store. It returns the status and the returned rows (reads), or the status and
the new store (writes). Each handler is one atomic step.

The validators, `compareHash`, `generateToken` and `decodeToken` are external
code. They are function-valued parameters (`AuthGate.Deps`) or plain parameters
(`schemaValid`). Each returns `Throws` or `Returns(v)`. The read of the user
table is a `Call` parameter as well.

Modelling decisions taken from the code:
- `req.body` is a `map<string, string>`, so `Object.keys(req.body).length` is its size.
- JavaScript truthiness is modelled where the code tests it. An empty
  `authorization` header is refused like a missing one. Destructuring
  `undefined` throws and so answers 500. This is why `authorizeForRestoreUser`
  without `req.locals` answers 500, and why `getIdByToken` answers 500 on a falsy
  decode or on a claim without `userId`.
- The User model is read as paranoid, as `authenticateForRestoreUser` passing
  `paranoid: false` implies. `getAllLogs` therefore finds no account for a
  soft-deleted user, and its `include: Log` join skips deleted logs.
- A `findOne` with an undefined `email` in its where clause is modelled as
  throwing, which Sequelize does for undefined where values.
- `getIdByToken` stores the bare id in `req.locals` (backend/src/middlewares/auth.js:128).
  The top-level controller reads it that way (src/controllers/LogsController.js:8).
  The backend read and create handlers destructure `req.locals.UserId`
  (backend/src/controllers/LogsController.js:8,27,46,65), which would be undefined.
  The model passes the caller id explicitly to every handler. It records what each
  controller would actually read as `AuthGate.SrcCaller` and `AuthGate.BackendCaller`.
  `AuthProperties.BackendReadPathMissesCaller` proves that the backend read path
  never receives the id.

On these points the model follows the code as written:
- restoring one log checks for the caller's row in any state (`paranoid: false`),
  not only in the soft-deleted set. Restoring an active row answers 200 and changes nothing;
- restoring all logs answers "nothing to restore" only when the caller has no row
  in any state. It answers 200 when none was deleted;
- the backend `hardDeleteById` is not owner-scoped and cannot see a soft-deleted row;
- the backend `restoreLogById` restores every row of every user;
- status codes differ between the two controllers. "Nothing found" is 204
  throughout the top-level controller. In the backend it is 406 for deletes and
  400 for restores. `create` answers 201 in one and 200 in the other.

## Model

| member | source | states |
|---|---|---|
| LogsController.GetBySender | src/controllers/LogsController.js:11-20 | returns exactly the caller's non-deleted rows from that sender application, unchanged; 204 iff there are none, else 200 |
| LogsController.GetByEnvironment | src/controllers/LogsController.js:32-41 | returns exactly the caller's non-deleted rows of that environment; 204 iff there are none, else 200 |
| LogsController.GetByLevel | src/controllers/LogsController.js:53-62 | returns exactly the caller's non-deleted rows of that level; 204 iff there are none, else 200 |
| LogsController.GetAllLogs | src/controllers/LogsController.js:73-88 | 204 iff the caller has no live account or no non-deleted row, and a 204 lists no rows; on 200 the listed rows are exactly the caller's non-deleted rows |
| LogsController.Create | src/controllers/LogsController.js:99-110 | a rejected body answers 406 and a throwing validator 500, both with the store unchanged; an accepted body answers 201 and adds exactly one active row owned by the caller under a fresh id |
| LogsController.RestoreById | src/controllers/LogsController.js:122-138 | 204 with the store unchanged unless the caller owns the id in any state; otherwise 200 and only that row becomes active |
| LogsController.RestoreAllByUser | src/controllers/LogsController.js:149-163 | 204 iff the caller owns no row in any state; otherwise 200, every row of the caller is active and every other row is unchanged |
| LogsController.DeleteById | src/controllers/LogsController.js:175-187 | 204 with the store unchanged unless the caller owns an active row with the id; otherwise 200 and only that row becomes deleted |
| LogsController.DeleteAllByUser | src/controllers/LogsController.js:197-210 | 204 iff the caller has no active row; otherwise 200, every row of the caller is deleted and every other row is unchanged |
| LogsController.HardDeleteById | src/controllers/LogsController.js:222-236 | 204 with the store unchanged unless the caller owns the id in any state; otherwise 200 and exactly that row is removed |
| LogsController.HardDeleteAllByUser | src/controllers/LogsController.js:247-262 | 204 iff the caller owns no row in any state; otherwise 200 and the remaining rows are exactly the other users' rows, unchanged |
| BackendLogsController.GetBySender | backend/src/controllers/LogsController.js:10-18 | returns exactly the caller's non-deleted rows from that sender application; 204 iff none, else 200 |
| BackendLogsController.GetByEnvironment | backend/src/controllers/LogsController.js:29-37 | returns exactly the caller's non-deleted rows of that environment; 204 iff none, else 200 |
| BackendLogsController.GetByLevel | backend/src/controllers/LogsController.js:48-56 | returns exactly the caller's non-deleted rows of that level; 204 iff none, else 200 |
| BackendLogsController.Create | backend/src/controllers/LogsController.js:67-78 | a rejected body answers 406 with the store unchanged; an accepted body answers 200 and adds one active row owned by the caller under a fresh id |
| BackendLogsController.DeleteByLogId | backend/src/controllers/LogsController.js:90-102 | 406 with the store unchanged unless the caller owns an active row with the id; otherwise 200 and only that row becomes deleted, although the destroy filters by id alone |
| BackendLogsController.HardDeleteById | backend/src/controllers/LogsController.js:113-126 | 406 with the store unchanged unless an active row has the id, whoever owns it; otherwise 200 and that row is removed |
| BackendLogsController.DeleteAllLogsByUser | backend/src/controllers/LogsController.js:136-148 | 406 iff the caller has no active row; otherwise 200, every row of the caller is deleted and every other row is unchanged |
| BackendLogsController.HardDeleteAll | backend/src/controllers/LogsController.js:159-171 | 406 iff the caller has no active row, so only soft-deleted rows are kept; otherwise 200 and every row of the caller, active or deleted, is removed |
| BackendLogsController.RestoreLogById | backend/src/controllers/LogsController.js:180-193 | 400 with the store unchanged iff no row of anyone has the id; otherwise 200 and every row of every user is active |
| BackendLogsController.RestoreAllLogs | backend/src/controllers/LogsController.js:199-212 | 400 iff the caller owns no row in any state; otherwise 200, every row of the caller is active and every other row is unchanged |
| Accounts.FindByEmail | backend/src/middlewares/auth.js:23-25 | returns nothing iff no user in the table has the email and is visible to the read; otherwise the first such user in table order |
| AuthGate.LookupUser | backend/src/middlewares/auth.js:23-65 | `User.findOne` by email (lines 23-25, and lines 60-65 with `paranoid: false`, where soft-deleted users are selectable): throws iff the table read fails or the email is undefined; otherwise nothing iff no user in the table is selectable, else a selectable user of the table |
| AuthGate.CheckCredentials | backend/src/middlewares/auth.js:10-37 | more than two body keys stops with 406; a throwing validator 500 and a rejected shape 406; after an accepted shape a throwing lookup 500 and no user 400; for the user found, a throwing comparison 500, a mismatch 401, a match passes that user; a pass happens only for the looked-up user with a matching hash |
| AuthGate.Authenticate | backend/src/middlewares/auth.js:8-41 | 406 iff more than two keys or a rejected shape; 400 iff the shape is accepted, the table was read and no active user has the email; a lookup that throws (failed read or undefined email) answers 500; for the active user found, a wrong password answers 401 and a matching one answers 200 with the token generated from that user's id, or 500 if generation throws; never `next` |
| AuthGate.AuthenticateForRestoreUser | backend/src/middlewares/auth.js:43-86 | the same 406 and 400 conditions with a lookup that includes soft-deleted users, and 500 when that lookup throws; for the user found, a wrong password answers 401 and a matching one sends nothing and calls `next` with `locals.token = "Bearer " + t` for the token `t` generated from that user's id, or 500 if generation throws |
| AuthGate.AuthorizeForRestoreUser | backend/src/middlewares/auth.js:88-103 | reads the token from `req.locals`; undefined locals answer 500, a missing or empty token 401; `next` iff the token decodes truthy; a falsy decode hangs |
| AuthGate.Authorize | backend/src/middlewares/auth.js:105-120 | 401 for a missing or empty header; `next`, with locals unchanged, iff decoding yields a truthy value; a falsy decode hangs; a throwing decode answers 500 |
| AuthGate.GetIdByToken | backend/src/middlewares/auth.js:121-135 | 406 for a missing header; 500 iff decoding throws, yields a falsy value or an object without `userId` (the destructuring throws); `next` iff it yields an object with a `userId`, and then `req.locals` is the decoded `userId.id`, undefined when the claim has no `id` |
| AuthGate.SrcCaller | src/controllers/LogsController.js:8 | the top-level controller reads `req.locals` itself as the caller id: it yields an id exactly when `req.locals` holds that bare id |
| AuthGate.BackendCaller | backend/src/controllers/LogsController.js:8 | the backend read and create handlers read `req.locals.UserId` (here and at lines 27, 46 and 65): undefined `req.locals` throws, and otherwise the result is always undefined, never an id |
| Lifecycle.SrcWriteIsLifecycleStep | src/controllers/LogsController.js:94-262 | every write of the top-level controller keeps the store valid, moves each id along Active/SoftDeleted/Purged steps with Purged terminal, never rewrites a surviving row's fields, and leaves other users' rows exactly as they were |
| Lifecycle.BackendWriteIsLifecycleStep | backend/src/controllers/LogsController.js:63-213 | every write of the backend controller keeps the store valid and moves each id along an allowed lifecycle step |
| Lifecycle.BackendScopedWrites | backend/src/controllers/LogsController.js:133-212 | every backend write except `hardDeleteById` and `restoreLogById` leaves other users' rows exactly as they were |
| Lifecycle.PurgedStaysPurged | src/controllers/LogsController.js:217-241 | once purged, an id stays purged through any run of requests by any callers, and `restoreById` and `hardDeleteById` on it then answer 204 |
| Lifecycle.PurgeThenRetry | src/controllers/LogsController.js:122-132 | after a successful `hardDeleteById`, `restoreById` and `hardDeleteById` on the same id answer 204 and change nothing |
| Lifecycle.DeleteThenRestore | src/controllers/LogsController.js:175-185 | a successful `deleteById` followed by `restoreById` on the same id answers 200 and returns the store to its prior state |
| Lifecycle.RestoreActiveIsNoop | src/controllers/LogsController.js:122-136 | restoring an active row of the caller answers 200 and leaves the store unchanged |
| Lifecycle.DeletedRowInvisible | src/controllers/LogsController.js:170-187 | after a soft delete no filtered read and no `getAllLogs` of the caller lists the row; after restoring it, the matching filtered reads, and `getAllLogs` when the caller has a live account, list it again with the same fields |
| Lifecycle.ForeignRowUntouched | src/controllers/LogsController.js:117-241 | `deleteById`, `restoreById` and `hardDeleteById` on another user's row answer 204 and change nothing |
| Lifecycle.IsolationScenario | src/controllers/LogsController.js:6-25 | after user A creates a log from "svc1", A's `getBySender("svc1")` returns exactly that log and user B's answers 204 |
| Divergence.ReadsAgree | backend/src/controllers/LogsController.js:6-61 | the filtered reads of both controllers return the same status and rows |
| Divergence.ScopedWritesAgreeUpToStatus | backend/src/controllers/LogsController.js:63-213 | create, delete-one, delete-all and restore-all write the same store in both controllers; the codes map 201 to 200, 204 to 406 and 204 to 400 |
| Divergence.HardDeleteByIdIgnoresOwner | backend/src/controllers/LogsController.js:109-126 | the backend removes another user's active row, which the top-level controller refuses with 204 |
| Divergence.HardDeleteByIdSkipsSoftDeleted | backend/src/controllers/LogsController.js:113-119 | the backend answers 406 for the caller's soft-deleted row, which the top-level controller purges |
| Divergence.RestoreLogByIdRestoresEveryone | backend/src/controllers/LogsController.js:180-191 | restoring one's own row in the backend also restores other users' deleted rows; the top-level controller restores that row alone |
| Divergence.HardDeleteAllNeedsActiveRow | backend/src/controllers/LogsController.js:159-171 | for a caller whose rows are all soft-deleted, the backend answers 406 and keeps them, while the top-level controller removes them all |
| AuthProperties.KeyCountGuardFirst | backend/src/middlewares/auth.js:10-12 | more than two body keys answers 406 in both credential middlewares, whatever the collaborators and the user table |
| AuthProperties.SchemaGuardBeforeLookup | backend/src/middlewares/auth.js:14-25 | while the shape is not accepted, the user table does not influence the outcome, which is 406 or 500 in both `authenticate` and `authenticateForRestoreUser` |
| AuthProperties.ThrowsAnswer500 | backend/src/middlewares/auth.js:8-134 | a throwing decode, validator, hash comparison or token generation, and a user lookup that throws because the table read fails or the email is undefined, answer 500 in every middleware that reaches it, token generation included in both `authenticate` and `authenticateForRestoreUser` |
| AuthProperties.VerdictsAgreeWithoutTombstones | backend/src/middlewares/auth.js:10-81 | on a table without soft-deleted users, the shared guards of both credential chains stop with the same outcome or pass the same user, whichever lookup they use |
| AuthProperties.ChainsAgreeWithoutTombstones | backend/src/middlewares/auth.js:43-86 | on a table without soft-deleted users, `authenticate` issues `t` iff `authenticateForRestoreUser` calls `next` with `"Bearer " + t` |
| AuthProperties.RefusalsAgreeWithoutTombstones | backend/src/middlewares/auth.js:8-86 | on a table without soft-deleted users, every outcome of `authenticate` other than a token (406, 400, 401, 500) is also the outcome of `authenticateForRestoreUser` |
| AuthProperties.LookupIgnoresParanoiaWithoutTombstones | backend/src/middlewares/auth.js:60-65 | on a table without soft-deleted users the paranoid and non-paranoid email lookups return the same user |
| AuthProperties.TombstoneOnlyForRestore | backend/src/middlewares/auth.js:60-69 | in any user table where the email matches no live user but the non-paranoid lookup finds `u`, `u` is soft-deleted, `authenticate` answers 400, and `authenticateForRestoreUser` goes on to compare `u`'s password (401 on a mismatch, `next` with the bearer token on a match) |
| AuthProperties.RestoreChainComposes | backend/src/middlewares/auth.js:73-98 | after `authenticateForRestoreUser` calls `next`, `authorizeForRestoreUser` never answers 401 and calls `next` iff the bearer string decodes truthy |
| AuthProperties.AuthorizeThenGetId | backend/src/middlewares/auth.js:105-130 | a missing header answers 401 in `authorize` but 406 in `getIdByToken`; a header `authorize` passes never makes `getIdByToken` answer 406 or hang |
| AuthProperties.BackendReadPathMissesCaller | backend/src/middlewares/auth.js:121-130 | after `getIdByToken` calls `next`, reading `req.locals.UserId` yields no id, while reading `req.locals` yields the decoded id |

## Left out

- Persistence failures inside the controllers: the store is total. A rejected
  query in the top-level controller and in most backend handlers would answer 500.
  In the backend `restoreLogById` and `restoreAllLogs` it would be an unhandled
  rejection, because those two handlers have no `try`.
- Response bodies beyond the status and the returned rows: messages and the
  created record. The `total` field of the top-level reads is the size of the returned map.
- Row order: a `map` has no order, so the insertion order of `findAll` results is not modelled.
- Timestamps: `deletedAt` is a boolean flag and `createdAt` is not modelled.
  Body fields beyond sender, environment, level and message are not modelled,
  nor are the `id` or `deletedAt` fields that the spread `{...body, UserId}`
  (src/controllers/LogsController.js:105-108) could carry. `Lifecycle.PurgedStaysPurged`
  and the Unborn-to-Active step in `Lifecycle.SrcWriteIsLifecycleStep` rely on
  this: a body carrying a purged `id` would bring that id back.
- Concurrency and the race between the existence check and the write; each handler is one atomic step.
- The internals of Sequelize, bcrypt, the token library and the schema validators;
  they are parameters. The credential validator's `isValid` result is used
  without `await`. If it returns a promise, the value is always truthy and the
  406 shape check never fires. The model takes the validator's result as the
  truthiness the code tests.
- The account lifecycle (creating and soft-deleting users); the user table is an input.
- Routing, `console.log`, async/await and the Express `req`/`res` plumbing.
