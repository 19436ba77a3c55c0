/** Properties of the log lifecycle that relate several handler calls: every write
    handler of either controller moves each log id along an allowed step, the
    top-level controller never touches another user's rows, a soft delete is
    undone by a restore, and a purge is terminal for any later run of requests. */
module Lifecycle {
  import opened Wrappers
  import opened LogStore
  import opened Accounts
  import Src = LogsController
  import Backend = BackendLogsController

  /** The write requests of the top-level controller. */
  datatype SrcOp =
    | Create(body: LogBody, schemaValid: Call<bool>)
    | RestoreById(id: LogId)
    | RestoreAllByUser
    | DeleteById(id: LogId)
    | DeleteAllByUser
    | HardDeleteById(id: LogId)
    | HardDeleteAllByUser

  function ApplySrc(caller: UserId, op: SrcOp, st: Store): (r: Write)
    requires Valid(st)
  {
    match op
    case Create(body, schemaValid) => Src.Create(caller, body, schemaValid, st)
    case RestoreById(id) => Src.RestoreById(caller, id, st)
    case RestoreAllByUser => Src.RestoreAllByUser(caller, st)
    case DeleteById(id) => Src.DeleteById(caller, id, st)
    case DeleteAllByUser => Src.DeleteAllByUser(caller, st)
    case HardDeleteById(id) => Src.HardDeleteById(caller, id, st)
    case HardDeleteAllByUser => Src.HardDeleteAllByUser(caller, st)
  }

  /** The write requests of the backend controller. */
  datatype BackendOp =
    | BCreate(body: LogBody, schemaValid: Call<bool>)
    | BDeleteByLogId(id: LogId)
    | BHardDeleteById(id: LogId)
    | BDeleteAllLogsByUser
    | BHardDeleteAll
    | BRestoreLogById(id: LogId)
    | BRestoreAllLogs

  function ApplyBackend(caller: UserId, op: BackendOp, st: Store): (r: Write)
    requires Valid(st)
  {
    match op
    case BCreate(body, schemaValid) => Backend.Create(caller, body, schemaValid, st)
    case BDeleteByLogId(id) => Backend.DeleteByLogId(caller, id, st)
    case BHardDeleteById(id) => Backend.HardDeleteById(caller, id, st)
    case BDeleteAllLogsByUser => Backend.DeleteAllLogsByUser(caller, st)
    case BHardDeleteAll => Backend.HardDeleteAll(caller, st)
    case BRestoreLogById(id) => Backend.RestoreLogById(caller, id, st)
    case BRestoreAllLogs => Backend.RestoreAllLogs(caller, st)
  }

  /** Every write of the top-level controller keeps the store valid, moves each id
      along an allowed lifecycle step, and leaves every other user's rows exactly
      as they were. */
  lemma SrcWriteIsLifecycleStep(caller: UserId, op: SrcOp, st: Store)
    requires Valid(st)
    ensures Valid(ApplySrc(caller, op, st).store)
    ensures Lifecycle(st, ApplySrc(caller, op, st).store)
    ensures OthersUntouched(st, ApplySrc(caller, op, st).store, caller)
  {
  }

  /** Every write of the backend controller keeps the store valid and moves each id
      along an allowed lifecycle step. */
  lemma BackendWriteIsLifecycleStep(caller: UserId, op: BackendOp, st: Store)
    requires Valid(st)
    ensures Valid(ApplyBackend(caller, op, st).store)
    ensures Lifecycle(st, ApplyBackend(caller, op, st).store)
  {
  }

  /** Every backend write except the unscoped `hardDeleteById` and `restoreLogById`
      leaves other users' rows exactly as they were. */
  lemma BackendScopedWrites(caller: UserId, op: BackendOp, st: Store)
    requires Valid(st)
    requires !op.BHardDeleteById? && !op.BRestoreLogById?
    ensures OthersUntouched(st, ApplyBackend(caller, op, st).store, caller)
  {
  }

  /** A run of top-level requests, each by some caller, applied in order. */
  function RunSrc(reqs: seq<(UserId, SrcOp)>, st: Store): (st': Store)
    requires Valid(st)
    ensures Valid(st')
    decreases |reqs|
  {
    if |reqs| == 0 then st
    else
      SrcWriteIsLifecycleStep(reqs[0].0, reqs[0].1, st);
      RunSrc(reqs[1..], ApplySrc(reqs[0].0, reqs[0].1, st).store)
  }

  /** Purge is terminal: once an id is purged, no run of requests by any callers
      brings it back, and `restoreById` and `hardDeleteById` on it answer 204. */
  lemma {:induction false} PurgedStaysPurged(reqs: seq<(UserId, SrcOp)>, st: Store, id: LogId)
    requires Valid(st) && PhaseOf(st, id) == Purged
    ensures PhaseOf(RunSrc(reqs, st), id) == Purged
    ensures forall c :: Src.RestoreById(c, id, RunSrc(reqs, st)).status == 204
    ensures forall c :: Src.HardDeleteById(c, id, RunSrc(reqs, st)).status == 204
    decreases |reqs|
  {
    if |reqs| > 0 {
      SrcWriteIsLifecycleStep(reqs[0].0, reqs[0].1, st);
      var st1 := ApplySrc(reqs[0].0, reqs[0].1, st).store;
      assert Step(PhaseOf(st, id), PhaseOf(st1, id));
      PurgedStaysPurged(reqs[1..], st1, id);
    }
  }

  /** `hardDeleteById` followed by `restoreById` or another `hardDeleteById` on the
      same id: both answer 204 and change nothing. */
  lemma PurgeThenRetry(caller: UserId, id: LogId, st: Store)
    requires Owns(st, caller, id)
    ensures Src.HardDeleteById(caller, id, st).status == 200
    ensures var st' := Src.HardDeleteById(caller, id, st).store;
      Src.RestoreById(caller, id, st') == Write(204, st') && Src.HardDeleteById(caller, id, st') == Write(204, st')
  {
  }

  /** `deleteById` followed by `restoreById` on the same id gives back the store
      it started from. */
  lemma DeleteThenRestore(caller: UserId, id: LogId, st: Store)
    requires Src.DeleteById(caller, id, st).status == 200
    ensures Src.RestoreById(caller, id, Src.DeleteById(caller, id, st).store) == Write(200, st)
  {
  }

  /** Restoring a row that is already active changes nothing and still answers 200. */
  lemma RestoreActiveIsNoop(caller: UserId, id: LogId, st: Store)
    requires OwnsActive(st, caller, id)
    ensures Src.RestoreById(caller, id, st) == Write(200, st)
  {
  }

  /** After a soft delete no read of the caller lists the row; after the restore
      every read whose filter it matches, and `getAllLogs` for a caller with a live
      account, lists it again with the same fields. */
  lemma DeletedRowInvisible(caller: UserId, id: LogId, st: Store, users: seq<User>, a: Attr)
    requires Src.DeleteById(caller, id, st).status == 200
    ensures id !in ListOwned(caller, a, Src.DeleteById(caller, id, st).store).logs
    ensures id !in Src.GetAllLogs(caller, users, Src.DeleteById(caller, id, st).store).logs
    ensures HasAttr(st.rows[id], a) ==>
      var back := Src.RestoreById(caller, id, Src.DeleteById(caller, id, st).store).store;
      id in ListOwned(caller, a, back).logs && ListOwned(caller, a, back).logs[id] == st.rows[id]
    ensures HasActiveUser(users, caller) ==>
      var back := Src.RestoreById(caller, id, Src.DeleteById(caller, id, st).store).store;
      id in Src.GetAllLogs(caller, users, back).logs && Src.GetAllLogs(caller, users, back).logs[id] == st.rows[id]
  {
  }

  /** By-id deletes and restores of the top-level controller on another user's row
      answer 204 and change nothing. */
  lemma ForeignRowUntouched(caller: UserId, id: LogId, st: Store)
    requires id in st.rows && st.rows[id].owner != caller
    ensures Src.DeleteById(caller, id, st) == Write(204, st)
    ensures Src.RestoreById(caller, id, st) == Write(204, st)
    ensures Src.HardDeleteById(caller, id, st) == Write(204, st)
  {
  }

  /** The isolation scenario: user `a` creates a log from application "svc1" in an
      empty store; `a`'s read by sender returns exactly that log, `b`'s returns 204. */
  lemma IsolationScenario(a: UserId, b: UserId)
    requires a != b
    ensures var st := Src.Create(a, LogBody("svc1", "prod", "error", "boom"), Returns(true), Store(map[], 0)).store;
      && Src.GetBySender(a, "svc1", st) == Listing(200, map[0 := Row(a, "svc1", "prod", "error", "boom", false)])
      && Src.GetBySender(b, "svc1", st) == Listing(204, map[])
  {
  }
}
