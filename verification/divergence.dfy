/** Where the two controllers, run on the same store, agree and where they differ. */
module Divergence {
  import opened Wrappers
  import opened LogStore
  import Src = LogsController
  import Backend = BackendLogsController

  /** The filtered reads answer the same in both controllers. */
  lemma ReadsAgree(caller: UserId, s: string, st: Store)
    ensures Src.GetBySender(caller, s, st) == Backend.GetBySender(caller, s, st)
    ensures Src.GetByEnvironment(caller, s, st) == Backend.GetByEnvironment(caller, s, st)
    ensures Src.GetByLevel(caller, s, st) == Backend.GetByLevel(caller, s, st)
  {
  }

  /** Create, the soft-delete of one and of all logs, and the restore of all logs
      write the same store in both controllers and differ only in status codes:
      201/200 for create, 204/406 for nothing to delete, 204/400 for nothing to restore. */
  lemma ScopedWritesAgreeUpToStatus(caller: UserId, id: LogId, body: LogBody, schemaValid: Call<bool>, st: Store)
    requires Valid(st)
    ensures Src.Create(caller, body, schemaValid, st).store == Backend.Create(caller, body, schemaValid, st).store
    ensures Src.Create(caller, body, schemaValid, st).status == 201 <==> Backend.Create(caller, body, schemaValid, st).status == 200
    ensures Src.DeleteById(caller, id, st).store == Backend.DeleteByLogId(caller, id, st).store
    ensures Src.DeleteById(caller, id, st).status == 204 <==> Backend.DeleteByLogId(caller, id, st).status == 406
    ensures Src.DeleteAllByUser(caller, st).store == Backend.DeleteAllLogsByUser(caller, st).store
    ensures Src.DeleteAllByUser(caller, st).status == 204 <==> Backend.DeleteAllLogsByUser(caller, st).status == 406
    ensures Src.RestoreAllByUser(caller, st).store == Backend.RestoreAllLogs(caller, st).store
    ensures Src.RestoreAllByUser(caller, st).status == 204 <==> Backend.RestoreAllLogs(caller, st).status == 400
  {
  }

  /** The backend `hardDeleteById` is not owner-scoped: it removes another user's
      active row, which the top-level controller refuses with 204. */
  lemma HardDeleteByIdIgnoresOwner(caller: UserId, id: LogId, st: Store)
    requires id in st.rows && !st.rows[id].deleted && st.rows[id].owner != caller
    ensures Backend.HardDeleteById(caller, id, st) == Write(200, st.(rows := st.rows - {id}))
    ensures Src.HardDeleteById(caller, id, st) == Write(204, st)
  {
  }

  /** The backend `hardDeleteById` cannot see a soft-deleted row, which the top-level
      controller purges. */
  lemma HardDeleteByIdSkipsSoftDeleted(caller: UserId, id: LogId, st: Store)
    requires Owns(st, caller, id) && st.rows[id].deleted
    ensures Backend.HardDeleteById(caller, id, st) == Write(406, st)
    ensures Src.HardDeleteById(caller, id, st) == Write(200, st.(rows := st.rows - {id}))
  {
  }

  /** The backend `restoreLogById` on the caller's own row also restores every other
      user's deleted row; the top-level `restoreById` restores that row alone. */
  lemma RestoreLogByIdRestoresEveryone(caller: UserId, id: LogId, other: LogId, st: Store)
    requires Owns(st, caller, id) && other != id
    requires other in st.rows && st.rows[other].owner != caller && st.rows[other].deleted
    ensures !Backend.RestoreLogById(caller, id, st).store.rows[other].deleted
    ensures Src.RestoreById(caller, id, st).store.rows[other].deleted
  {
  }

  /** A caller whose rows are all soft-deleted: the backend `hardDeleteAll` answers
      406 and keeps them, the top-level `hardDeleteAllByUser` removes them all. */
  lemma HardDeleteAllNeedsActiveRow(caller: UserId, id: LogId, st: Store)
    requires Owns(st, caller, id)
    requires forall k :: Owns(st, caller, k) ==> st.rows[k].deleted
    ensures Backend.HardDeleteAll(caller, st) == Write(406, st)
    ensures Src.HardDeleteAllByUser(caller, st).status == 200
    ensures forall k :: !Owns(Src.HardDeleteAllByUser(caller, st).store, caller, k)
  {
  }
}
