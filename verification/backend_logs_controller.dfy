/** The log handlers of the backend controller (backend/src/controllers/LogsController.js).

    Same API as `LogsController` over the same store, with different scoping,
    existence checks and status codes: a missing record answers 406 for deletes and
    400 for restores, `hardDeleteById` is not owner-scoped, and `restoreLogById`
    restores the whole table.

    The caller is an explicit parameter. In the source the read and create handlers
    destructure `req.locals.UserId`, while `getIdByToken` stores the bare id in
    `req.locals`; `AuthGate.BackendCaller` records what those handlers would read. */
module BackendLogsController {
  import opened Wrappers
  import opened LogStore

  /** `getBySender`: 200 with the list of the caller's active logs from that application, or 204. */
  function GetBySender(caller: UserId, senderApplication: string, st: Store): (r: Listing)
    ensures Selected(st, caller, Sender(senderApplication), r.logs)
    ensures r.status == 204 <==> r.logs == map[]
    ensures r.status == 200 || r.status == 204
  {
    ListOwned(caller, Sender(senderApplication), st)
  }

  /** `getByEnvironment`: 200 with the list of the caller's active logs from that environment, or 204. */
  function GetByEnvironment(caller: UserId, environment: string, st: Store): (r: Listing)
    ensures Selected(st, caller, Environment(environment), r.logs)
    ensures r.status == 204 <==> r.logs == map[]
    ensures r.status == 200 || r.status == 204
  {
    ListOwned(caller, Environment(environment), st)
  }

  /** `getByLevel`: 200 with the list of the caller's active logs of that level, or 204. */
  function GetByLevel(caller: UserId, level: string, st: Store): (r: Listing)
    ensures Selected(st, caller, Level(level), r.logs)
    ensures r.status == 204 <==> r.logs == map[]
    ensures r.status == 200 || r.status == 204
  {
    ListOwned(caller, Level(level), st)
  }

  /** `create`: as in the other controller, but success answers 200 rather than 201. */
  function Create(caller: UserId, body: LogBody, schemaValid: Call<bool>, st: Store): (r: Write)
    requires Valid(st)
    ensures Valid(r.store)
    ensures r.status == 406 <==> schemaValid == Returns(false)
    ensures r.status == 500 <==> schemaValid == Throws
    ensures r.status != 200 ==> r.store == st
    ensures r.status == 200 <==> schemaValid == Returns(true)
    ensures r.status == 200 ==>
      && st.nextId !in st.rows
      && r.store.rows == st.rows[st.nextId := NewRow(caller, body)]
  {
    match schemaValid
    case Throws => Write(500, st)
    case Returns(ok) =>
      if !ok then Write(406, st)
      else Write(200, Insert(st, NewRow(caller, body)))
  }

  /** `deleteByLogId`: 406 unless the caller owns a non-deleted row with this id;
      the destroy then matches by id alone, which, ids being unique, is that row. */
  function DeleteByLogId(caller: UserId, id: LogId, st: Store): (r: Write)
    ensures !OwnsActive(st, caller, id) ==> r == Write(406, st)
    ensures OwnsActive(st, caller, id) ==> r == Write(200, st.(rows := st.rows[id := st.rows[id].(deleted := true)]))
  {
    if !Found(st, ByOwnerAndId(caller, id), true) then Write(406, st)
    else
      var st' := Destroy(st, ById(id));
      assert st'.rows == st.rows[id := st.rows[id].(deleted := true)];
      Write(200, st')
  }

  /** `hardDeleteById`: the lookup ignores the owner and, being paranoid, skips a
      soft-deleted row; an active row with this id is removed whoever owns it. */
  function HardDeleteById(caller: UserId, id: LogId, st: Store): (r: Write)
    ensures !(id in st.rows && !st.rows[id].deleted) ==> r == Write(406, st)
    ensures id in st.rows && !st.rows[id].deleted ==> r == Write(200, st.(rows := st.rows - {id}))
  {
    if !Found(st, ById(id), true) then Write(406, st)
    else
      var st' := ForceDestroy(st, ById(id));
      assert st'.rows == st.rows - {id};
      Write(200, st')
  }

  /** `deleteAllLogsByUser`: 406 when the caller has no non-deleted row; otherwise
      every row of the caller ends up deleted. */
  function DeleteAllLogsByUser(caller: UserId, st: Store): (r: Write)
    ensures r.status == 406 <==> forall k :: !OwnsActive(st, caller, k)
    ensures r.status == 406 ==> r.store == st
    ensures r.status == 200 ==> r.store.nextId == st.nextId && r.store.rows.Keys == st.rows.Keys
    ensures r.status == 200 ==> forall k :: k in st.rows ==>
      r.store.rows[k] == (if st.rows[k].owner == caller then st.rows[k].(deleted := true) else st.rows[k])
    ensures r.status == 200 || r.status == 406
  {
    var logs := FindAll(st, ByOwner(caller), true);
    FindAllEmpty(st, ByOwner(caller), true);
    if |logs| == 0 then
      Write(406, st)
    else
      assert exists k :: OwnsActive(st, caller, k) by {
        var k :| k in logs;
        assert OwnsActive(st, caller, k);
      }
      Write(200, Destroy(st, ByOwner(caller)))
  }

  /** `hardDeleteAll`: the count is paranoid, so a caller whose rows are all
      soft-deleted gets 406 and keeps them; otherwise every row of the caller,
      active or deleted, is removed. */
  function HardDeleteAll(caller: UserId, st: Store): (r: Write)
    ensures r.status == 406 <==> forall k :: !OwnsActive(st, caller, k)
    ensures r.status == 406 ==> r.store == st
    ensures r.status == 200 ==> r.store.nextId == st.nextId
    ensures r.status == 200 ==> forall k :: k in r.store.rows <==> k in st.rows && st.rows[k].owner != caller
    ensures forall k :: k in r.store.rows ==> k in st.rows && r.store.rows[k] == st.rows[k]
    ensures r.status == 200 || r.status == 406
  {
    var logs := FindAll(st, ByOwner(caller), true);
    FindAllEmpty(st, ByOwner(caller), true);
    if |logs| == 0 then
      Write(406, st)
    else
      assert exists k :: OwnsActive(st, caller, k) by {
        var k :| k in logs;
        assert OwnsActive(st, caller, k);
      }
      Write(200, ForceDestroy(st, ByOwner(caller)))
  }

  /** `restoreLogById`: the lookup ignores the owner and sees deleted rows; when a
      row with this id exists, `Log.restore()` without a filter makes every row of
      every user active. */
  function RestoreLogById(caller: UserId, id: LogId, st: Store): (r: Write)
    ensures id !in st.rows ==> r == Write(400, st)
    ensures id in st.rows ==> r.status == 200 && r.store.nextId == st.nextId && r.store.rows.Keys == st.rows.Keys
    ensures id in st.rows ==> forall k :: k in st.rows ==> r.store.rows[k] == st.rows[k].(deleted := false)
  {
    if !Found(st, ById(id), false) then Write(400, st)
    else Write(200, Restore(st, Everything))
  }

  /** `restoreAllLogs`: 400 when the caller owns no row in any state; otherwise every
      row of the caller becomes active. */
  function RestoreAllLogs(caller: UserId, st: Store): (r: Write)
    ensures r.status == 400 <==> forall k :: !Owns(st, caller, k)
    ensures r.status == 400 ==> r.store == st
    ensures r.status == 200 ==> r.store.nextId == st.nextId && r.store.rows.Keys == st.rows.Keys
    ensures r.status == 200 ==> forall k :: k in st.rows ==>
      r.store.rows[k] == (if st.rows[k].owner == caller then st.rows[k].(deleted := false) else st.rows[k])
    ensures r.status == 200 || r.status == 400
  {
    var logs := FindAll(st, ByOwner(caller), false);
    FindAllEmpty(st, ByOwner(caller), false);
    if |logs| == 0 then
      Write(400, st)
    else
      assert exists k :: Owns(st, caller, k) by {
        var k :| k in logs;
        assert Owns(st, caller, k);
      }
      Write(200, Restore(st, ByOwner(caller)))
  }
}
