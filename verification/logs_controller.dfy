/** The log handlers of the top-level controller (src/controllers/LogsController.js).

    Every handler takes the caller's id explicitly (the source reads it from
    `req.locals`, which `getIdByToken` sets to the bare id) and is one atomic step
    over the store: it answers a status and, for writes, the store afterwards.
    A missing record answers 204 throughout this controller. */
module LogsController {
  import opened Wrappers
  import opened LogStore
  import opened Accounts

  /** `getBySender`: 200 with the caller's active logs from that application, or 204. */
  function GetBySender(caller: UserId, senderApplication: string, st: Store): (r: Listing)
    ensures Selected(st, caller, Sender(senderApplication), r.logs)
    ensures r.status == 204 <==> r.logs == map[]
    ensures r.status == 200 || r.status == 204
  {
    ListOwned(caller, Sender(senderApplication), st)
  }

  /** `getByEnvironment`: 200 with the caller's active logs from that environment, or 204. */
  function GetByEnvironment(caller: UserId, environment: string, st: Store): (r: Listing)
    ensures Selected(st, caller, Environment(environment), r.logs)
    ensures r.status == 204 <==> r.logs == map[]
    ensures r.status == 200 || r.status == 204
  {
    ListOwned(caller, Environment(environment), st)
  }

  /** `getByLevel`: 200 with the caller's active logs of that level, or 204. */
  function GetByLevel(caller: UserId, level: string, st: Store): (r: Listing)
    ensures Selected(st, caller, Level(level), r.logs)
    ensures r.status == 204 <==> r.logs == map[]
    ensures r.status == 200 || r.status == 204
  {
    ListOwned(caller, Level(level), st)
  }

  /** `getAllLogs`: the caller's account joined with its (non-deleted) logs.
      No live account, or an account without logs, answers 204. */
  function GetAllLogs(caller: UserId, users: seq<User>, st: Store): (r: Listing)
    ensures r.status == 204 <==> !HasActiveUser(users, caller) || forall k :: !OwnsActive(st, caller, k)
    ensures r.status == 200 ==> forall k :: k in r.logs <==> OwnsActive(st, caller, k)
    ensures r.status == 204 ==> r.logs == map[]
    ensures forall k :: k in r.logs ==> k in st.rows && r.logs[k] == st.rows[k]
    ensures r.status == 200 || r.status == 204
  {
    if !HasActiveUser(users, caller) then Listing(204, map[])
    else
      var logs := FindAll(st, ByOwner(caller), true);
      FindAllEmpty(st, ByOwner(caller), true);
      if |logs| == 0 then
        Listing(204, map[])
      else
        assert exists k :: OwnsActive(st, caller, k) by {
          var k :| k in logs;
          assert OwnsActive(st, caller, k);
        }
        Listing(200, logs)
  }

  /** `create`: the schema validator's verdict gates the insert. A rejected body
      answers 406 and a throwing validator 500, both without writing; an accepted
      body adds one active row owned by the caller and answers 201. */
  function Create(caller: UserId, body: LogBody, schemaValid: Call<bool>, st: Store): (r: Write)
    requires Valid(st)
    ensures Valid(r.store)
    ensures r.status == 406 <==> schemaValid == Returns(false)
    ensures r.status == 500 <==> schemaValid == Throws
    ensures r.status != 201 ==> r.store == st
    ensures r.status == 201 <==> schemaValid == Returns(true)
    ensures r.status == 201 ==>
      && st.nextId !in st.rows
      && r.store.rows == st.rows[st.nextId := NewRow(caller, body)]
  {
    match schemaValid
    case Throws => Write(500, st)
    case Returns(ok) =>
      if !ok then Write(406, st)
      else Write(201, Insert(st, NewRow(caller, body)))
  }

  /** `restoreById`: the existence check sees deleted and active rows of the caller
      (`paranoid: false`); the restore then matches by id alone. */
  function RestoreById(caller: UserId, id: LogId, st: Store): (r: Write)
    ensures !Owns(st, caller, id) ==> r == Write(204, st)
    ensures Owns(st, caller, id) ==> r == Write(200, st.(rows := st.rows[id := st.rows[id].(deleted := false)]))
  {
    if !Found(st, ByOwnerAndId(caller, id), false) then Write(204, st)
    else
      var st' := Restore(st, ById(id));
      assert st'.rows == st.rows[id := st.rows[id].(deleted := false)];
      Write(200, st')
  }

  /** `restoreAllByUser`: 204 when the caller owns no row in any state; otherwise
      every row of the caller becomes active, even if none was deleted. */
  function RestoreAllByUser(caller: UserId, st: Store): (r: Write)
    ensures r.status == 204 <==> forall k :: !Owns(st, caller, k)
    ensures r.status == 204 ==> r.store == st
    ensures r.status == 200 ==> r.store.nextId == st.nextId && r.store.rows.Keys == st.rows.Keys
    ensures r.status == 200 ==> forall k :: k in st.rows ==>
      r.store.rows[k] == (if st.rows[k].owner == caller then st.rows[k].(deleted := false) else st.rows[k])
    ensures r.status == 200 || r.status == 204
  {
    var logs := FindAll(st, ByOwner(caller), false);
    FindAllEmpty(st, ByOwner(caller), false);
    if |logs| == 0 then
      Write(204, st)
    else
      assert exists k :: Owns(st, caller, k) by {
        var k :| k in logs;
        assert Owns(st, caller, k);
      }
      Write(200, Restore(st, ByOwner(caller)))
  }

  /** `deleteById`: 204 unless the caller owns a non-deleted row with this id;
      otherwise that row, and only it, becomes deleted. */
  function DeleteById(caller: UserId, id: LogId, st: Store): (r: Write)
    ensures !OwnsActive(st, caller, id) ==> r == Write(204, st)
    ensures OwnsActive(st, caller, id) ==> r == Write(200, st.(rows := st.rows[id := st.rows[id].(deleted := true)]))
  {
    if !Found(st, ByOwnerAndId(caller, id), true) then Write(204, st)
    else
      var st' := Destroy(st, ByOwnerAndId(caller, id));
      assert st'.rows == st.rows[id := st.rows[id].(deleted := true)];
      Write(200, st')
  }

  /** `deleteAllByUser`: 204 when the caller has no non-deleted row; otherwise every
      row of the caller ends up deleted. */
  function DeleteAllByUser(caller: UserId, st: Store): (r: Write)
    ensures r.status == 204 <==> forall k :: !OwnsActive(st, caller, k)
    ensures r.status == 204 ==> r.store == st
    ensures r.status == 200 ==> r.store.nextId == st.nextId && r.store.rows.Keys == st.rows.Keys
    ensures r.status == 200 ==> forall k :: k in st.rows ==>
      r.store.rows[k] == (if st.rows[k].owner == caller then st.rows[k].(deleted := true) else st.rows[k])
    ensures r.status == 200 || r.status == 204
  {
    var logs := FindAll(st, ByOwner(caller), true);
    FindAllEmpty(st, ByOwner(caller), true);
    if |logs| == 0 then
      Write(204, st)
    else
      assert exists k :: OwnsActive(st, caller, k) by {
        var k :| k in logs;
        assert OwnsActive(st, caller, k);
      }
      Write(200, Destroy(st, ByOwner(caller)))
  }

  /** `hardDeleteById`: removes the caller's row whether active or deleted; 204 if there is none. */
  function HardDeleteById(caller: UserId, id: LogId, st: Store): (r: Write)
    ensures !Owns(st, caller, id) ==> r == Write(204, st)
    ensures Owns(st, caller, id) ==> r == Write(200, st.(rows := st.rows - {id}))
  {
    if !Found(st, ByOwnerAndId(caller, id), false) then Write(204, st)
    else
      var st' := ForceDestroy(st, ByOwnerAndId(caller, id));
      assert st'.rows == st.rows - {id};
      Write(200, st')
  }

  /** `hardDeleteAllByUser`: 204 when the caller owns no row in any state;
      otherwise every row of the caller is removed. */
  function HardDeleteAllByUser(caller: UserId, st: Store): (r: Write)
    ensures r.status == 204 <==> forall k :: !Owns(st, caller, k)
    ensures r.status == 204 ==> r.store == st
    ensures r.status == 200 ==> r.store.nextId == st.nextId
    ensures r.status == 200 ==> forall k :: k in r.store.rows <==> k in st.rows && st.rows[k].owner != caller
    ensures forall k :: k in r.store.rows ==> k in st.rows && r.store.rows[k] == st.rows[k]
    ensures r.status == 200 || r.status == 204
  {
    var logs := FindAll(st, ByOwner(caller), false);
    FindAllEmpty(st, ByOwner(caller), false);
    if |logs| == 0 then
      Write(204, st)
    else
      assert exists k :: Owns(st, caller, k) by {
        var k :| k in logs;
        assert Owns(st, caller, k);
      }
      Write(200, ForceDestroy(st, ByOwner(caller)))
  }
}
