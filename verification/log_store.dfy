/** The persistence layer both log controllers talk to: a table of log rows with
    Sequelize's "paranoid" (soft-delete) semantics, stated explicitly.

    A row carries a `deleted` flag instead of a `deletedAt` timestamp. The table
    also keeps the auto-increment counter, so an id that was purged is never
    handed out again. */
module LogStore {
  import opened Wrappers

  type UserId = nat
  type LogId = nat

  datatype Row = Row(
    owner: UserId,
    senderApplication: string,
    environment: string,
    level: string,
    message: string,
    deleted: bool)

  /** The fields a client sends when creating a log (the body spread into `Log.create`). */
  datatype LogBody = LogBody(senderApplication: string, environment: string, level: string, message: string)

  datatype Store = Store(rows: map<LogId, Row>, nextId: LogId)

  /** Every stored id was issued by the auto-increment counter. */
  predicate Valid(st: Store) {
    forall k :: k in st.rows ==> k < st.nextId
  }

  /** The attribute a filtered read selects on. */
  datatype Attr = Sender(sender: string) | Environment(environment: string) | Level(level: string)

  predicate HasAttr(r: Row, a: Attr) {
    match a
    case Sender(s) => r.senderApplication == s
    case Environment(e) => r.environment == e
    case Level(l) => r.level == l
  }

  /** A `where` clause: every present field must match; an absent field matches anything. */
  datatype Where = Where(id: Option<LogId>, owner: Option<UserId>, attr: Option<Attr>)

  /** `Log.restore()` called without options matches every row. */
  const Everything: Where := Where(None, None, None)

  function ById(id: LogId): Where { Where(Some(id), None, None) }
  function ByOwner(u: UserId): Where { Where(None, Some(u), None) }
  function ByOwnerAndId(u: UserId, id: LogId): Where { Where(Some(id), Some(u), None) }
  function ByOwnerAndAttr(u: UserId, a: Attr): Where { Where(None, Some(u), Some(a)) }

  predicate Matches(w: Where, k: LogId, r: Row) {
    && (w.id.Some? ==> k == w.id.value)
    && (w.owner.Some? ==> r.owner == w.owner.value)
    && (w.attr.Some? ==> HasAttr(r, w.attr.value))
  }

  /** A paranoid read (the default) skips soft-deleted rows; `paranoid: false` sees them. */
  predicate Visible(r: Row, paranoid: bool) {
    !paranoid || !r.deleted
  }

  /** `Log.findAll({where, paranoid})`: the matching visible rows. */
  function FindAll(st: Store, w: Where, paranoid: bool): map<LogId, Row> {
    map k | k in st.rows && Matches(w, k, st.rows[k]) && Visible(st.rows[k], paranoid) :: st.rows[k]
  }

  /** `Log.findOne({where, paranoid})` as the handlers use it: only whether a row came back. */
  predicate Found(st: Store, w: Where, paranoid: bool) {
    exists k :: k in st.rows && Matches(w, k, st.rows[k]) && Visible(st.rows[k], paranoid)
  }

  /** A `findAll` comes back empty exactly when a `findOne` with the same options finds nothing. */
  lemma FindAllEmpty(st: Store, w: Where, paranoid: bool)
    ensures |FindAll(st, w, paranoid)| == 0 <==> !Found(st, w, paranoid)
  {
    if Found(st, w, paranoid) {
      var k :| k in st.rows && Matches(w, k, st.rows[k]) && Visible(st.rows[k], paranoid);
      assert k in FindAll(st, w, paranoid);
    }
  }

  /** `Log.destroy({where})`: marks the matching non-deleted rows deleted. */
  function Destroy(st: Store, w: Where): Store {
    st.(rows := map k | k in st.rows ::
      if Matches(w, k, st.rows[k]) && !st.rows[k].deleted then st.rows[k].(deleted := true) else st.rows[k])
  }

  /** `Log.destroy({where, force: true})`: removes the matching rows, deleted or not. */
  function ForceDestroy(st: Store, w: Where): Store {
    st.(rows := map k | k in st.rows && !Matches(w, k, st.rows[k]) :: st.rows[k])
  }

  /** `Log.restore({where})`: clears the deleted flag of every matching row. */
  function Restore(st: Store, w: Where): Store {
    st.(rows := map k | k in st.rows ::
      if Matches(w, k, st.rows[k]) then st.rows[k].(deleted := false) else st.rows[k])
  }

  /** The row `Log.create({...body, UserId})` writes: owned by the caller and active. */
  function NewRow(caller: UserId, body: LogBody): Row {
    Row(caller, body.senderApplication, body.environment, body.level, body.message, false)
  }

  /** `Log.create`: stores the row under the next auto-increment id. */
  function Insert(st: Store, r: Row): (st': Store)
    requires Valid(st)
    ensures Valid(st')
    ensures st.nextId !in st.rows && st'.rows == st.rows[st.nextId := r]
    ensures st'.nextId > st.nextId
  {
    Store(st.rows[st.nextId := r], st.nextId + 1)
  }

  /** What a read handler answers: a status and the rows in the body. */
  datatype Listing = Listing(status: int, logs: map<LogId, Row>)

  /** What a write handler answers: a status and the store afterwards. */
  datatype Write = Write(status: int, store: Store)

  // ---------------------------------------------------------------------------
  // Vocabulary for the handlers' contracts, stated on rows rather than on the
  // store operations above.

  /** The caller owns a row with this id, in any state. */
  predicate Owns(st: Store, caller: UserId, id: LogId) {
    id in st.rows && st.rows[id].owner == caller
  }

  /** The caller owns a non-deleted row with this id. */
  predicate OwnsActive(st: Store, caller: UserId, id: LogId) {
    Owns(st, caller, id) && !st.rows[id].deleted
  }

  /** Rows of every other user are exactly as before: none changed, none removed, none added. */
  ghost predicate OthersUntouched(st: Store, st': Store, caller: UserId) {
    && (forall k :: k in st.rows && st.rows[k].owner != caller ==> k in st'.rows && st'.rows[k] == st.rows[k])
    && (forall k :: k in st'.rows && st'.rows[k].owner != caller ==> k in st.rows && st.rows[k] == st'.rows[k])
  }

  /** The caller's non-deleted rows carrying the attribute: the answer a filtered read must give. */
  ghost predicate Selected(st: Store, caller: UserId, a: Attr, logs: map<LogId, Row>) {
    && (forall k :: k in logs <==> OwnsActive(st, caller, k) && HasAttr(st.rows[k], a))
    && (forall k :: k in logs ==> logs[k] == st.rows[k])
  }

  /** The filtered read both controllers perform, `findAll({where: {UserId, attr}})`:
      204 with nothing when no row qualifies, 200 with the rows otherwise. */
  function ListOwned(caller: UserId, a: Attr, st: Store): (r: Listing)
    ensures Selected(st, caller, a, r.logs)
    ensures r.status == (if |r.logs| == 0 then 204 else 200)
  {
    var logs := FindAll(st, ByOwnerAndAttr(caller, a), true);
    if |logs| == 0 then Listing(204, map[]) else Listing(200, logs)
  }

  // ---------------------------------------------------------------------------
  // The lifecycle of a single log id.

  datatype Phase = Unborn | Active | SoftDeleted | Purged

  function PhaseOf(st: Store, id: LogId): Phase {
    if id in st.rows then (if st.rows[id].deleted then SoftDeleted else Active)
    else if id < st.nextId then Purged
    else Unborn
  }

  /** The transitions a log id may take in one request:
      Unborn -> Active (create), Active <-> SoftDeleted (delete, restore),
      Active or SoftDeleted -> Purged (hard delete), and staying put. Purged is terminal. */
  predicate Step(p: Phase, q: Phase) {
    p == q
    || (p == Unborn && q == Active)
    || (p == Active && q == SoftDeleted)
    || (p == SoftDeleted && q == Active)
    || ((p == Active || p == SoftDeleted) && q == Purged)
  }

  /** Two versions of a row are the same log: only the deleted flag may differ. */
  predicate SameLog(r: Row, r': Row) {
    r.(deleted := false) == r'.(deleted := false)
  }

  /** One request took every id along an allowed step, kept the counter monotone
      and never rewrote the owner or the payload of a surviving row. */
  ghost predicate Lifecycle(st: Store, st': Store) {
    && st.nextId <= st'.nextId
    && (forall id: LogId :: Step(PhaseOf(st, id), PhaseOf(st', id)))
    && (forall k :: k in st.rows && k in st'.rows ==> SameLog(st.rows[k], st'.rows[k]))
  }
}
