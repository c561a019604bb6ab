/** The `tasks` table of the Kanban backend: its rows, the database file that
    holds it, and the effect of each SQL statement the JSON handlers run
    against it, one function per handler. Timestamps are readings of an
    abstract, non-decreasing clock. */
module Tasks {

  /** The status every new task is stored with, whatever the request says. */
  const InitialStatus: string := "servicos"

  /** The largest rowid SQLite hands out; once an AUTOINCREMENT table has used
      it, every further INSERT fails with SQLITE_FULL. */
  const MaxRowId: int := 0x7FFF_FFFF_FFFF_FFFF

  /** The NOT NULL columns the INSERT fills from the request, in the order the
      parameter tuple names them. */
  const InsertKeys: seq<string> := ["responsavel", "cliente", "descricao", "data_entrega"]

  datatype Option<T> = None | Some(value: T)

  /** One row of `tasks`. */
  datatype Task = Task(
    id: int,
    responsavel: string,
    cliente: string,
    descricao: string,
    dataEntrega: string,
    status: string,
    createdAt: int,
    updatedAt: int)

  /** A decoded JSON request body: a key is absent, maps to null (None), or
      maps to a string. */
  type Body = map<string, Option<string>>

  /** Why a handler fails (the 500 path). */
  datatype Fault =
    | KeyError(key: string)            // the handler subscripts a key the body lacks
    | NotNullViolation(column: string) // a JSON null reaches a NOT NULL column
    | NoSuchTable                      // a statement runs before the table exists
    | DatabaseFull                     // AUTOINCREMENT has used up the rowid range
    | IdOutOfRange                     // a route id too large to bind as a 64-bit INTEGER

  datatype Outcome<T> = Ok(value: T) | NotFound | Error(fault: Fault)

  /** The body-less confirmation a successful DELETE reports. */
  datatype Confirmation = Deleted

  /** The database file: whether `tasks` exists, its rows by id, and the
      table's entry in sqlite_sequence (the largest id ever assigned). */
  datatype Db = Db(hasTable: bool, rows: map<int, Task>, lastId: int)

  /** A statement's outcome together with the database it leaves behind. */
  datatype Step<T> = Step(db: Db, outcome: Outcome<T>)

  /** The table's invariants: ids are the primary key, positive and never above
      the largest id ever assigned; every row was updated no earlier than it was
      created; a database without the table has never assigned an id. */
  predicate Consistent(db: Db) {
    && 0 <= db.lastId <= MaxRowId
    && (!db.hasTable ==> db.rows == map[] && db.lastId == 0)
    && forall id | id in db.rows ::
         && db.rows[id].id == id
         && 1 <= id <= db.lastId
         && db.rows[id].createdAt <= db.rows[id].updatedAt
  }

  /** No timestamp stored in the table is later than `now`. */
  predicate NotAfter(db: Db, now: int) {
    forall id | id in db.rows :: db.rows[id].updatedAt <= now
  }

  /** The index of the first key of `keys` that `body` lacks, or |keys|. */
  function FirstAbsent(body: Body, keys: seq<string>): (i: nat)
    ensures i <= |keys|
    ensures forall j | 0 <= j < i :: keys[j] in body
    ensures i < |keys| ==> keys[i] !in body
    ensures i == |keys| ==> forall k | k in keys :: k in body
  {
    if keys == [] then 0
    else if keys[0] !in body then 0
    else 1 + FirstAbsent(body, keys[1..])
  }

  /** The index of the first key of `keys` that `body` maps to null, or |keys|. */
  function FirstNull(body: Body, keys: seq<string>): (i: nat)
    requires forall k | k in keys :: k in body
    ensures i <= |keys|
    ensures forall j | 0 <= j < i :: body[keys[j]].Some?
    ensures i < |keys| ==> body[keys[i]].None?
    ensures i == |keys| ==> forall k | k in keys :: body[k].Some?
  {
    if keys == [] then 0
    else if body[keys[0]].None? then 0
    else 1 + FirstNull(body, keys[1..])
  }

  /** CREATE TABLE IF NOT EXISTS: afterwards the table exists, and a table that
      already existed is left exactly as it was. */
  function InitDb(db: Db): (r: Db)
    ensures r.hasTable
    ensures db.hasTable ==> r == db
    ensures r.rows == db.rows && r.lastId == db.lastId
    ensures Consistent(db) ==> Consistent(r)
  {
    Db(true, db.rows, db.lastId)
  }

  /** The INSERT of a new task followed by reading it back by its id. The four
      request values are looked up while the parameter tuple is built, so a
      missing key fails before the statement runs; the statement itself fails
      without a table, once the id range is used up, or on the first null. */
  function CreateTask(db: Db, body: Body, now: int): (r: Step<Task>)
    ensures r.outcome.Ok? <==>
              && db.hasTable && db.lastId < MaxRowId
              && forall k | k in InsertKeys :: k in body && body[k].Some?
    ensures !r.outcome.Ok? ==> r.outcome.Error? && r.db == db
    ensures FirstAbsent(body, InsertKeys) < |InsertKeys| ==>
              r.outcome == Error(KeyError(InsertKeys[FirstAbsent(body, InsertKeys)]))
    ensures FirstAbsent(body, InsertKeys) == |InsertKeys| && !db.hasTable ==>
              r.outcome == Error(NoSuchTable)
    ensures FirstAbsent(body, InsertKeys) == |InsertKeys| && db.hasTable && db.lastId >= MaxRowId ==>
              r.outcome == Error(DatabaseFull)
    ensures && FirstAbsent(body, InsertKeys) == |InsertKeys| && db.hasTable && db.lastId < MaxRowId
            && FirstNull(body, InsertKeys) < |InsertKeys| ==>
              r.outcome == Error(NotNullViolation(InsertKeys[FirstNull(body, InsertKeys)]))
    ensures r.outcome.Ok? ==>
              var t := r.outcome.value;
              && t.id == db.lastId + 1
              && r.db == Db(true, db.rows[t.id := t], t.id)
              && t.responsavel == body["responsavel"].value
              && t.cliente == body["cliente"].value
              && t.descricao == body["descricao"].value
              && t.dataEntrega == body["data_entrega"].value
              && t.status == InitialStatus
              && t.createdAt == now && t.updatedAt == now
    ensures Consistent(db) && r.outcome.Ok? ==>
              r.outcome.value.id !in db.rows &&
              forall id | id in db.rows :: id < r.outcome.value.id
    ensures Consistent(db) && NotAfter(db, now) ==> Consistent(r.db) && NotAfter(r.db, now)
  {
    var missing := FirstAbsent(body, InsertKeys);
    if missing < |InsertKeys| then Step(db, Error(KeyError(InsertKeys[missing])))
    else if !db.hasTable then Step(db, Error(NoSuchTable))
    else if db.lastId >= MaxRowId then Step(db, Error(DatabaseFull))
    else
      assert InsertKeys == ["responsavel", "cliente", "descricao", "data_entrega"];
      var nullAt := FirstNull(body, InsertKeys);
      if nullAt < |InsertKeys| then Step(db, Error(NotNullViolation(InsertKeys[nullAt])))
      else
        var t := Task(db.lastId + 1, body["responsavel"].value, body["cliente"].value,
                      body["descricao"].value, body["data_entrega"].value,
                      InitialStatus, now, now);
        Step(Db(true, db.rows[t.id := t], t.id), Ok(t))
  }

  /** UPDATE ... SET status, updated_at WHERE id, then reading the row back.
      The key is looked up before the statement runs; the statement is
      prepared (it needs the table) before the id is bound (it must fit a
      64-bit INTEGER); an id that matches no row reports NotFound even when
      the new status is null, because the NOT NULL check only runs on a
      matched row. */
  function UpdateStatus(db: Db, id: nat, body: Body, now: int): (r: Step<Task>)
    ensures r.outcome.Ok? <==>
              "status" in body && body["status"].Some? && db.hasTable && id <= MaxRowId && id in db.rows
    ensures r.outcome.NotFound? <==>
              "status" in body && db.hasTable && id <= MaxRowId && id !in db.rows
    ensures "status" !in body ==> r.outcome == Error(KeyError("status"))
    ensures "status" in body && !db.hasTable ==> r.outcome == Error(NoSuchTable)
    ensures "status" in body && db.hasTable && id > MaxRowId ==> r.outcome == Error(IdOutOfRange)
    ensures "status" in body && db.hasTable && id <= MaxRowId && id in db.rows && body["status"].None? ==>
              r.outcome == Error(NotNullViolation("status"))
    ensures !r.outcome.Ok? ==> r.db == db
    ensures r.outcome.Ok? ==>
              var t, old_t := r.outcome.value, db.rows[id];
              && r.db == Db(db.hasTable, db.rows[id := t], db.lastId)
              && t.id == old_t.id
              && t.responsavel == old_t.responsavel
              && t.cliente == old_t.cliente
              && t.descricao == old_t.descricao
              && t.dataEntrega == old_t.dataEntrega
              && t.createdAt == old_t.createdAt
              && t.status == body["status"].value
              && t.updatedAt == now
    ensures Consistent(db) && NotAfter(db, now) ==> Consistent(r.db) && NotAfter(r.db, now)
  {
    if "status" !in body then Step(db, Error(KeyError("status")))
    else if !db.hasTable then Step(db, Error(NoSuchTable))
    else if id > MaxRowId then Step(db, Error(IdOutOfRange))
    else if id !in db.rows then Step(db, NotFound)
    else if body["status"].None? then Step(db, Error(NotNullViolation("status")))
    else
      var t := db.rows[id].(status := body["status"].value, updatedAt := now);
      Step(db.(rows := db.rows[id := t]), Ok(t))
  }

  /** DELETE ... WHERE id: removes the row with that id and nothing else; the
      largest id ever assigned is kept, so the id is never handed out again.
      The statement needs the table, and the id must fit a 64-bit INTEGER. */
  function DeleteTask(db: Db, id: nat): (r: Step<Confirmation>)
    ensures r.outcome.Ok? <==> db.hasTable && id <= MaxRowId && id in db.rows
    ensures r.outcome.NotFound? <==> db.hasTable && id <= MaxRowId && id !in db.rows
    ensures !db.hasTable ==> r.outcome == Error(NoSuchTable)
    ensures db.hasTable && id > MaxRowId ==> r.outcome == Error(IdOutOfRange)
    ensures !r.outcome.Ok? ==> r.db == db
    ensures r.outcome.Ok? ==>
              && r.db.hasTable && r.db.lastId == db.lastId
              && r.db.rows.Keys == db.rows.Keys - {id}
              && forall k | k in r.db.rows :: r.db.rows[k] == db.rows[k]
    ensures Consistent(db) ==> Consistent(r.db)
    ensures forall now :: NotAfter(db, now) ==> NotAfter(r.db, now)
  {
    if !db.hasTable then Step(db, Error(NoSuchTable))
    else if id > MaxRowId then Step(db, Error(IdOutOfRange))
    else if id !in db.rows then Step(db, NotFound)
    else Step(db.(rows := db.rows - {id}), Ok(Deleted))
  }

  /** What SELECT * ... ORDER BY created_at DESC may return: every stored row
      exactly once, newest first. Rows created at the same instant may come in
      any order. */
  predicate IsListing(rows: map<int, Task>, s: seq<Task>) {
    && (forall i | 0 <= i < |s| :: s[i].id in rows && rows[s[i].id] == s[i])
    && (forall id | id in rows :: rows[id] in s)
    && (forall i, j | 0 <= i < j < |s| :: s[i].id != s[j].id)
    && (forall i, j | 0 <= i < j < |s| :: s[i].createdAt >= s[j].createdAt)
  }

  /** Running the schema setup twice is the same as running it once. */
  lemma InitIdempotent(db: Db)
    ensures InitDb(InitDb(db)) == InitDb(db)
  {
  }

  /** A delete that succeeded cannot succeed again: the second one reports
      NotFound and leaves the database as it is. */
  lemma DeleteTwice(db: Db, id: nat)
    requires DeleteTask(db, id).outcome.Ok?
    ensures DeleteTask(DeleteTask(db, id).db, id) == Step(DeleteTask(db, id).db, NotFound)
  {
  }

  /** A listing has one entry per stored row. */
  lemma {:induction false} ListingLength(rows: map<int, Task>, s: seq<Task>)
    requires forall id | id in rows :: rows[id].id == id
    requires IsListing(rows, s)
    ensures |s| == |rows|
  {
    var ids := set i | 0 <= i < |s| :: s[i].id;
    assert ids == rows.Keys by {
      forall id | id in rows ensures id in ids {
        var i :| 0 <= i < |s| && s[i] == rows[id];
        assert s[i].id == id;
      }
    }
    DistinctIdsCount(s);
  }

  /** Tasks with pairwise distinct ids have as many ids as entries. */
  lemma {:induction false} DistinctIdsCount(s: seq<Task>)
    requires forall i, j | 0 <= i < j < |s| :: s[i].id != s[j].id
    ensures |set i | 0 <= i < |s| :: s[i].id| == |s|
  {
    if s != [] {
      var n := |s| - 1;
      DistinctIdsCount(s[..n]);
      var front := set i | 0 <= i < n :: s[..n][i].id;
      assert (set i | 0 <= i < |s| :: s[i].id) == front + {s[n].id};
      assert s[n].id !in front;
    }
  }
}
