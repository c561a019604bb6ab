/** The task store as the handlers use it: one database whose `tasks` table
    every handler changes in place, each statement committed on success and
    rolled back on failure. */
module Store {
  import opened Tasks

  class Database {
    var hasTable: bool
    var rows: map<int, Task>
    var lastId: int       // the table's entry in sqlite_sequence
    ghost var clock: int  // the latest clock reading any statement has used

    /** The database as a value, for the statement functions of `Tasks`. */
    function State(): Db
      reads this
    {
      Db(hasTable, rows, lastId)
    }

    ghost predicate Valid()
      reads this
    {
      Consistent(State()) && NotAfter(State(), clock)
    }

    /** A database file in which `tasks` has not been created yet. */
    constructor (start: int)
      ensures Valid()
      ensures State() == Db(false, map[], 0) && clock == start
    {
      hasTable, rows, lastId := false, map[], 0;
      clock := start;
    }

    /** init_db: CREATE TABLE IF NOT EXISTS. */
    method Init()
      requires Valid()
      modifies this
      ensures Valid() && clock == old(clock)
      ensures State() == InitDb(old(State()))
    {
      if !hasTable {
        hasTable := true;
      }
    }

    /** get_tasks: SELECT * FROM tasks ORDER BY created_at DESC. Repeatedly
        takes a newest remaining row, as the engine's sort yields them. */
    method List() returns (r: Outcome<seq<Task>>)
      requires Valid()
      ensures r.Ok? <==> hasTable
      ensures !hasTable ==> r == Error(NoSuchTable)
      ensures r.Ok? ==> IsListing(rows, r.value) && |r.value| == |rows|
    {
      if !hasTable {
        return Error(NoSuchTable);
      }
      var out: seq<Task> := [];
      var left := rows.Keys;
      while left != {}
        invariant PartialListing(rows, out, left)
        decreases left
      {
        NewestExists(rows, left);
        var k :| k in left && forall id | id in left :: rows[id].createdAt <= rows[k].createdAt;
        TakeNewest(rows, out, left, k);
        out := out + [rows[k]];
        left := left - {k};
      }
      ListingLength(rows, out);
      return Ok(out);
    }

    /** create_task: the INSERT with status forced to the initial stage, then
        the new row read back by its id. */
    method Create(body: Body, now: int) returns (r: Outcome<Task>)
      requires Valid() && clock <= now
      modifies this
      ensures Valid() && clock == now
      ensures State() == CreateTask(old(State()), body, now).db
      ensures r == CreateTask(old(State()), body, now).outcome
    {
      clock := now;
      assert InsertKeys == ["responsavel", "cliente", "descricao", "data_entrega"];
      // The parameter tuple: each subscript raises KeyError for an absent key.
      if "responsavel" !in body { return Error(KeyError("responsavel")); }
      if "cliente" !in body {
        assert InsertKeys[0] in body && InsertKeys[1] !in body;
        return Error(KeyError("cliente"));
      }
      if "descricao" !in body {
        assert InsertKeys[1] in body && InsertKeys[2] !in body;
        return Error(KeyError("descricao"));
      }
      if "data_entrega" !in body {
        assert InsertKeys[2] in body && InsertKeys[3] !in body;
        return Error(KeyError("data_entrega"));
      }
      var responsavel, cliente, descricao, dataEntrega :=
        body["responsavel"], body["cliente"], body["descricao"], body["data_entrega"];
      // The INSERT: it needs the table, a free id, and no NULL in a NOT NULL column.
      if !hasTable { return Error(NoSuchTable); }
      if lastId >= MaxRowId { return Error(DatabaseFull); }
      if responsavel.None? { return Error(NotNullViolation("responsavel")); }
      if cliente.None? {
        assert body[InsertKeys[0]].Some? && body[InsertKeys[1]].None?;
        return Error(NotNullViolation("cliente"));
      }
      if descricao.None? {
        assert body[InsertKeys[1]].Some? && body[InsertKeys[2]].None?;
        return Error(NotNullViolation("descricao"));
      }
      if dataEntrega.None? {
        assert body[InsertKeys[2]].Some? && body[InsertKeys[3]].None?;
        return Error(NotNullViolation("data_entrega"));
      }
      var id := lastId + 1;
      rows := rows[id := Task(id, responsavel.value, cliente.value, descricao.value,
                              dataEntrega.value, InitialStatus, now, now)];
      lastId := id;
      // SELECT * FROM tasks WHERE id = lastrowid
      r := Ok(rows[id]);
    }

    /** update_task: UPDATE tasks SET status, updated_at WHERE id, then the row
        read back; a statement that matched no row reports NotFound. */
    method UpdateStatus(id: nat, body: Body, now: int) returns (r: Outcome<Task>)
      requires Valid() && clock <= now
      modifies this
      ensures Valid() && clock == now
      ensures State() == Tasks.UpdateStatus(old(State()), id, body, now).db
      ensures r == Tasks.UpdateStatus(old(State()), id, body, now).outcome
    {
      clock := now;
      if "status" !in body { return Error(KeyError("status")); }
      var status := body["status"];
      if !hasTable { return Error(NoSuchTable); }
      // Binding the id: sqlite3 refuses an int beyond 64 bits.
      if id > MaxRowId { return Error(IdOutOfRange); }
      var rowcount := if id in rows then 1 else 0;
      if rowcount == 1 {
        if status.None? { return Error(NotNullViolation("status")); }
        rows := rows[id := rows[id].(status := status.value, updatedAt := now)];
      }
      if rowcount == 0 { return NotFound; }
      r := Ok(rows[id]);
    }

    /** delete_task: DELETE FROM tasks WHERE id; a statement that matched no
        row reports NotFound. */
    method Delete(id: nat) returns (r: Outcome<Confirmation>)
      requires Valid()
      modifies this
      ensures Valid() && clock == old(clock)
      ensures State() == DeleteTask(old(State()), id).db
      ensures r == DeleteTask(old(State()), id).outcome
    {
      if !hasTable { return Error(NoSuchTable); }
      if id > MaxRowId { return Error(IdOutOfRange); }
      var rowcount := if id in rows then 1 else 0;
      rows := rows - {id};
      if rowcount == 0 { return NotFound; }
      return Ok(Deleted);
    }
  }

  /** `out` lists, newest first, exactly the rows whose ids are not in `left`,
      and none of them is older than a row still in `left`. */
  ghost predicate PartialListing(rows: map<int, Task>, out: seq<Task>, left: set<int>) {
    && left <= rows.Keys
    && (forall i | 0 <= i < |out| :: out[i].id in rows && out[i].id !in left && rows[out[i].id] == out[i])
    && (forall id | id in rows && id !in left :: rows[id] in out)
    && (forall i, j | 0 <= i < j < |out| :: out[i].id != out[j].id)
    && (forall i, j | 0 <= i < j < |out| :: out[i].createdAt >= out[j].createdAt)
    && (forall i, id | 0 <= i < |out| && id in left :: rows[id].createdAt <= out[i].createdAt)
  }

  /** Moving a newest remaining row to the end of the listing keeps it a
      partial listing. */
  lemma TakeNewest(rows: map<int, Task>, out: seq<Task>, left: set<int>, k: int)
    requires forall id | id in rows :: rows[id].id == id
    requires PartialListing(rows, out, left) && k in left
    requires forall id | id in left :: rows[id].createdAt <= rows[k].createdAt
    ensures PartialListing(rows, out + [rows[k]], left - {k})
  {
  }

  /** A non-empty set of ids has a row created no earlier than any other. */
  lemma {:induction false} NewestExists(rows: map<int, Task>, left: set<int>)
    requires left != {} && left <= rows.Keys
    ensures exists k | k in left :: forall id | id in left :: rows[id].createdAt <= rows[k].createdAt
  {
    EmptyOrMember(left);
    var x :| x in left;
    if left != {x} {
      NewestExists(rows, left - {x});
      var k :| k in left - {x} && forall id | id in left - {x} :: rows[id].createdAt <= rows[k].createdAt;
      if rows[x].createdAt <= rows[k].createdAt {
        assert forall id | id in left :: rows[id].createdAt <= rows[k].createdAt;
      } else {
        assert forall id | id in left :: rows[id].createdAt <= rows[x].createdAt;
      }
    } else {
      assert forall id | id in left :: rows[id].createdAt <= rows[x].createdAt;
    }
  }

  /** A set is empty or has a member. */
  lemma EmptyOrMember(s: set<int>)
    ensures s == {} || exists k :: k in s
  {
    if forall k :: k !in s {
      assert s == {};
    }
  }
}
