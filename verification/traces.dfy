/** Runs of requests against the task table, one statement per request, and
    what holds across a whole run. */
module Traces {
  import opened Tasks

  /** One request to the JSON API, with the clock reading of the statements
      that store one. */
  datatype Request =
    | Setup                            // init_db at start-up
    | Get                              // GET /api/tasks
    | Post(body: Body, now: int)       // POST /api/tasks
    | Put(id: nat, body: Body, now: int) // PUT /api/tasks/<id>
    | Delete(id: nat)                  // DELETE /api/tasks/<id>

  /** The database after one request. */
  function After(db: Db, req: Request): Db {
    match req
    case Setup => InitDb(db)
    case Get => db
    case Post(body, now) => CreateTask(db, body, now).db
    case Put(id, body, now) => UpdateStatus(db, id, body, now).db
    case Delete(id) => DeleteTask(db, id).db
  }

  /** The database after a run of requests, applied in order. */
  function Run(db: Db, reqs: seq<Request>): Db
    decreases |reqs|
  {
    if reqs == [] then db else Run(After(db, reqs[0]), reqs[1..])
  }

  /** The ids of the tasks the successful POSTs of a run create, in order. */
  function CreatedIds(db: Db, reqs: seq<Request>): seq<int>
    decreases |reqs|
  {
    if reqs == [] then []
    else
      var rest := CreatedIds(After(db, reqs[0]), reqs[1..]);
      match reqs[0]
      case Post(body, now) =>
        var step := CreateTask(db, body, now);
        if step.outcome.Ok? then [step.outcome.value.id] + rest else rest
      case _ => rest
  }

  /** The clock readings of a run, starting no earlier than `start`, never go
      back. */
  predicate ClockFrom(start: int, reqs: seq<Request>)
    decreases |reqs|
  {
    reqs == [] ||
    var next := match reqs[0]
      case Post(_, now) => now
      case Put(_, _, now) => now
      case _ => start;
    start <= next && ClockFrom(next, reqs[1..])
  }

  /** AUTOINCREMENT: the ids a run hands out are strictly increasing and above
      every id assigned before the run, so no id is ever handed out twice, not
      even after the task holding it was deleted. */
  lemma {:induction false} IdsNeverReused(db: Db, reqs: seq<Request>)
    ensures db.lastId <= Run(db, reqs).lastId
    ensures forall i | 0 <= i < |CreatedIds(db, reqs)| ::
              db.lastId < CreatedIds(db, reqs)[i] <= Run(db, reqs).lastId
    ensures forall i, j | 0 <= i < j < |CreatedIds(db, reqs)| ::
              CreatedIds(db, reqs)[i] < CreatedIds(db, reqs)[j]
    ensures Consistent(db) ==>
              forall i, id | 0 <= i < |CreatedIds(db, reqs)| && id in db.rows :: id < CreatedIds(db, reqs)[i]
    decreases |reqs|
  {
    if reqs != [] {
      var next := After(db, reqs[0]);
      assert db.lastId <= next.lastId;
      IdsNeverReused(next, reqs[1..]);
      assert Run(db, reqs) == Run(next, reqs[1..]);
      if reqs[0].Post? && CreateTask(db, reqs[0].body, reqs[0].now).outcome.Ok? {
        var t := CreateTask(db, reqs[0].body, reqs[0].now).outcome.value;
        assert CreatedIds(db, reqs) == [t.id] + CreatedIds(next, reqs[1..]);
        assert t.id == next.lastId;
      } else {
        assert CreatedIds(db, reqs) == CreatedIds(next, reqs[1..]);
      }
    }
  }

  /** A deleted id never comes back: no request of any run stores a task
      under an id at or below the largest one already assigned. */
  lemma {:induction false} DeletedStaysGone(db: Db, id: int, reqs: seq<Request>)
    requires id !in db.rows && id <= db.lastId
    ensures id !in Run(db, reqs).rows
    decreases |reqs|
  {
    if reqs != [] {
      IdsNeverReused(db, reqs[..1]);
      DeletedStaysGone(After(db, reqs[0]), id, reqs[1..]);
    }
  }

  /** Given a clock that never goes back, every run keeps the table's
      invariants: unique positive ids, none above the largest ever assigned,
      and created_at <= updated_at in every row. */
  lemma {:induction false} RunKeepsConsistent(db: Db, start: int, reqs: seq<Request>)
    requires Consistent(db) && NotAfter(db, start) && ClockFrom(start, reqs)
    ensures Consistent(Run(db, reqs))
    decreases |reqs|
  {
    if reqs != [] {
      var next := match reqs[0]
        case Post(_, now) => now
        case Put(_, _, now) => now
        case _ => start;
      assert NotAfter(db, next);
      assert Consistent(After(db, reqs[0])) && NotAfter(After(db, reqs[0]), next);
      RunKeepsConsistent(After(db, reqs[0]), next, reqs[1..]);
    }
  }
}
