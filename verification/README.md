# Kabbam task table, modelled in Dafny

Kabbam is a small Kanban backend. It keeps tasks in one SQLite table,
`tasks`, and exposes four JSON handlers: list, create, update status and
delete. This project models that table and the effect of each handler's SQL
statement. It proves what each handler does to the table, what it returns, and
which invariants hold across any run of requests.

- `tasks.dfy` (module `Tasks`) holds the data model. A `Task` is one row. A
  `Db` is the database file: whether the table exists, its rows by id, and
  the table's `sqlite_sequence` entry (the largest id ever assigned). There is
  one function per statement (`InitDb`, `CreateTask`, `UpdateStatus`,
  `DeleteTask`) and the `IsListing` predicate for the ordered SELECT.
  Outcomes are `Ok(value) | NotFound | Error(fault)`. A fault is a `KeyError`
  for a missing request key, a `NotNullViolation` for a JSON null, a missing
  table, an exhausted id range, or a route id too large to bind.
- `store.dfy` (module `Store`) holds the class `Database`, whose fields the
  handlers change in place. It has one method per handler. Each mutating
  method's `ensures` ties the new state and the result to the `Tasks`
  function. `List` builds the newest-first listing in a loop.
- `rows.dfy` (module `Rows`) holds `dict_factory`: the loop as a method, the
  dictionary it builds as a function, and the round trip from a stored task
  to its JSON object and back.
- `traces.dfy` (module `Traces`) runs sequences of requests. It proves that
  ids are never reused and that the table invariants survive every run.

A request body is a `map<string, Option<string>>`. An absent key and a JSON
null are therefore different inputs. Timestamps are readings of an abstract
clock (`int`). Route ids are `nat`, because Flask's `<int:...>` converter only
matches non-negative integers. The converter has no upper limit, but sqlite3
cannot bind an integer above 2^63-1: such an id makes update and delete fail
with `IdOutOfRange` (the 500 path), not report NotFound.

The model follows the code in these places:

- List does not break ties between equal `created_at` values. Only
  `ORDER BY created_at DESC` is applied, so `IsListing` leaves that order open.
- Create does not reject empty strings, so neither does the model.
- An update sets `updated_at` to the current clock reading. That reading is
  not earlier than any stored timestamp, but it is not necessarily later,
  because CURRENT_TIMESTAMP has one-second granularity.
- An update with a null `status` for an id that has no row reports
  NotFound, not an error. The UPDATE matches no row, so the NOT NULL check
  never runs. A missing `status` key is always an error, because the key is
  read before the statement runs.
- Create fails in the order the code runs. First the parameter tuple is
  built, and the first missing key (in column order) raises `KeyError`. Then
  the INSERT fails if the table is missing, then if the rowid range is used
  up, then on the first null column.

## Model

| member | source | states |
|---|---|---|
| `Tasks.FirstAbsent` | app.py:81-85 | index of the first of the parameter keys the body lacks; every key before it is present |
| `Tasks.FirstNull` | app.py:23-26 | index of the first NOT NULL column that receives a JSON null; every column before it is non-null |
| `Tasks.InitDb` | app.py:16-33 | afterwards the table exists; an existing table is left exactly as it was; invariants are kept |
| `Tasks.CreateTask` | app.py:70-101 | succeeds iff the table exists, an id is free and all four keys are present and non-null; the new id is one above the largest ever assigned, so it is absent and greater than every stored id; it adds exactly one row, holding the four values as given (see "Left out" for `data_entrega`), status `servicos` and created_at = updated_at = now; other rows are unchanged; the returned task is the stored row; on failure the database is unchanged, and the failure is, in this order, KeyError of the first missing key, the missing table, the exhausted id range, or the first null column; invariants are kept |
| `Tasks.UpdateStatus` | app.py:103-131 | a missing `status` key is KeyError, then a missing table, then an id above 2^63-1 is IdOutOfRange; an unknown id within range is NotFound, even with a null status; a null status for a stored row is a NOT NULL error; on success only that row changes, and only its status (to the given value, unchecked) and updated_at (to now); the returned task is the updated row; on any other outcome the database is unchanged; invariants are kept |
| `Tasks.DeleteTask` | app.py:133-151 | succeeds iff the table exists and holds the id; a missing table is NoSuchTable, an id above 2^63-1 is IdOutOfRange, any other unknown id NotFound; it removes exactly that row and keeps every other row and the id sequence; NotFound and errors leave the database unchanged |
| `Tasks.InitIdempotent` | app.py:20-21 | running the schema setup twice equals running it once |
| `Tasks.DeleteTwice` | app.py:140-144 | a second delete of a deleted id reports NotFound and changes nothing |
| `Tasks.ListingLength` | app.py:61-62 | a listing of the table has exactly one entry per row |
| `Store.Database.constructor` | app.py:13-14 | a database file before the table is created: no table, no rows, no id assigned |
| `Store.Database.Init` | app.py:16-33 | the new state is `InitDb` of the old one |
| `Store.Database.List` | app.py:53-68 | without the table, the error; otherwise every stored row exactly once, in non-increasing created_at order, with as many entries as rows; the table is not modified |
| `Store.Database.Create` | app.py:70-101 | the new state and the result are those of `CreateTask`; the store invariant holds afterwards |
| `Store.Database.UpdateStatus` | app.py:103-131 | the new state and the result are those of `Tasks.UpdateStatus`; the store invariant holds afterwards |
| `Store.Database.Delete` | app.py:133-151 | the new state and the result are those of `DeleteTask`; the store invariant holds afterwards |
| `Store.NewestExists` | app.py:61 | among any non-empty set of rows there is one created no earlier than all the others, which the descending sort puts first |
| `Rows.RowValues` | app.py:20-31 | a stored task as a `SELECT *` row has one value per column of the table |
| `Rows.LastIndex` | app.py:44-45 | the last position at which a column name occurs in the description |
| `Rows.RowDict` | app.py:41-46 | the dictionary's keys are exactly the column names of the description |
| `Rows.RowDictAt` | app.py:44-45 | a name that does not recur later maps to the value at its own position |
| `Rows.RowDictAppend` | app.py:44-45 | one more loop step adds that column's entry and overwrites an earlier entry of the same name |
| `Rows.DictFactory` | app.py:41-46 | the loop builds exactly `RowDict` of the description and the row |
| `Rows.RowDictReadBack` | app.py:41-46 | when no column name repeats, reading the dictionary back in column order gives the row |
| `Rows.RowDictRoundTrip` | app.py:93-96 | the dictionary built from a stored task's row decodes back to that task, so every stored field reaches the response unchanged |
| `Rows.ColumnsDistinct` | app.py:20-31 | the table's column names are pairwise distinct |
| `Traces.IdsNeverReused` | app.py:22 | the ids a run creates are strictly increasing and above every id assigned before the run, so above every id stored at its start |
| `Traces.DeletedStaysGone` | app.py:22 | an id at or below the largest assigned that is not in the table never reappears in it, whatever requests follow |
| `Traces.RunKeepsConsistent` | app.py:21-29 | given a clock that never goes back, every run keeps ids unique, positive and at most the largest assigned, and keeps created_at <= updated_at in every row |

## Left out

- Flask routing, `request.json` parsing, `jsonify`, the root page and the
  404/500 handlers: these are framework plumbing. Outcomes are a datatype,
  not HTTP status codes.
- Request bodies that are not JSON objects, and JSON values that are not
  strings or null (numbers, lists, objects): the body is modelled as a map
  from key to optional string.
- Storage faults (I/O errors, a locked or corrupt file) and the connection
  handling (`get_db`, `close`, `row_factory`, `lastrowid`): every statement
  is all or nothing on the abstract table, and a failure leaves it unchanged.
- The handlers' `except` blocks call `conn.rollback()` even when the failure
  happened before `conn` was assigned. This depends on Flask and driver
  failures that the model does not represent.
- The string form of CURRENT_TIMESTAMP: timestamps are abstract clock
  readings, and `ORDER BY created_at` compares them as numbers.
- `load_dotenv`, the port choice, `app.run` and the module-level `init_db()`
  call: process start-up.
- `static/js/script.js`: browser UI with no rule of its own. `Rows.TaskOf`
  only plays the part of a client that reads a task object back.
- Concurrent requests: each request is one atomic step of a sequential run.
- `Rows.DictFactory` works on a description given as a sequence of names.
  The sqlite3 cursor's 7-tuples are not modelled.
- Store.Database.Create: requires a clock reading no earlier than the last
  one used (the ghost `clock`), because the database's clock is assumed never
  to go back. The code has no such check.
- Store.Database.UpdateStatus: requires a clock reading no earlier than the
  last one used, for the same reason.
- Tasks.CreateTask: stores `data_entrega` as the text it was given. The
  column is declared DATETIME, which gives it NUMERIC affinity in SQLite, so
  text that is a well-formed number ("2024", "007", "1e3") is stored, and
  returned, as a number. The model's values are strings only, so "as given"
  holds only for text that is not a well-formed number, such as the
  date-and-time strings the browser client sends.
- Store.Database.Create: inherits the same gap for `data_entrega`, because
  its contract is that of `Tasks.CreateTask`.
- Tasks.CreateTask: the new id is one above the `sqlite_sequence` entry.
  SQLite takes the maximum of that entry and the largest stored rowid. The
  two agree under the table invariant, which every operation keeps.
