# Named-list store

A model of the file-list service in `main.go`: an HTTP server that keeps
named lists of file records (`name`, `hash`) in SQLite, one table per list,
the list identifier (`type` query parameter) used directly as the table name.
Six handlers create a list, list its entries, add an entry, remove entries by
name, drop a list, and move an entry from one list to another. Every
mutating handler runs the same guards in the same order: an empty required
parameter is 400, then a `secret_key` different from the server's is 403,
then the existence of the list (404, or 400 for create when the list is
already there). Only after that does it touch the database.

Stripped of HTTP and SQL, the service is a state machine over a map from
list name to a sequence of records:

- `options.dfy` — `Options.Option`, for a query that may find no row and a
  request body that may not decode.
- `tables.dfy` — one table: `File`, the row-level statements
  (`DELETE ... WHERE name = ?` as `WithoutName`, `QueryRow(SELECT ... WHERE
  name = ?)` as `FirstNamed`) and their properties.
- `handlers.dfy` — one pure function per handler giving the status and the
  database afterwards, each with its guard chain, frame and effect as
  postconditions, and lemmas about sequences of requests (create then list,
  create twice, add then list, remove twice, drop then use, and the move's
  counting properties).
- `server.dfy` — class `Service.Server` with the database (`lists`) and the
  shared secret (`secretKey`) as fields, the SQL statements as methods that
  update `lists`, and the six handlers as methods that run guards and
  statements step by step; each handler is proved to end in exactly the state
  and status the function in `handlers.dfy` gives.

What the move does is the least obvious part. It reads one row with the
name, inserts a copy into the destination, then deletes every row with that
name from the source. So:

- with one such row and two different lists, the record moves and the number
  of records with that name across the two lists is kept (`MoveConserves`);
- with several such rows and two different lists, the source loses all of
  them and the destination gains one (`MoveCounts`);
- with source and destination the same list, the copy is deleted too and no
  record with the name survives (`MoveWithinOneList`);
- with no transaction around insert and delete, a failing delete leaves the
  record in both lists (`MoveFailureDuplicates`).

The code does not validate list identifiers, does not reject an empty `name`
or `hash` on add (`NOT NULL` only forbids null), reports no removal count,
answers an existing list on create with a plain 400, and runs no transaction
around the move; the model follows the code on each of these.

## Model

| member | source | states |
|---|---|---|
| `Tables.WithoutName` | main.go:172 | deleting by name keeps exactly the rows with another name; the length drops by the number of rows with that name; none with that name remains |
| `Tables.FirstNamed` | main.go:234 | the selected row carries the name and no earlier row does; there is none exactly when no row carries the name |
| `Tables.WithoutNameAppend` | main.go:172 | deleting by name distributes over concatenation, so the surviving rows keep their order |
| `Tables.WithoutNameAbsent` | main.go:172 | deleting a name no row carries leaves the table unchanged |
| `Tables.WithoutNameKeepsOthers` | main.go:172 | the number of rows with any other name is unchanged by the delete |
| `Handlers.Precheck` | main.go:154-165 | an empty required parameter gives 400, otherwise a wrong `secret_key` gives 403, otherwise the request passes, each in both directions |
| `Handlers.CreateList` | main.go:54-80 | guards in order; an existing list gives 400 and no change; otherwise 201 and exactly the new key, mapped to an empty list, is added, every other list unchanged |
| `Handlers.GetFiles` | main.go:82-116 | empty `type` gives 400, an absent list 404; otherwise 200 with exactly the stored records; no secret is checked |
| `Handlers.AddFile` | main.go:118-151 | guards in order, then an undecodable body gives 400; every early exit leaves the store unchanged; on 201 exactly the decoded record is appended to that list, whatever its strings, and nothing else changes |
| `Handlers.DeleteFile` | main.go:153-179 | guards in order with both `type` and `name` required; on 200 the list is its old rows with every row of that name deleted and the rest in their old order (`WithoutName`), so exactly its old records with another name, shorter by their count; other lists unchanged |
| `Handlers.DeleteList` | main.go:181-206 | guards in order; on 200 exactly that key is gone and every remaining list is unchanged |
| `Handlers.MoveFile` | main.go:208-253 | guards in order, source existence before destination, no matching record gives 404 without change; on success no record with the name is left in the source; on success between different lists the destination gains one source record with that name and the source keeps exactly its other records in order; lists other than the two never change |
| `Handlers.CreateThenList` | main.go:42-52 | after creating an absent list it exists and lists as empty |
| `Handlers.CreateTwice` | main.go:67-70 | the second create of the same list gives 400 and changes nothing |
| `Handlers.AddThenList` | main.go:143 | after an add, listing returns the old records followed by the new one, whose name now occurs once more |
| `Handlers.DeleteFileIdempotent` | main.go:172 | removing the same name twice leaves the same store as removing it once |
| `Handlers.DeleteFileAbsent` | main.go:172-178 | removing a name the list does not hold still answers 200 and changes nothing |
| `Handlers.DeleteListThenAbsent` | main.go:199 | after a drop, listing and adding answer 404 and a new create starts empty |
| `Handlers.MoveCounts` | main.go:234-246 | a successful move between different lists leaves no record with the name in the source and one more in the destination |
| `Handlers.MoveConserves` | main.go:234-246 | with exactly one such record and different lists, the count across both lists is kept and the destination gains that very record |
| `Handlers.MoveWithinOneList` | main.go:240-246 | a move within one list leaves that list without any record of the name, strictly shorter |
| `Handlers.MoveFailureDuplicates` | main.go:240-249 | if the delete fails after the insert, the answer is 500 and the record is in both lists |
| `Service.Server.constructor` | main.go:256-259 | the server starts from the database on disk and the secret from the environment |
| `Service.Server.TableExists` | main.go:31-40 | true exactly when a table of that name exists |
| `Service.Server.CreateTable` | main.go:42-52 | adds an empty table if none of that name exists, otherwise changes nothing |
| `Service.Server.Insert` | main.go:143 | appends exactly the given record to that table only |
| `Service.Server.DeleteWhereName` | main.go:172 | replaces that table by its rows without the name, others unchanged |
| `Service.Server.DropTable` | main.go:199 | removes the table, whether or not it existed |
| `Service.Server.SelectFirst` | main.go:234-238 | returns none exactly when no row carries the name, else the first such row of the table |
| `Service.Server.CreateListHandler` | main.go:54-80 | status and new database are those of `Handlers.CreateList` on the old one |
| `Service.Server.GetFilesHandler` | main.go:82-116 | the row-by-row loop returns the status and records of `Handlers.GetFiles`, and changes nothing |
| `Service.Server.AddFileHandler` | main.go:118-151 | status and new database are those of `Handlers.AddFile` on the old one |
| `Service.Server.DeleteFileHandler` | main.go:153-179 | status and new database are those of `Handlers.DeleteFile` on the old one |
| `Service.Server.DeleteListHandler` | main.go:181-206 | status and new database are those of `Handlers.DeleteList` on the old one |
| `Service.Server.MoveFileHandler` | main.go:208-253 | select, insert and delete in sequence end in the status and database of `Handlers.MoveFile` on the old one |

## Left out

- HTTP plumbing: query-string parsing (a missing parameter reads as the empty string, which is how the model takes it), error texts, response writing and the route table in `main`. Results are the `Status` values, one per HTTP status code the handlers send.
- JSON: the encoding of a listing is not modelled (Go encodes the empty result of an empty list as `null`); decoding of the add body is an `Option<File>` argument whose `None` stands for a body the decoder rejects.
- SQL text and SQLite identifier rules: a list identifier is an exact map key. The code interpolates it unvalidated into statement text, so injection, quoting, reserved words and SQLite's case-insensitive table names (against the case-sensitive `sqlite_master` lookup of `tableExists`) are outside the model; no validator is modelled because the code has none.
- Store failures: the 500 answers of the `Exec`, `Query` and `Scan` calls and `tableExists` answering false on a query error are not modelled; the one exception is the move's failing delete (`deleteFails`), which shows the duplicate window.
- Service.Server.Insert: requires the table to exist; inserting into a missing table is a store error, reachable only when another request drops the list between check and insert.
- Service.Server.DeleteWhereName: requires the table to exist, for the same reason.
- Service.Server.SelectFirst: requires the table to exist, for the same reason.
- Handlers.MoveFile: promises only that some source record with the name is moved; the body takes the first in id order, which is what SQLite's `QueryRow` without `ORDER BY` usually returns but does not guarantee.
- Tables that are not lists: the database is modelled as holding only the lists' tables. SQLite's own `sqlite_sequence` table, created with the first `AUTOINCREMENT` table, is reported by `tableExists` like any other, so in the code creating a list of that name answers 400 and listing or adding under it fails in the store (500), where the model answers 201 and 404.
- Row order: a table is a sequence in insertion (id) order; the `id` column itself is not represented.
- Concurrency: the check-then-act races between requests sharing the one database handle; requests run one at a time here.
- Environment and logging: `PORT`, reading `SECRET_KEY` (the secret is a constructor argument; an unset variable gives the empty secret, which a request without `secret_key` then matches), `initDB` and `log` output.
