/** The server: the shared database handle and the shared secret, and the six
    HTTP handlers, each running its guards and then its SQL statements one
    after another against the database. */
module Service {
  import opened Options
  import opened Tables
  import opened Handlers

  class Server {
    /** The SQLite database: one table per list, keyed by table name. */
    var lists: Store
    /** The secret every mutating request must present as `secret_key`. */
    var secretKey: string

    /** The state `main` sets up: the database file as it is on disk and the
        secret read from the environment. */
    constructor (secretKey: string, lists: Store)
      ensures this.secretKey == secretKey && this.lists == lists
    {
      this.secretKey := secretKey;
      this.lists := lists;
    }

    // -------------------------------------------------------------------
    // Statements against the database

    /** `tableExists`: the lookup of the name in `sqlite_master`. */
    method TableExists(t: string) returns (b: bool)
      ensures b <==> t in lists
    {
      b := t in lists;
    }

    /** `createTable`: `CREATE TABLE IF NOT EXISTS`, a new empty table. */
    method CreateTable(t: string)
      modifies this`lists
      ensures t in old(lists) ==> lists == old(lists)
      ensures t !in old(lists) ==> lists == old(lists)[t := []]
    {
      if t !in lists {
        lists := lists[t := []];
      }
    }

    /** `INSERT INTO t (name, hash) VALUES (?, ?)`: a new last row. */
    method Insert(t: string, f: File)
      requires t in lists
      modifies this`lists
      ensures lists == old(lists)[t := old(lists)[t] + [f]]
    {
      lists := lists[t := lists[t] + [f]];
    }

    /** `DELETE FROM t WHERE name = ?`. */
    method DeleteWhereName(t: string, name: string)
      requires t in lists
      modifies this`lists
      ensures lists == old(lists)[t := WithoutName(old(lists)[t], name)]
    {
      lists := lists[t := WithoutName(lists[t], name)];
    }

    /** `DROP TABLE IF EXISTS t`. */
    method DropTable(t: string)
      modifies this`lists
      ensures lists == old(lists) - {t}
    {
      lists := lists - {t};
    }

    /** `QueryRow("SELECT name, hash FROM t WHERE name = ?")`: a row with
        that name, the first in id order, or none when no row has it. */
    method SelectFirst(t: string, name: string) returns (row: Option<File>)
      requires t in lists
      ensures row.None? <==> Count(lists[t], name) == 0
      ensures row.Some? ==> row.value in lists[t] && row.value.name == name
      ensures row.Some? ==> row.value == lists[t][FirstNamed(lists[t], name).value]
    {
      match FirstNamed(lists[t], name)
      case None => row := None;
      case Some(i) => row := Some(lists[t][i]);
    }

    // -------------------------------------------------------------------
    // Handlers

    /** `createListHandler`: `type`, then `secret_key`, then the list must be
        absent (400 otherwise). */
    method CreateListHandler(t: string, key: string) returns (status: Status)
      modifies this`lists
      ensures Outcome(status, lists) == CreateList(old(lists), secretKey, t, key)
    {
      if t == "" {
        return BadRequest;
      }
      if key != secretKey {
        return Forbidden;
      }
      var present := TableExists(t);
      if present {
        return BadRequest;
      }
      CreateTable(t);
      status := Created;
    }

    /** `getFilesHandler`: reads the rows of the list one at a time into
        `files`. */
    method GetFilesHandler(t: string) returns (status: Status, files: seq<File>)
      ensures Listing(status, files) == GetFiles(lists, t)
      ensures status == Ok ==> files == lists[t]
    {
      if t == "" {
        return BadRequest, [];
      }
      var present := TableExists(t);
      if !present {
        return NotFound, [];
      }
      var rows := lists[t];
      files := [];
      var i := 0;
      while i < |rows|
        invariant i <= |rows|
        invariant files == rows[..i]
      {
        files := files + [rows[i]];
        i := i + 1;
      }
      assert rows[..i] == rows;
      status := Ok;
    }

    /** `addFileHandler`: the body is decoded after the existence check. */
    method AddFileHandler(t: string, key: string, body: Option<File>) returns (status: Status)
      modifies this`lists
      ensures Outcome(status, lists) == AddFile(old(lists), secretKey, t, key, body)
    {
      if t == "" {
        return BadRequest;
      }
      if key != secretKey {
        return Forbidden;
      }
      var present := TableExists(t);
      if !present {
        return NotFound;
      }
      if body.None? {
        return BadRequest;
      }
      Insert(t, body.value);
      status := Created;
    }

    /** `deleteFileHandler`. */
    method DeleteFileHandler(t: string, name: string, key: string) returns (status: Status)
      modifies this`lists
      ensures Outcome(status, lists) == DeleteFile(old(lists), secretKey, t, name, key)
    {
      if t == "" || name == "" {
        return BadRequest;
      }
      if key != secretKey {
        return Forbidden;
      }
      var present := TableExists(t);
      if !present {
        return NotFound;
      }
      DeleteWhereName(t, name);
      status := Ok;
    }

    /** `deleteListHandler`. */
    method DeleteListHandler(t: string, key: string) returns (status: Status)
      modifies this`lists
      ensures Outcome(status, lists) == DeleteList(old(lists), secretKey, t, key)
    {
      if t == "" {
        return BadRequest;
      }
      if key != secretKey {
        return Forbidden;
      }
      var present := TableExists(t);
      if !present {
        return NotFound;
      }
      DropTable(t);
      status := Ok;
    }

    /** `moveFileHandler`: source checked before destination; then select,
        insert and delete as three separate statements, with no transaction
        around the last two. */
    method MoveFileHandler(from: string, to: string, name: string, key: string, deleteFails: bool)
      returns (status: Status)
      modifies this`lists
      ensures Outcome(status, lists) == MoveFile(old(lists), secretKey, from, to, name, key, deleteFails)
    {
      if from == "" || to == "" || name == "" {
        return BadRequest;
      }
      if key != secretKey {
        return Forbidden;
      }
      var fromExists := TableExists(from);
      if !fromExists {
        return NotFound;
      }
      var toExists := TableExists(to);
      if !toExists {
        return NotFound;
      }
      var row := SelectFirst(from, name);
      if row.None? {
        return NotFound;
      }
      var file := row.value;
      Insert(to, file);
      if deleteFails {
        return InternalError;
      }
      DeleteWhereName(from, file.name);
      status := Ok;
    }
  }
}
