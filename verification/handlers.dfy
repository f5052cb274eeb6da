/** What each HTTP handler does to the database, as a function of the state
    before the request: the status it answers with and the lists afterwards.
    The database is a map from table name (the list identifier, used as the
    SQL table name) to that table's rows. */
module Handlers {
  import opened Options
  import opened Tables

  type Store = map<string, seq<File>>

  /** The responses the handlers send: HTTP 400, 403, 404, 201, 200 and 500. */
  datatype Status = BadRequest | Forbidden | NotFound | Created | Ok | InternalError

  /** A mutating request's answer and the database it leaves behind. */
  datatype Outcome = Outcome(status: Status, lists: Store)

  /** A listing request's answer and the rows it returns. */
  datatype Listing = Listing(status: Status, files: seq<File>)

  /** The first two guards of every mutating handler: a required query
      parameter that is empty (or missing) is a bad request; past that, a
      `secret_key` other than the server's is forbidden. */
  function Precheck(params: seq<string>, secret: string, key: string): (r: Option<Status>)
    ensures r == Some(BadRequest) <==> exists i :: 0 <= i < |params| && params[i] == ""
    ensures r == Some(Forbidden) <==> (forall i :: 0 <= i < |params| ==> params[i] != "") && key != secret
    ensures r == None <==> (forall i :: 0 <= i < |params| ==> params[i] != "") && key == secret
  {
    if "" in params then Some(BadRequest)
    else if key != secret then Some(Forbidden)
    else None
  }

  /** `createListHandler` with `createTable`. */
  function CreateList(s: Store, secret: string, t: string, key: string): (o: Outcome)
    ensures t == "" ==> o == Outcome(BadRequest, s)
    ensures t != "" && key != secret ==> o == Outcome(Forbidden, s)
    ensures t != "" && key == secret && t in s ==> o == Outcome(BadRequest, s)
    ensures o.status == Created <==> t != "" && key == secret && t !in s
    ensures o.status == Created ==>
      && o.lists.Keys == s.Keys + {t}
      && o.lists[t] == []
      && forall u :: u in s ==> o.lists[u] == s[u]
  {
    match Precheck([t], secret, key)
    case Some(err) => Outcome(err, s)
    case None =>
      if t in s then Outcome(BadRequest, s)
      else Outcome(Created, s[t := []])
  }

  /** `getFilesHandler`: no secret is asked for, and nothing changes. */
  function GetFiles(s: Store, t: string): (l: Listing)
    ensures t == "" ==> l == Listing(BadRequest, [])
    ensures t != "" && t !in s ==> l == Listing(NotFound, [])
    ensures l.status == Ok <==> t != "" && t in s
    ensures l.status == Ok ==> l.files == s[t]
  {
    if t == "" then Listing(BadRequest, [])
    else if t !in s then Listing(NotFound, [])
    else Listing(Ok, s[t])
  }

  /** `addFileHandler`. The body is decoded only after the list is known to
      exist; `None` stands for a body the JSON decoder rejects. Any decoded
      record is inserted, duplicates and empty strings included. */
  function AddFile(s: Store, secret: string, t: string, key: string, body: Option<File>): (o: Outcome)
    ensures t == "" ==> o == Outcome(BadRequest, s)
    ensures t != "" && key != secret ==> o == Outcome(Forbidden, s)
    ensures t != "" && key == secret && t !in s ==> o == Outcome(NotFound, s)
    ensures t != "" && key == secret && t in s && body.None? ==> o == Outcome(BadRequest, s)
    ensures o.status == Created <==> t != "" && key == secret && t in s && body.Some?
    ensures o.status == Created ==>
      && o.lists.Keys == s.Keys
      && o.lists[t] == s[t] + [body.value]
      && forall u :: u in s && u != t ==> o.lists[u] == s[u]
  {
    match Precheck([t], secret, key)
    case Some(err) => Outcome(err, s)
    case None =>
      if t !in s then Outcome(NotFound, s)
      else match body
        case None => Outcome(BadRequest, s)
        case Some(f) => Outcome(Created, s[t := s[t] + [f]])
  }

  /** `deleteFileHandler`: every row with the name goes; none matching is
      still a success. */
  function DeleteFile(s: Store, secret: string, t: string, name: string, key: string): (o: Outcome)
    ensures t == "" || name == "" ==> o == Outcome(BadRequest, s)
    ensures t != "" && name != "" && key != secret ==> o == Outcome(Forbidden, s)
    ensures t != "" && name != "" && key == secret && t !in s ==> o == Outcome(NotFound, s)
    ensures o.status == Ok <==> t != "" && name != "" && key == secret && t in s
    ensures o.status == Ok ==>
      && o.lists.Keys == s.Keys
      && o.lists[t] == WithoutName(s[t], name)
      && (forall f :: f in o.lists[t] <==> f in s[t] && f.name != name)
      && |o.lists[t]| == |s[t]| - Count(s[t], name)
      && forall u :: u in s && u != t ==> o.lists[u] == s[u]
  {
    match Precheck([t, name], secret, key)
    case Some(err) => Outcome(err, s)
    case None =>
      if t !in s then Outcome(NotFound, s)
      else Outcome(Ok, s[t := WithoutName(s[t], name)])
  }

  /** `deleteListHandler`: the table and all its rows go. */
  function DeleteList(s: Store, secret: string, t: string, key: string): (o: Outcome)
    ensures t == "" ==> o == Outcome(BadRequest, s)
    ensures t != "" && key != secret ==> o == Outcome(Forbidden, s)
    ensures t != "" && key == secret && t !in s ==> o == Outcome(NotFound, s)
    ensures o.status == Ok <==> t != "" && key == secret && t in s
    ensures o.status == Ok ==>
      && o.lists.Keys == s.Keys - {t}
      && forall u :: u in o.lists ==> o.lists[u] == s[u]
  {
    match Precheck([t], secret, key)
    case Some(err) => Outcome(err, s)
    case None =>
      if t !in s then Outcome(NotFound, s)
      else Outcome(Ok, s - {t})
  }

  /** `moveFileHandler`: read one row named `name` from the source, insert a
      copy into the destination, then delete every row named `name` from the
      source. `deleteFails` stands for the store failing the last statement,
      after the insert has already taken effect. */
  function MoveFile(s: Store, secret: string, from: string, to: string, name: string, key: string,
                    deleteFails: bool): (o: Outcome)
    ensures from == "" || to == "" || name == "" ==> o == Outcome(BadRequest, s)
    ensures from != "" && to != "" && name != "" && key != secret ==> o == Outcome(Forbidden, s)
    ensures from != "" && to != "" && name != "" && key == secret && from !in s ==> o == Outcome(NotFound, s)
    ensures from != "" && to != "" && name != "" && key == secret && from in s && to !in s ==>
      o == Outcome(NotFound, s)
    ensures (from != "" && to != "" && name != "" && key == secret && from in s && to in s
             && Count(s[from], name) == 0) ==> o == Outcome(NotFound, s)
    ensures (from != "" && to != "" && name != "" && key == secret && from in s && to in s
             && Count(s[from], name) > 0) ==> o.status == (if deleteFails then InternalError else Ok)
    ensures o.lists.Keys == s.Keys
    ensures forall u :: u in s && u != from && u != to ==> o.lists[u] == s[u]
    ensures o.status == Ok ==> Count(o.lists[from], name) == 0
    ensures o.status == Ok && from != to ==>
      && o.lists[from] == WithoutName(s[from], name)
      && exists i :: 0 <= i < |s[from]| && s[from][i].name == name && o.lists[to] == s[to] + [s[from][i]]
  {
    match Precheck([from, to, name], secret, key)
    case Some(err) => Outcome(err, s)
    case None =>
      if from !in s then Outcome(NotFound, s)
      else if to !in s then Outcome(NotFound, s)
      else match FirstNamed(s[from], name)
        case None => Outcome(NotFound, s)
        case Some(i) =>
          var file := s[from][i];
          var inserted := s[to := s[to] + [file]];
          if deleteFails then Outcome(InternalError, inserted)
          else Outcome(Ok, inserted[from := WithoutName(inserted[from], file.name)])
  }

  // ---------------------------------------------------------------------
  // Properties of request sequences

  /** A list just created exists and lists as empty. */
  lemma CreateThenList(s: Store, secret: string, t: string)
    requires t != "" && t !in s
    ensures CreateList(s, secret, t, secret).status == Created
    ensures GetFiles(CreateList(s, secret, t, secret).lists, t) == Listing(Ok, [])
  {
  }

  /** Creating the same list twice: the second request is refused with 400
      and changes nothing. */
  lemma CreateTwice(s: Store, secret: string, t: string)
    requires t != "" && t !in s
    ensures var o := CreateList(s, secret, t, secret);
      o.status == Created && CreateList(o.lists, secret, t, secret) == Outcome(BadRequest, o.lists)
  {
  }

  /** After adding a record, listing returns the old rows followed by exactly
      that record, which now occurs once more under its name. */
  lemma {:induction false} AddThenList(s: Store, secret: string, t: string, f: File)
    requires t != "" && t in s
    ensures var o := AddFile(s, secret, t, secret, Some(f));
      && GetFiles(o.lists, t) == Listing(Ok, s[t] + [f])
      && Count(o.lists[t], f.name) == Count(s[t], f.name) + 1
  {
    CountAppend(s[t], [f], f.name);
  }

  /** Removing by name twice is the same as removing once. */
  lemma DeleteFileIdempotent(s: Store, secret: string, t: string, name: string, key: string)
    ensures var o := DeleteFile(s, secret, t, name, key);
      DeleteFile(o.lists, secret, t, name, key).lists == o.lists
  {
    var o := DeleteFile(s, secret, t, name, key);
    if o.status == Ok {
      WithoutNameAbsent(o.lists[t], name);
    }
  }

  /** Removing a name the list does not hold succeeds and changes nothing. */
  lemma DeleteFileAbsent(s: Store, secret: string, t: string, name: string)
    requires t != "" && name != "" && t in s && Count(s[t], name) == 0
    ensures DeleteFile(s, secret, t, name, secret) == Outcome(Ok, s)
  {
    WithoutNameAbsent(s[t], name);
    assert s[t := s[t]] == s;
  }

  /** Once a list is dropped, listing and adding answer 404, and creating it
      again gives an empty list. */
  lemma DeleteListThenAbsent(s: Store, secret: string, t: string, body: Option<File>)
    requires t != "" && t in s
    ensures var o := DeleteList(s, secret, t, secret);
      && o.status == Ok
      && GetFiles(o.lists, t) == Listing(NotFound, [])
      && AddFile(o.lists, secret, t, secret, body) == Outcome(NotFound, o.lists)
      && CreateList(o.lists, secret, t, secret).lists[t] == []
  {
  }

  /** A successful move between two lists: the source loses every record
      named `name` and the destination gains exactly one of them. */
  lemma {:induction false} MoveCounts(s: Store, secret: string, from: string, to: string, name: string, key: string)
    requires from != to
    ensures var o := MoveFile(s, secret, from, to, name, key, false);
      o.status == Ok ==>
        && Count(o.lists[from], name) == 0
        && Count(o.lists[to], name) == Count(s[to], name) + 1
  {
    var o := MoveFile(s, secret, from, to, name, key, false);
    if o.status == Ok {
      var i :| 0 <= i < |s[from]| && s[from][i].name == name && o.lists[to] == s[to] + [s[from][i]];
      CountAppend(s[to], [s[from][i]], name);
    }
  }

  /** Conservation: when the source holds exactly one record named `name`
      and the lists differ, a successful move keeps the number of such records
      across the two lists, and the record that arrives is the one that left. */
  lemma {:induction false} MoveConserves(s: Store, secret: string, from: string, to: string, name: string, key: string)
    requires from != to && from in s && to in s && Count(s[from], name) == 1
    ensures var o := MoveFile(s, secret, from, to, name, key, false);
      o.status == Ok ==>
        && Count(o.lists[from], name) + Count(o.lists[to], name) == Count(s[from], name) + Count(s[to], name)
        && forall f :: f in s[from] && f.name == name ==> o.lists[to] == s[to] + [f]
  {
    var o := MoveFile(s, secret, from, to, name, key, false);
    if o.status == Ok {
      MoveCounts(s, secret, from, to, name, key);
      var i :| 0 <= i < |s[from]| && s[from][i].name == name && o.lists[to] == s[to] + [s[from][i]];
      forall f | f in s[from] && f.name == name
        ensures o.lists[to] == s[to] + [f]
      {
        var j :| 0 <= j < |s[from]| && s[from][j] == f;
        OnlyOneNamed(s[from], name, i, j);
      }
    }
  }

  /** When a name occurs once, every row carrying it is at the same place. */
  lemma {:induction false} OnlyOneNamed(rows: seq<File>, name: string, i: nat, j: nat)
    requires Count(rows, name) == 1
    requires i < |rows| && j < |rows| && rows[i].name == name && rows[j].name == name
    ensures i == j
  {
    if i != 0 && j != 0 {
      OnlyOneNamed(rows[1..], name, i - 1, j - 1);
    }
  }

  /** Moving within one list loses the record: it is copied to the end of the
      list and then every row with that name, the copy included, is deleted. */
  lemma {:induction false} MoveWithinOneList(s: Store, secret: string, t: string, name: string, key: string)
    ensures var o := MoveFile(s, secret, t, t, name, key, false);
      o.status == Ok ==> o.lists[t] == WithoutName(s[t], name) && |o.lists[t]| < |s[t]|
  {
    var o := MoveFile(s, secret, t, t, name, key, false);
    if o.status == Ok {
      var i := FirstNamed(s[t], name).value;
      WithoutNameAppend(s[t], [s[t][i]], name);
      assert WithoutName([s[t][i]], name) == [];
    }
  }

  /** The window the missing transaction leaves: if the delete fails after
      the insert, the record is visible in both lists at once. */
  lemma {:induction false} MoveFailureDuplicates(s: Store, secret: string, from: string, to: string, name: string)
    requires from != "" && to != "" && name != "" && from != to
    requires from in s && to in s && Count(s[from], name) > 0
    ensures var o := MoveFile(s, secret, from, to, name, secret, true);
      && o.status == InternalError
      && o.lists[from] == s[from]
      && exists f :: f in s[from] && f.name == name && o.lists[to] == s[to] + [f]
  {
    var i := FirstNamed(s[from], name).value;
    assert s[from][i] in s[from];
  }
}
