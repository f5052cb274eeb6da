/** One list's table: its rows in id order, and the row-level statements the
    handlers run against it (the WHERE name = ? selection and deletion). */
module Tables {
  import opened Options

  /** A row of a list's table: the `name` and `hash` columns. The
      auto-incremented `id` column is never read, so it is represented only
      by the position of the row. Empty strings are legal values. */
  datatype File = File(name: string, hash: string)

  /** Number of rows whose name column equals `name`. */
  function Count(rows: seq<File>, name: string): (n: nat)
    ensures n <= |rows|
    ensures n == 0 <==> forall i :: 0 <= i < |rows| ==> rows[i].name != name
  {
    if rows == [] then 0
    else (if rows[0].name == name then 1 else 0) + Count(rows[1..], name)
  }

  /** The table after `DELETE FROM t WHERE name = ?`: every row with that name
      goes, the others stay in their order. */
  function WithoutName(rows: seq<File>, name: string): (r: seq<File>)
    ensures forall f :: f in r <==> f in rows && f.name != name
    ensures |r| == |rows| - Count(rows, name)
    ensures Count(r, name) == 0
  {
    if rows == [] then []
    else if rows[0].name == name then WithoutName(rows[1..], name)
    else [rows[0]] + WithoutName(rows[1..], name)
  }

  /** The row `SELECT name, hash FROM t WHERE name = ?` yields through
      `QueryRow`: the first matching row in id order, or none. */
  function FirstNamed(rows: seq<File>, name: string): (r: Option<nat>)
    ensures r.None? <==> Count(rows, name) == 0
    ensures r.Some? ==> r.value < |rows| && rows[r.value].name == name
    ensures r.Some? ==> forall j :: 0 <= j < r.value ==> rows[j].name != name
  {
    if rows == [] then None
    else if rows[0].name == name then Some(0)
    else match FirstNamed(rows[1..], name)
      case None => None
      case Some(i) => Some(i + 1)
  }

  lemma {:induction false} CountAppend(a: seq<File>, b: seq<File>, name: string)
    ensures Count(a + b, name) == Count(a, name) + Count(b, name)
  {
    if a == [] {
      assert a + b == b;
    } else {
      assert (a + b)[1..] == a[1..] + b;
      CountAppend(a[1..], b, name);
    }
  }

  /** Deleting by name distributes over concatenation; with the one-row cases
      this pins down that the surviving rows keep their relative order. */
  lemma {:induction false} WithoutNameAppend(a: seq<File>, b: seq<File>, name: string)
    ensures WithoutName(a + b, name) == WithoutName(a, name) + WithoutName(b, name)
  {
    if a == [] {
      assert a + b == b;
    } else {
      assert (a + b)[1..] == a[1..] + b;
      WithoutNameAppend(a[1..], b, name);
    }
  }

  /** Deleting a name no row carries leaves the table as it was. */
  lemma {:induction false} WithoutNameAbsent(rows: seq<File>, name: string)
    requires Count(rows, name) == 0
    ensures WithoutName(rows, name) == rows
  {
    if rows != [] {
      assert rows[0].name != name;
      WithoutNameAbsent(rows[1..], name);
      assert [rows[0]] + rows[1..] == rows;
    }
  }

  /** Rows with any other name are untouched in number. */
  lemma {:induction false} WithoutNameKeepsOthers(rows: seq<File>, name: string, other: string)
    requires other != name
    ensures Count(WithoutName(rows, name), other) == Count(rows, other)
  {
    if rows != [] {
      WithoutNameKeepsOthers(rows[1..], name, other);
      if rows[0].name != name {
        CountAppend([rows[0]], WithoutName(rows[1..], name), other);
      }
    }
  }
}
