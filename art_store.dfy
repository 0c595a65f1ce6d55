/**
 * The local `arts` table of the "Arts" database:
 * `arts(id INTEGER PRIMARY KEY, artname, artistname, year, image BLOB)`.
 * Rows are kept in storage order; an insert that names no id receives the
 * largest id so far plus one (1 in an empty table), as SQLite does for an
 * INTEGER PRIMARY KEY column.
 */
module ArtStore {
  import opened Wrappers
  import opened Thumbnail

  /** One row of `arts`, in column order. */
  datatype Row = Row(id: int, artName: string, artistName: string, year: string, image: seq<byte>)

  /** Why a statement was refused by the storage layer. */
  datatype DbError = NoSuchTable | WriteFailed

  /** Every id is positive and ids grow strictly in storage order (so they are unique). */
  ghost predicate IdsAscending(rows: seq<Row>) {
    && (forall i :: 0 <= i < |rows| ==> rows[i].id > 0)
    && (forall i, j :: 0 <= i < j < |rows| ==> rows[i].id < rows[j].id)
  }

  /** The largest id in a non-empty table. */
  function LargestId(rows: seq<Row>): (m: int)
    requires rows != []
    ensures forall i :: 0 <= i < |rows| ==> rows[i].id <= m
    ensures exists i :: 0 <= i < |rows| && rows[i].id == m
  {
    if |rows| == 1 then rows[0].id
    else
      var rest := LargestId(rows[..|rows| - 1]);
      var last := rows[|rows| - 1].id;
      if last >= rest then last else rest
  }

  /** The id SQLite gives the next inserted row. */
  function NextRowId(rows: seq<Row>): int {
    if rows == [] then 1 else LargestId(rows) + 1
  }

  /** The rows `SELECT * FROM arts WHERE id = ?` returns, in storage order. */
  function Select(rows: seq<Row>, id: int): seq<Row> {
    if rows == [] then []
    else
      var prefix := Select(rows[..|rows| - 1], id);
      var last := rows[|rows| - 1];
      if last.id == id then prefix + [last] else prefix
  }

  /** The next id is positive and larger than every id already stored. */
  lemma NextRowIdIsFresh(rows: seq<Row>)
    requires IdsAscending(rows)
    ensures NextRowId(rows) > 0
    ensures forall i :: 0 <= i < |rows| ==> rows[i].id < NextRowId(rows)
  {}

  /** Appending a row with the next id keeps the ids ascending. */
  lemma AppendKeepsIdsAscending(rows: seq<Row>, row: Row)
    requires IdsAscending(rows) && row.id == NextRowId(rows)
    ensures IdsAscending(rows + [row])
  {
    NextRowIdIsFresh(rows);
    var rows' := rows + [row];
    forall i, j | 0 <= i < j < |rows'| ensures rows'[i].id < rows'[j].id {
      if j < |rows| {
        assert rows'[i] == rows[i] && rows'[j] == rows[j];
      } else {
        assert rows'[i] == rows[i];
      }
    }
  }

  /** A row is selected exactly when it is stored and carries the id asked for. */
  lemma {:induction false} SelectMembers(rows: seq<Row>, id: int)
    ensures forall x :: x in Select(rows, id) <==> x in rows && x.id == id
  {
    if rows != [] {
      var front := rows[..|rows| - 1];
      SelectMembers(front, id);
      assert rows == front + [rows[|rows| - 1]];
    }
  }

  /** Nothing is selected exactly when no stored row carries the id. */
  lemma SelectEmptyIff(rows: seq<Row>, id: int)
    ensures Select(rows, id) == [] <==> forall i :: 0 <= i < |rows| ==> rows[i].id != id
  {
    SelectMembers(rows, id);
    if Select(rows, id) != [] {
      assert Select(rows, id)[0] in Select(rows, id);
    } else {
      forall i | 0 <= i < |rows| ensures rows[i].id != id {
        assert rows[i] in rows;
      }
    }
  }

  /**
   * The last selected row is the last stored row with that id: it is stored
   * at some position, and no later position carries the id.
   */
  lemma {:induction false} LastSelectedIsLastMatch(rows: seq<Row>, id: int)
    requires Select(rows, id) != []
    ensures var s := Select(rows, id);
      exists k :: 0 <= k < |rows| && rows[k] == s[|s| - 1] && rows[k].id == id &&
        forall j :: k < j < |rows| ==> rows[j].id != id
  {
    var front := rows[..|rows| - 1];
    var last := rows[|rows| - 1];
    if last.id != id {
      LastSelectedIsLastMatch(front, id);
      var s := Select(front, id);
      var k :| 0 <= k < |front| && front[k] == s[|s| - 1] && front[k].id == id &&
        forall j :: k < j < |front| ==> front[j].id != id;
      assert rows[k] == front[k];
      assert forall j :: k < j < |rows| ==> rows[j].id != id by {
        forall j | k < j < |rows| ensures rows[j].id != id {
          if j < |front| { assert rows[j] == front[j]; }
        }
      }
    } else {
      assert rows[|rows| - 1] == Select(rows, id)[|Select(rows, id)| - 1];
    }
  }

  /** With ascending ids, at most one row matches any id. */
  lemma {:induction false} SelectAtMostOne(rows: seq<Row>, id: int)
    requires IdsAscending(rows)
    ensures |Select(rows, id)| <= 1
  {
    if rows != [] {
      var front := rows[..|rows| - 1];
      var last := rows[|rows| - 1];
      assert IdsAscending(front);
      SelectAtMostOne(front, id);
      if last.id == id {
        SelectEmptyIff(front, id);
        assert forall i :: 0 <= i < |front| ==> front[i].id < last.id;
      }
    }
  }

  /** After an insert, looking up the new id finds exactly the new row. */
  lemma InsertThenSelect(rows: seq<Row>, row: Row)
    requires IdsAscending(rows) && row.id == NextRowId(rows)
    ensures Select(rows + [row], row.id) == [row]
  {
    NextRowIdIsFresh(rows);
    SelectEmptyIff(rows, row.id);
    assert (rows + [row])[..|rows|] == rows;
  }

  /** An insert changes no lookup of an id other than the new one. */
  lemma InsertKeepsOtherSelects(rows: seq<Row>, row: Row, id: int)
    requires id != row.id
    ensures Select(rows + [row], id) == Select(rows, id)
  {
    assert (rows + [row])[..|rows|] == rows;
  }

  /**
   * The "Arts" database file as the activities see it: whether the `arts`
   * table exists yet, and its rows.
   */
  class Database {
    var hasArtsTable: bool
    var rows: seq<Row>

    ghost predicate Valid()
      reads this
    {
      (!hasArtsTable ==> rows == []) && IdsAscending(rows)
    }

    /** `openOrCreateDatabase` on a fresh install: an empty file, no table. */
    constructor ()
      ensures Valid() && !hasArtsTable && rows == []
    {
      hasArtsTable := false;
      rows := [];
    }

    /**
     * `CREATE TABLE IF NOT EXISTS arts (...)`: creates the table when it is
     * missing and otherwise touches nothing. `fails` stands for a storage
     * failure, which raises and leaves the file as it was.
     */
    method CreateTableIfNotExists(fails: bool) returns (ok: bool)
      requires Valid()
      modifies this
      ensures Valid()
      ensures ok == !fails
      ensures hasArtsTable == (old(hasArtsTable) || ok)
      ensures rows == old(rows)
    {
      ok := !fails;
      if ok {
        hasArtsTable := true;
      }
    }

    /**
     * `INSERT INTO arts (artname, artistname, year, image) VALUES (?, ?, ?, ?)`:
     * appends one full row with the next id, or changes nothing and reports
     * why (no table, or a storage failure `fails`).
     */
    method Insert(artName: string, artistName: string, year: string, image: seq<byte>, fails: bool)
      returns (r: Result<int, DbError>)
      requires Valid()
      modifies this
      ensures Valid()
      ensures hasArtsTable == old(hasArtsTable)
      ensures !old(hasArtsTable) ==> r == Failure(NoSuchTable) && rows == old(rows)
      ensures old(hasArtsTable) && fails ==> r == Failure(WriteFailed) && rows == old(rows)
      ensures old(hasArtsTable) && !fails ==>
        r == Success(NextRowId(old(rows))) &&
        rows == old(rows) + [Row(NextRowId(old(rows)), artName, artistName, year, image)]
    {
      if !hasArtsTable {
        r := Failure(NoSuchTable);
      } else if fails {
        r := Failure(WriteFailed);
      } else {
        var row := Row(NextRowId(rows), artName, artistName, year, image);
        AppendKeepsIdsAscending(rows, row);
        rows := rows + [row];
        r := Success(row.id);
      }
    }

    /** `SELECT * FROM arts`: every row in storage order; raises when there is no table. */
    function SelectAll(): (r: Result<seq<Row>, DbError>)
      reads this
      ensures r.Success? <==> hasArtsTable
    {
      if hasArtsTable then Success(rows) else Failure(NoSuchTable)
    }

    /** `SELECT * FROM arts WHERE id = ?`; raises when there is no table. */
    function SelectById(id: int): (r: Result<seq<Row>, DbError>)
      reads this
      ensures r.Success? <==> hasArtsTable
    {
      if hasArtsTable then Success(Select(rows, id)) else Failure(NoSuchTable)
    }
  }
}
