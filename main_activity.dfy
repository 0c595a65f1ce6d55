/**
 * The catalog list screen: on every creation it rebuilds its list of
 * `Art(name, id)` summaries from the `arts` table, and its options menu
 * opens the editor in "new" mode.
 */
module MainActivity {
  import opened Wrappers
  import opened ArtStore
  import opened ArtActivity

  /** The summary the list shows for one stored record. */
  datatype Art = Art(name: string, id: int)

  /** The summaries of `rows`, one per row and in the same order. */
  function Summaries(rows: seq<Row>): (arts: seq<Art>)
    ensures |arts| == |rows|
    ensures forall i :: 0 <= i < |rows| ==> arts[i] == Art(rows[i].artName, rows[i].id)
  {
    if rows == [] then []
    else
      var last := rows[|rows| - 1];
      Summaries(rows[..|rows| - 1]) + [Art(last.artName, last.id)]
  }

  /** After an insert the listing is the old listing with the new summary at its end. */
  lemma SummariesAfterInsert(rows: seq<Row>, row: Row)
    ensures Summaries(rows + [row]) == Summaries(rows) + [Art(row.artName, row.id)]
  {
    var lhs, rhs := Summaries(rows + [row]), Summaries(rows) + [Art(row.artName, row.id)];
    assert |lhs| == |rhs|;
    forall i | 0 <= i < |lhs| ensures lhs[i] == rhs[i] {
      if i < |rows| {
        assert (rows + [row])[i] == rows[i];
      }
    }
  }

  /** A table whose ids ascend lists each id at most once. */
  lemma SummaryIdsDistinct(rows: seq<Row>)
    requires IdsAscending(rows)
    ensures var arts := Summaries(rows);
      forall i, j :: 0 <= i < j < |arts| ==> arts[i].id != arts[j].id
  {}

  /**
   * `onOptionsItemSelected`: the add-art item (resource id `addArtItem`)
   * starts the editor with `info == "new"`, which puts it in new-art mode;
   * any other item starts nothing.
   */
  function OptionsItemSelected(itemId: int, addArtItem: int): (launch: Option<Extras>)
    ensures launch.Some? <==> itemId == addArtItem
    ensures launch.Some? ==> ModeOf(launch.value) == NewArt
  {
    if itemId == addArtItem then Some(Extras(Some("new"), None)) else None
  }

  class MainScreen {
    var artList: seq<Art>

    constructor ()
      ensures artList == []
    {
      artList := [];
    }

    /**
     * `onCreate`: a fresh empty list, then one summary appended per row of
     * `SELECT * FROM arts`; when the query raises (no table before the first
     * save) the exception is caught and the list stays empty.
     */
    method OnCreate(database: Database)
      modifies this
      ensures artList == if database.hasArtsTable then Summaries(database.rows) else []
    {
      artList := [];
      var query := database.SelectAll();
      if query.Success? {
        var rows := query.value;
        var i := 0;
        while i < |rows|
          invariant 0 <= i <= |rows|
          invariant |artList| == i
          invariant forall k :: 0 <= k < i ==> artList[k] == Art(rows[k].artName, rows[k].id)
        {
          var art := Art(rows[i].artName, rows[i].id);
          artList := artList + [art];
          i := i + 1;
        }
        assert artList == Summaries(rows);
      }
    }
  }
}
