/** Locating rows: by the value of the match column (the join key between
    the two sheets) and by row identifier (an attachment's parent link). */
module RowMatcher {
  import opened Sheets

  /** The cell list the matcher sees: a row without a cell list has none. */
  function CellsOrEmpty(row: Row): seq<Cell> {
    if row.cells.Some? then row.cells.value else []
  }

  /** The row's match-column cell exists and holds exactly `key`. */
  predicate HasKey(row: Row, key: string) {
    var cells := CellsOrEmpty(row);
    |cells| > MatchColumnIndex && cells[MatchColumnIndex].value == Some(key)
  }

  /** The identifier of the first row, in order, whose match-column value
      equals `key`; rows with too few cells never match. */
  function FindRowByColumnValue(key: string, rows: seq<Row>): Option<RowId> {
    if |rows| == 0 then None
    else if HasKey(rows[0], key) then Some(rows[0].id)
    else FindRowByColumnValue(key, rows[1..])
  }

  /** The scan finds a row exactly when some row holds the key, and then
      it is the first such row. */
  lemma {:induction false} FindRowByColumnValueIsFirstMatch(key: string, rows: seq<Row>)
    ensures var r := FindRowByColumnValue(key, rows);
            && (r.Some? <==> exists i :: 0 <= i < |rows| && HasKey(rows[i], key))
            && (r.Some? ==> exists i :: 0 <= i < |rows| && HasKey(rows[i], key) && rows[i].id == r.value &&
                                       forall j :: 0 <= j < i ==> !HasKey(rows[j], key))
  {
    if |rows| > 0 && !HasKey(rows[0], key) {
      FindRowByColumnValueIsFirstMatch(key, rows[1..]);
      assert forall i :: 1 <= i < |rows| ==> rows[i] == rows[1..][i - 1];
      var r := FindRowByColumnValue(key, rows);
      if r.Some? {
        var k :| 0 <= k < |rows[1..]| && HasKey(rows[1..][k], key) && rows[1..][k].id == r.value &&
                 forall j :: 0 <= j < k ==> !HasKey(rows[1..][j], key);
        assert HasKey(rows[k + 1], key) && forall j :: 0 <= j < k + 1 ==> !HasKey(rows[j], key);
      }
    }
  }

  /** The first row, in order, whose identifier is `id`. */
  function FindRowById(rows: seq<Row>, id: int): (r: Option<Row>)
    ensures r.Some? <==> exists i :: 0 <= i < |rows| && rows[i].id == id
    ensures r.Some? ==> exists i :: 0 <= i < |rows| && rows[i] == r.value && r.value.id == id &&
                                    forall j :: 0 <= j < i ==> rows[j].id != id
  {
    if |rows| == 0 then None
    else if rows[0].id == id then Some(rows[0])
    else
      var r := FindRowById(rows[1..], id);
      assert forall i :: 1 <= i < |rows| ==> rows[i] == rows[1..][i - 1];
      r
  }

  /** Inserting, in front of the rows, rows that lack the key does not
      change which row the key resolves to. */
  lemma {:induction false} FindRowSkipsKeylessPrefix(key: string, prefix: seq<Row>, rows: seq<Row>)
    requires forall i :: 0 <= i < |prefix| ==> !HasKey(prefix[i], key)
    ensures FindRowByColumnValue(key, prefix + rows) == FindRowByColumnValue(key, rows)
  {
    if |prefix| > 0 {
      assert (prefix + rows)[1..] == prefix[1..] + rows;
      FindRowSkipsKeylessPrefix(key, prefix[1..], rows);
    } else {
      assert prefix + rows == rows;
    }
  }
}
