/** `IdiomsLoader.idioms()`: skip the header row of the already-parsed idiom
    dictionary and take column 0 of every later row. Both loader variants share
    this code word for word. */
module TsvRows {

  /** One parsed row of the tab-separated dictionary. */
  type Row = seq<string>

  /** How reading the dictionary fails. `MissingHeader`: the file has no row at
      all, so skipping the header (`next`) fails. `EmptyRow(row)`: row number
      `row` (the header is row 0) has no cells, so `row[0]` fails. */
  datatype LoadError = MissingHeader | EmptyRow(row: nat)

  datatype Result<T> = Ok(value: T) | Err(error: LoadError)

  /** Column 0 of `rows[from..]`, or the first row from `from` on that is empty. */
  function DataColumn(rows: seq<Row>, from: nat): (r: Result<seq<string>>)
    requires 1 <= from <= |rows|
    ensures r.Ok? <==> forall i :: from <= i < |rows| ==> rows[i] != []
    ensures r.Ok? ==> |r.value| == |rows| - from
                      && forall i :: 0 <= i < |r.value| ==> r.value[i] == rows[from + i][0]
    ensures r.Err? ==> r.error.EmptyRow? && from <= r.error.row < |rows| && rows[r.error.row] == []
                       && forall i :: from <= i < r.error.row ==> rows[i] != []
    decreases |rows| - from
  {
    if from == |rows| then Ok([])
    else if rows[from] == [] then Err(EmptyRow(from))
    else
      match DataColumn(rows, from + 1)
      case Ok(rest) => Ok([rows[from][0]] + rest)
      case Err(e) => Err(e)
  }

  /** The idioms of the dictionary `rows`: column 0 of every row after the header. */
  function Idioms(rows: seq<Row>): (r: Result<seq<string>>)
    ensures r == Err(MissingHeader) <==> |rows| == 0
    ensures r.Ok? <==> |rows| > 0 && forall i :: 1 <= i < |rows| ==> rows[i] != []
    ensures r.Ok? ==> |r.value| == |rows| - 1
                      && forall i :: 0 <= i < |r.value| ==> r.value[i] == rows[i + 1][0]
    ensures r.Err? && r.error.EmptyRow? ==>
              1 <= r.error.row < |rows| && rows[r.error.row] == []
              && forall i :: 1 <= i < r.error.row ==> rows[i] != []
  {
    if |rows| == 0 then Err(MissingHeader) else DataColumn(rows, 1)
  }

  /** The idioms read are exactly the first cells of the data rows. */
  lemma IdiomsMembers(rows: seq<Row>)
    requires Idioms(rows).Ok?
    ensures forall x :: x in Idioms(rows).value <==> exists i :: 1 <= i < |rows| && x == rows[i][0]
  {
    var idioms := Idioms(rows).value;
    forall x | x in idioms
      ensures exists i :: 1 <= i < |rows| && x == rows[i][0]
    {
      var k :| 0 <= k < |idioms| && idioms[k] == x;
      assert x == rows[k + 1][0];
    }
    forall x, i | 1 <= i < |rows| && x == rows[i][0]
      ensures x in idioms
    {
      assert idioms[i - 1] == x;
    }
  }

  /** The `idioms()` loop itself: skip the header, then walk the rows in order,
      failing at the first empty one. */
  method ReadIdioms(rows: seq<Row>) returns (r: Result<seq<string>>)
    ensures r == Idioms(rows)
  {
    if |rows| == 0 {
      return Err(MissingHeader);
    }
    var column: seq<string> := [];
    for i := 1 to |rows|
      invariant |column| == i - 1
      invariant forall k :: 1 <= k < i ==> rows[k] != [] && column[k - 1] == rows[k][0]
    {
      if rows[i] == [] {
        return Err(EmptyRow(i));
      }
      column := column + [rows[i][0]];
    }
    assert Idioms(rows).Ok?;
    assert Idioms(rows).value == column;
    return Ok(column);
  }
}
