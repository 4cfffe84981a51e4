/** `DataSet.__init__` without the file: the first CSV row is the header,
    and a later row is kept as data only when it is as long as the header
    and has no empty cell. */
module DataSets {

  import opened Results

  type Row = seq<string>

  /** `len(row) == len(columns_names) and row.count('') == 0`. */
  predicate Admissible(header: Row, row: Row) {
    |row| == |header| && "" !in row
  }

  /** The admissible rows of `rows`, in their order. */
  function AdmitRows(header: Row, rows: seq<Row>): (r: seq<Row>)
    ensures |r| <= |rows|
    ensures forall row | row in r :: row in rows && Admissible(header, row)
    ensures forall row | row in rows && Admissible(header, row) :: row in r
  {
    if |rows| == 0 then []
    else
      var init, last := rows[..|rows| - 1], rows[|rows| - 1];
      assert forall row | row in init :: row in rows;
      AdmitRows(header, init) + (if Admissible(header, last) then [last] else [])
  }

  /** Admission looks at each row on its own: splitting the input splits the
      output, so the kept rows keep their relative order. */
  lemma {:induction false} AdmitRowsAppend(header: Row, a: seq<Row>, b: seq<Row>)
    ensures AdmitRows(header, a + b) == AdmitRows(header, a) + AdmitRows(header, b)
  {
    if |b| == 0 {
      assert a + b == a;
    } else {
      var init, last := b[..|b| - 1], b[|b| - 1];
      assert (a + b)[..|a + b| - 1] == a + init;
      assert (a + b)[|a + b| - 1] == last;
      AdmitRowsAppend(header, a, init);
      var tail := if Admissible(header, last) then [last] else [];
      assert AdmitRows(header, a + b) == AdmitRows(header, a + init) + tail;
      assert AdmitRows(header, b) == AdmitRows(header, init) + tail;
      var x, y := AdmitRows(header, a), AdmitRows(header, init);
      assert (x + y) + tail == x + (y + tail);
    }
  }

  /** A single row is kept exactly when it is admissible. */
  lemma AdmitOne(header: Row, row: Row)
    ensures AdmitRows(header, [row]) == if Admissible(header, row) then [row] else []
  {
    assert [row][..0] == [];
  }

  /** Admitting twice admits nothing more and drops nothing more. */
  lemma {:induction false} AdmitRowsIdempotent(header: Row, rows: seq<Row>)
    ensures AdmitRows(header, AdmitRows(header, rows)) == AdmitRows(header, rows)
  {
    if |rows| > 0 {
      var init, last := rows[..|rows| - 1], rows[|rows| - 1];
      AdmitRowsIdempotent(header, init);
      var kept := AdmitRows(header, init);
      if Admissible(header, last) {
        AdmitRowsAppend(header, kept, [last]);
        AdmitOne(header, last);
      } else {
        assert AdmitRows(header, rows) == kept;
      }
    }
  }

  /** The header and the admitted data rows. */
  datatype Table = Table(header: Row, data: seq<Row>)

  /** Reading a CSV file whose rows are `rows`: an empty file and a file with
      no admissible data row both stop the program. */
  function Load(rows: seq<Row>): (r: Result<Table>)
    ensures rows == [] ==> r == Err(EmptyFile)
    ensures rows != [] && (forall row | row in rows[1..] :: !Admissible(rows[0], row)) ==> r == Err(NoData)
    ensures r.Ok? <==> rows != [] && exists row | row in rows[1..] :: Admissible(rows[0], row)
    ensures r.Ok? ==> r.value.header == rows[0] && r.value.data != []
    ensures r.Ok? ==> forall row :: row in r.value.data <==> row in rows[1..] && Admissible(rows[0], row)
    ensures r.Ok? ==> r.value.data == AdmitRows(rows[0], rows[1..])
  {
    if |rows| == 0 then Err(EmptyFile)
    else
      var data := AdmitRows(rows[0], rows[1..]);
      if |data| == 0 then
        assert forall row | row in rows[1..] :: !Admissible(rows[0], row);
        Err(NoData)
      else
        assert data[0] in data;
        Ok(Table(rows[0], data))
  }
}
