/** `separate_years_data`: the raw rows of the export grouped into one
    bucket per year, named after the first four characters of the
    `published_at` cell. Writing the buckets to files is not modelled. */
module Separator {

  import opened Results
  import opened Seqs

  type Row = seq<string>

  const DateTitle := "published_at"

  /** `titles.index(title)`: the first position of `title`, or `None` where
      Python raises `ValueError`. */
  function IndexOf(titles: seq<string>, title: string): (r: Option<nat>)
    ensures r.None? <==> title !in titles
    ensures r.Some? ==> r.value < |titles| && titles[r.value] == title
    ensures r.Some? ==> forall i | 0 <= i < r.value :: titles[i] != title
  {
    if |titles| == 0 then None
    else if titles[0] == title then Some(0)
    else
      match IndexOf(titles[1..], title)
      case None => None
      case Some(i) => Some(i + 1)
  }

  /** `f"{cell[0:4]}.csv"`: a slice past the end of a short cell stops at
      its end. */
  function BucketName(cell: string): (name: string)
    ensures |cell| >= 4 ==> name == cell[..4] + ".csv"
    ensures |cell| < 4 ==> name == cell + ".csv"
  {
    (if |cell| < 4 then cell else cell[..4]) + ".csv"
  }

  /** `listed_years_dict`: bucket names in order of creation, and the rows
      filed under each. */
  datatype Buckets = Buckets(names: seq<string>, rows: map<string, seq<Row>>)

  ghost predicate Valid(b: Buckets) {
    && Distinct(b.names)
    && (forall n | n in b.names :: n in b.rows)
    && (forall n | n in b.rows :: n in b.names)
  }

  /** Files `row` under `name`, creating the bucket when it is new. */
  function File(b: Buckets, name: string, row: Row): (r: Buckets)
    requires Valid(b)
    ensures Valid(r)
    ensures r.rows.Keys == b.rows.Keys + {name}
    ensures r.rows[name] == (if name in b.rows then b.rows[name] else []) + [row]
    ensures forall n | n in b.rows && n != name :: r.rows[n] == b.rows[n]
    ensures r.names == if name in b.rows then b.names else b.names + [name]
  {
    if name in b.rows then Buckets(b.names, b.rows[name := b.rows[name] + [row]])
    else
      assert name !in b.names;
      DistinctAppend(b.names, name);
      Buckets(b.names + [name], b.rows[name := [row]])
  }

  /** The loop over the rows, with the date column at `col`; a row too short
      to have that column raises `IndexError`, reported with its position. */
  function Group(rows: seq<Row>, col: nat): (r: Result<Buckets>)
    ensures r.Ok? <==> forall i | 0 <= i < |rows| :: col < |rows[i]|
    ensures r.Ok? ==> Valid(r.value)
    ensures r.Err? ==> exists i | 0 <= i < |rows| :: |rows[i]| <= col && r.error == ShortRow(i)
  {
    if |rows| == 0 then Ok(Buckets([], map[]))
    else
      var init, row := rows[..|rows| - 1], rows[|rows| - 1];
      assert forall i | 0 <= i < |init| :: init[i] == rows[i];
      var b :- Group(init, col);
      if |row| <= col then Err(ShortRow(|rows| - 1))
      else Ok(File(b, BucketName(row[col]), row))
  }

  /** `separate_years_data(file_strings, titles)` up to the file writing. */
  function SeparateYearsData(rows: seq<Row>, titles: seq<string>): (r: Result<Buckets>)
    ensures DateTitle !in titles ==> r == Err(MissingColumn(DateTitle))
    ensures DateTitle in titles ==> r == Group(rows, IndexOf(titles, DateTitle).value)
  {
    match IndexOf(titles, DateTitle)
    case None => Err(MissingColumn(DateTitle))
    case Some(col) => Group(rows, col)
  }

  /** The bucket name of every row, in order. */
  function Names(rows: seq<Row>, col: nat): (r: seq<string>)
    requires forall i | 0 <= i < |rows| :: col < |rows[i]|
    ensures |r| == |rows|
    ensures forall i | 0 <= i < |rows| :: r[i] == BucketName(rows[i][col])
  {
    if |rows| == 0 then []
    else Names(rows[..|rows| - 1], col) + [BucketName(rows[|rows| - 1][col])]
  }

  /** The rows named `name`, in their order. */
  function Named(rows: seq<Row>, col: nat, name: string): (r: seq<Row>)
    requires forall i | 0 <= i < |rows| :: col < |rows[i]|
  {
    if |rows| == 0 then []
    else
      var init, row := rows[..|rows| - 1], rows[|rows| - 1];
      Named(init, col, name) + (if BucketName(row[col]) == name then [row] else [])
  }

  /** The buckets are named after the rows' years in order of first
      appearance, and each holds exactly the rows of its year, unchanged
      and in input order. */
  lemma {:induction false} GroupContents(rows: seq<Row>, col: nat)
    requires forall i | 0 <= i < |rows| :: col < |rows[i]|
    ensures Group(rows, col).Ok?
    ensures Group(rows, col).value.names == Dedup(Names(rows, col))
    ensures forall n | n in Group(rows, col).value.rows :: Group(rows, col).value.rows[n] == Named(rows, col, n)
  {
    if |rows| > 0 {
      var init, row := rows[..|rows| - 1], rows[|rows| - 1];
      GroupContents(init, col);
      FileStep(Group(init, col).value, rows, col);
    }
  }

  /** Filing the last row into the buckets of the others: the step of
      `GroupContents`. */
  lemma FileStep(b: Buckets, rows: seq<Row>, col: nat)
    requires Valid(b)
    requires |rows| > 0 && forall i | 0 <= i < |rows| :: col < |rows[i]|
    requires b.names == Dedup(Names(rows[..|rows| - 1], col))
    requires forall n | n in b.rows :: b.rows[n] == Named(rows[..|rows| - 1], col, n)
    ensures var r := File(b, BucketName(rows[|rows| - 1][col]), rows[|rows| - 1]);
      && r.names == Dedup(Names(rows, col))
      && forall n | n in r.rows :: r.rows[n] == Named(rows, col, n)
  {
    FileStepNames(b, rows, col);
    FileStepRows(b, rows, col);
  }

  lemma FileStepNames(b: Buckets, rows: seq<Row>, col: nat)
    requires Valid(b)
    requires |rows| > 0 && forall i | 0 <= i < |rows| :: col < |rows[i]|
    requires b.names == Dedup(Names(rows[..|rows| - 1], col))
    ensures File(b, BucketName(rows[|rows| - 1][col]), rows[|rows| - 1]).names == Dedup(Names(rows, col))
  {
    var init, row := rows[..|rows| - 1], rows[|rows| - 1];
    var name := BucketName(row[col]);
    var ns := Names(rows, col);
    assert ns[..|ns| - 1] == Names(init, col) && ns[|ns| - 1] == name;
    assert (name in b.rows) == (name in Dedup(Names(init, col)));
  }

  lemma FileStepRows(b: Buckets, rows: seq<Row>, col: nat)
    requires Valid(b)
    requires |rows| > 0 && forall i | 0 <= i < |rows| :: col < |rows[i]|
    requires b.names == Dedup(Names(rows[..|rows| - 1], col))
    requires forall n | n in b.rows :: b.rows[n] == Named(rows[..|rows| - 1], col, n)
    ensures var r := File(b, BucketName(rows[|rows| - 1][col]), rows[|rows| - 1]);
      forall n | n in r.rows :: r.rows[n] == Named(rows, col, n)
  {
    var init, row := rows[..|rows| - 1], rows[|rows| - 1];
    var name := BucketName(row[col]);
    var r := File(b, name, row);
    forall n | n in r.rows ensures r.rows[n] == Named(rows, col, n) {
      assert Named(rows, col, n) == Named(init, col, n) + (if name == n then [row] else []);
      if n !in b.rows {
        assert n == name;
        NamedAbsent(init, col, n);
      }
    }
  }

  /** A name no row carries has no rows. */
  lemma {:induction false} NamedAbsent(rows: seq<Row>, col: nat, name: string)
    requires forall i | 0 <= i < |rows| :: col < |rows[i]|
    requires name !in Names(rows, col)
    ensures Named(rows, col, name) == []
  {
    if |rows| > 0 {
      var init := rows[..|rows| - 1];
      assert Names(rows, col)[..|rows| - 1] == Names(init, col);
      NamedAbsent(init, col, name);
    }
  }

  /** The number of rows filed under each name. */
  function Sizes(b: Buckets): (m: map<string, nat>)
    ensures m.Keys == b.rows.Keys
  {
    map n | n in b.rows :: |b.rows[n]|
  }

  /** Every row lands in exactly one bucket: the bucket sizes add up to the
      number of rows. */
  lemma {:induction false} GroupConserves(rows: seq<Row>, col: nat)
    requires forall i | 0 <= i < |rows| :: col < |rows[i]|
    ensures Group(rows, col).Ok?
    ensures SumOver(Group(rows, col).value.names, Sizes(Group(rows, col).value)) == |rows|
  {
    if |rows| > 0 {
      var init, row := rows[..|rows| - 1], rows[|rows| - 1];
      GroupConserves(init, col);
      FileAddsOne(Group(init, col).value, BucketName(row[col]), row);
    }
  }

  /** Filing one row adds one to the total size. */
  lemma FileAddsOne(b: Buckets, name: string, row: Row)
    requires Valid(b)
    ensures SumOver(File(b, name, row).names, Sizes(File(b, name, row)))
            == SumOver(b.names, Sizes(b)) + 1
  {
    var r := File(b, name, row);
    var before, after := Sizes(b), Sizes(r);
    if name in b.rows {
      SumOverAgree(b.names, after, before[name := before[name] + 1]);
      SumOverUpdatePresent(b.names, before, name, before[name] + 1);
    } else {
      assert name !in b.names;
      assert r.names[..|r.names| - 1] == b.names;
      SumOverAgree(b.names, after, before);
    }
  }

  /** The whole of `separate_years_data` when the date column exists and
      every row reaches it: the buckets are the years in order of first
      appearance, each holding exactly its rows in input order, and their
      sizes add up to the number of rows. */
  lemma SeparateYearsDataBuckets(rows: seq<Row>, titles: seq<string>)
    requires DateTitle in titles
    requires forall i | 0 <= i < |rows| :: IndexOf(titles, DateTitle).value < |rows[i]|
    ensures var col := IndexOf(titles, DateTitle).value;
      && SeparateYearsData(rows, titles).Ok?
      && SeparateYearsData(rows, titles).value.names == Dedup(Names(rows, col))
      && (forall n | n in SeparateYearsData(rows, titles).value.rows ::
            SeparateYearsData(rows, titles).value.rows[n] == Named(rows, col, n))
      && SumOver(SeparateYearsData(rows, titles).value.names, Sizes(SeparateYearsData(rows, titles).value)) == |rows|
  {
    var col := IndexOf(titles, DateTitle).value;
    GroupContents(rows, col);
    GroupConserves(rows, col);
  }
}
