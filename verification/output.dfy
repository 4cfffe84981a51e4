/** `generate_output`: every admitted row becomes a `Vacancy` object, and the
    objects go through `compile_data`. Printing the six results is not
    modelled; the report itself is the result. */
module Output {

  import opened Results
  import opened Vacancies
  import Currency
  import Constractor

  /** A `Vacancy` object: attributes of the kinds the formatter gives. */
  type Attributes = obj: map<string, Field> | WellTyped(obj) witness map[]

  /** One row: `Vacancy(dict(zip(header, row)))`. */
  function Posting(header: seq<string>, row: seq<string>, p: Parsers): (r: Result<Attributes>)
    ensures r.Ok? <==> Build(header, row, p).Ok?
    ensures r.Ok? ==> r.value == Build(header, row, p).value
    ensures r.Err? ==> r.error == Build(header, row, p).error
  {
    var obj :- Build(header, row, p);
    Ok(obj)
  }

  /** Applies `f` to every element in order; the first failure stops the
      loop with its error. */
  function Traverse<X, T>(xs: seq<X>, f: X -> Result<T>): (r: Result<seq<T>>)
    ensures r.Ok? <==> forall i | 0 <= i < |xs| :: f(xs[i]).Ok?
    ensures r.Ok? ==> |r.value| == |xs|
    ensures r.Ok? ==> forall i | 0 <= i < |xs| :: f(xs[i]) == Ok(r.value[i])
    ensures r.Err? ==> exists i | 0 <= i < |xs| ::
      && f(xs[i]) == Err(r.error)
      && forall j | 0 <= j < i :: f(xs[j]).Ok?
  {
    if |xs| == 0 then Ok([])
    else
      var init := xs[..|xs| - 1];
      assert forall i | 0 <= i < |init| :: init[i] == xs[i];
      var ys :- Traverse(init, f);
      var y :- f(xs[|xs| - 1]);
      Ok(ys + [y])
  }

  /** The loop of `generate_output`: the objects of `rows`, in order; the
      first row the formatter rejects stops the loop with its error. */
  function Postings(header: seq<string>, rows: seq<seq<string>>, p: Parsers): (r: Result<seq<Attributes>>)
    ensures r.Ok? <==> forall i | 0 <= i < |rows| :: Build(header, rows[i], p).Ok?
    ensures r.Ok? ==> |r.value| == |rows|
    ensures r.Ok? ==> forall i | 0 <= i < |rows| :: Build(header, rows[i], p) == Ok(r.value[i])
    ensures r.Err? ==> exists i | 0 <= i < |rows| ::
      && Build(header, rows[i], p) == Err(r.error)
      && forall j | 0 <= j < i :: Build(header, rows[j], p).Ok?
  {
    Traverse(rows, row => Posting(header, row, p))
  }

  /** What one turn of the statistics loop reads from an object, in the
      order it reads it: both salary bounds, the currency and its rate, the
      year, the town and the title. A missing attribute is an
      `AttributeError`, a currency outside the table a `KeyError`. */
  function Read(obj: Attributes): (r: Result<Vacancy>)
    ensures r.Ok? <==> ToVacancy(obj).Ok? && ToVacancy(obj).value.currency in Currency.Rates
    ensures r.Ok? ==> r == ToVacancy(obj)
    ensures !(SalaryFromKey in obj && SalaryToKey in obj && CurrencyKey in obj) ==> r == ToVacancy(obj)
    ensures SalaryFromKey in obj && SalaryToKey in obj && CurrencyKey in obj ==>
      if obj[CurrencyKey].text in Currency.Rates then r == ToVacancy(obj)
      else r == Err(UnknownCurrency(obj[CurrencyKey].text))
  {
    if SalaryFromKey !in obj then Err(MissingField(SalaryFromKey))
    else if SalaryToKey !in obj then Err(MissingField(SalaryToKey))
    else if CurrencyKey !in obj then Err(MissingField(CurrencyKey))
    else
      var _ :- Currency.Rate(obj[CurrencyKey].text);
      if PublishedKey !in obj then Err(MissingField(PublishedKey))
      else if AreaKey !in obj then Err(MissingField(AreaKey))
      else if NameKey !in obj then Err(MissingField(NameKey))
      else
        Ok(Vacancy(obj[NameKey].text, obj[SalaryFromKey].number, obj[SalaryToKey].number,
          obj[CurrencyKey].text, obj[AreaKey].text, obj[PublishedKey].year))
  }

  /** The statistics loop's reads of every object, in order: it stops at
      the first object it cannot read; the vacancies it reads all have a
      known currency. */
  function Reads(objs: seq<Attributes>): (r: Result<seq<Vacancy>>)
    ensures r.Ok? <==> forall i | 0 <= i < |objs| :: Read(objs[i]).Ok?
    ensures r.Ok? ==> |r.value| == |objs|
    ensures r.Ok? ==> forall i | 0 <= i < |objs| :: ToVacancy(objs[i]) == Ok(r.value[i])
    ensures r.Ok? ==> Constractor.AllKnown(r.value)
    ensures r.Err? ==> exists i | 0 <= i < |objs| ::
      && Read(objs[i]) == Err(r.error)
      && forall j | 0 <= j < i :: Read(objs[j]).Ok?
  {
    var r := Traverse(objs, Read);
    assert r.Ok? ==> Constractor.AllKnown(r.value) by {
      if r.Ok? {
        forall v | v in r.value ensures v.currency in Currency.Rates {
          var i :| 0 <= i < |r.value| && r.value[i] == v;
          assert Read(objs[i]) == Ok(r.value[i]);
        }
      }
    }
    r
  }

  /** The statistics pass over the built objects: it stops at the first
      object it cannot read, and otherwise compiles the vacancies read. */
  function Compile(objs: seq<Attributes>, prof: string): (r: Result<Constractor.Report>)
    ensures r.Ok? <==> forall i | 0 <= i < |objs| :: Read(objs[i]).Ok?
    ensures r.Err? ==> exists i | 0 <= i < |objs| ::
      && Read(objs[i]) == Err(r.error)
      && forall j | 0 <= j < i :: Read(objs[j]).Ok?
    ensures r.Ok? ==> exists vs: seq<Vacancy> ::
      && |vs| == |objs|
      && (forall i | 0 <= i < |objs| :: ToVacancy(objs[i]) == Ok(vs[i]))
      && r == Constractor.CompileData(vs, prof)
  {
    var vs :- Reads(objs);
    Constractor.CompileData(vs, prof)
  }

  /** `generate_output(data_vacancies, position_title)`: the objects are
      built first, so a cell the formatter rejects is reported before any
      attribute is read; then the statistics pass reads each object in
      turn and stops at the first one it cannot read. */
  function GenerateOutput(header: seq<string>, rows: seq<seq<string>>, prof: string, p: Parsers)
    : (r: Result<Constractor.Report>)
    ensures Postings(header, rows, p).Err? ==> r == Err(Postings(header, rows, p).error)
    ensures Postings(header, rows, p).Ok? ==> var objs := Postings(header, rows, p).value;
      && (r.Ok? <==> forall i | 0 <= i < |objs| :: Read(objs[i]).Ok?)
      && (r.Err? ==> exists i | 0 <= i < |objs| ::
            && Read(objs[i]) == Err(r.error)
            && forall j | 0 <= j < i :: Read(objs[j]).Ok?)
    ensures r.Ok? ==> Postings(header, rows, p).Ok? && var objs := Postings(header, rows, p).value;
      exists vs: seq<Vacancy> ::
        && |vs| == |objs|
        && (forall i | 0 <= i < |objs| :: ToVacancy(objs[i]) == Ok(vs[i]))
        && r == Constractor.CompileData(vs, prof)
  {
    var objs :- Postings(header, rows, p);
    Compile(objs, prof)
  }
}
