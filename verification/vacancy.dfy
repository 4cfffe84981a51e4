/** One vacancy posting: the record built from a CSV row (`dict(zip(header,
    row))`), the per-field conversion done by `Vacancy.formatter`, and the
    six attributes the statistics read. */
module Vacancies {

  import opened Results
  import opened Seqs

  /** The attributes `calculate_stat_values` reads from a posting. */
  datatype Vacancy = Vacancy(
    name: string,
    salaryFrom: real,
    salaryTo: real,
    currency: string,
    area: string,
    year: int)

  /** A converted cell: a salary bound, a publication year or text kept as is. */
  datatype Field = Number(number: real) | Year(year: int) | Text(text: string)

  /** The two conversions the formatter leaves to the Python runtime:
      `float(text)` and the year of a `%Y-%m-%dT%H:%M:%S%z` timestamp.
      `None` stands for the `ValueError` either one raises. */
  datatype Parsers = Parsers(toFloat: string -> Option<real>, toYear: string -> Option<int>)

  const SalaryFromKey := "salary_from"
  const SalaryToKey := "salary_to"
  const CurrencyKey := "salary_currency"
  const PublishedKey := "published_at"
  const AreaKey := "area_name"
  const NameKey := "name"

  /** The order in which the statistics loop reads the six attributes. */
  const ReadOrder: seq<string> := [SalaryFromKey, SalaryToKey, CurrencyKey, PublishedKey, AreaKey, NameKey]

  predicate IsSalaryKey(key: string) {
    key == SalaryFromKey || key == SalaryToKey
  }

  /** `Vacancy.formatter`: salary bounds become numbers, the publication
      timestamp becomes its year, every other cell stays text. */
  function Format(key: string, value: string, p: Parsers): (r: Result<Field>)
    ensures IsSalaryKey(key) ==>
      (r.Ok? <==> p.toFloat(value).Some?)
      && (r.Ok? ==> r.value == Number(p.toFloat(value).value))
      && (r.Err? ==> r.error == BadNumber(key, value))
    ensures key == PublishedKey ==>
      (r.Ok? <==> p.toYear(value).Some?)
      && (r.Ok? ==> r.value == Year(p.toYear(value).value))
      && (r.Err? ==> r.error == BadTimestamp(value))
    ensures !IsSalaryKey(key) && key != PublishedKey ==> r == Ok(Text(value))
  {
    if IsSalaryKey(key) then
      match p.toFloat(value)
      case Some(x) => Ok(Number(x))
      case None => Err(BadNumber(key, value))
    else if key == PublishedKey then
      match p.toYear(value)
      case Some(y) => Ok(Year(y))
      case None => Err(BadTimestamp(value))
    else
      Ok(Text(value))
  }

  /** A Python dict built from pairs: keys in order of first insertion, each
      holding the value inserted last. */
  datatype Record = Record(keys: seq<string>, values: map<string, string>)

  /** `dict(zip(header, row))`: `zip` stops at the shorter list and a
      repeated title keeps the cell that comes last. */
  function Zip(header: seq<string>, row: seq<string>): (r: Record)
    ensures Distinct(r.keys)
    ensures forall k | k in r.keys :: k in r.values
    ensures forall k | k in r.values :: k in r.keys
  {
    ZipFirst(header, row, ZipWidth(header, row))
  }

  /** `min(|header|, |row|)`: how many pairs `zip` yields. */
  function ZipWidth(header: seq<string>, row: seq<string>): nat {
    if |header| <= |row| then |header| else |row|
  }

  /** The dict built from the first `n` pairs. */
  function ZipFirst(header: seq<string>, row: seq<string>, n: nat): (r: Record)
    requires n <= |header| && n <= |row|
    ensures Distinct(r.keys)
    ensures forall k | k in r.keys :: k in r.values
    ensures forall k | k in r.values :: k in r.keys
  {
    if n == 0 then Record([], map[])
    else
      var rec := ZipFirst(header, row, n - 1);
      var k := header[n - 1];
      if k in rec.values then Record(rec.keys, rec.values[k := row[n - 1]])
      else
        DistinctAppend(rec.keys, k);
        Record(rec.keys + [k], rec.values[k := row[n - 1]])
  }

  /** `v` is the cell under the last occurrence of title `k` among the first
      `n` columns. */
  ghost predicate LastCell(header: seq<string>, row: seq<string>, n: nat, k: string, v: string)
    requires n <= |header| && n <= |row|
  {
    exists j | 0 <= j < n :: header[j] == k && v == row[j] && forall i | j < i < n :: header[i] != k
  }

  /** The record's keys are the titles of the zipped prefix in order of first
      appearance. */
  lemma {:induction false} ZipKeys(header: seq<string>, row: seq<string>, n: nat)
    requires n <= |header| && n <= |row|
    ensures ZipFirst(header, row, n).keys == Dedup(header[..n])
  {
    if n > 0 {
      ZipKeys(header, row, n - 1);
      assert header[..n][..n - 1] == header[..n - 1];
      assert (header[n - 1] in ZipFirst(header, row, n - 1).values) == (header[n - 1] in Dedup(header[..n - 1]));
    }
  }

  /** Each title of the record holds the cell of its last occurrence. */
  lemma {:induction false} ZipValues(header: seq<string>, row: seq<string>, n: nat)
    requires n <= |header| && n <= |row|
    ensures forall k | k in ZipFirst(header, row, n).values ::
      LastCell(header, row, n, k, ZipFirst(header, row, n).values[k])
  {
    if n > 0 {
      ZipValues(header, row, n - 1);
      var rec, r := ZipFirst(header, row, n - 1), ZipFirst(header, row, n);
      forall x | x in r.values ensures LastCell(header, row, n, x, r.values[x]) {
        if x == header[n - 1] {
          assert header[n - 1] == x && r.values[x] == row[n - 1];
        } else {
          assert LastCell(header, row, n - 1, x, rec.values[x]);
          var j :| 0 <= j < n - 1 && header[j] == x && rec.values[x] == row[j]
            && forall i | j < i < n - 1 :: header[i] != x;
          assert header[j] == x && r.values[x] == row[j];
        }
      }
    }
  }

  /** The attribute map of a `Vacancy` object: the fields set by
      `__setattr__(key, formatter(key, value))` in dict order; the first
      cell the formatter rejects aborts the construction. */
  function FormatRecord(keys: seq<string>, values: map<string, string>, p: Parsers): (r: Result<map<string, Field>>)
    requires forall k | k in keys :: k in values
    ensures r.Ok? ==> r.value.Keys == set k | k in keys
    ensures r.Ok? ==> forall k | k in r.value :: Format(k, values[k], p) == Ok(r.value[k])
    ensures r.Ok? <==> forall k | k in keys :: Format(k, values[k], p).Ok?
    ensures r.Err? ==> exists i | 0 <= i < |keys| ::
      && Format(keys[i], values[keys[i]], p) == Err(r.error)
      && forall j | 0 <= j < i :: Format(keys[j], values[keys[j]], p).Ok?
  {
    if |keys| == 0 then Ok(map[])
    else
      var init, k := keys[..|keys| - 1], keys[|keys| - 1];
      assert forall j | j in init :: j in keys;
      var prev := FormatRecord(init, values, p);
      if prev.Err? then
        FailsInFront(keys, values, p, prev.error);
        Err(prev.error)
      else
        match Format(k, values[k], p)
        case Err(e) =>
          FailsLast(keys, values, p);
          Err(e)
        case Ok(f) =>
          FormatsAll(keys, values, p, prev.value, f);
          Ok(prev.value[k := f])
  }

  /** Adding the last key's formatted cell to the object of the other keys
      gives the object of all keys. */
  lemma FormatsAll(keys: seq<string>, values: map<string, string>, p: Parsers, m: map<string, Field>, f: Field)
    requires |keys| > 0 && forall k | k in keys :: k in values
    requires var init := keys[..|keys| - 1];
      && m.Keys == (set k | k in init)
      && (forall k | k in m :: Format(k, values[k], p) == Ok(m[k]))
      && (forall k | k in init :: Format(k, values[k], p).Ok?)
    requires Format(keys[|keys| - 1], values[keys[|keys| - 1]], p) == Ok(f)
    ensures var r := m[keys[|keys| - 1] := f];
      && r.Keys == (set k | k in keys)
      && (forall k | k in r :: Format(k, values[k], p) == Ok(r[k]))
      && (forall k | k in keys :: Format(k, values[k], p).Ok?)
  {
    SplitLast(keys);
  }

  /** A failure among all keys but the last is a failure among all keys,
      with the same keys formatting before it. */
  lemma FailsInFront(keys: seq<string>, values: map<string, string>, p: Parsers, e: Error)
    requires |keys| > 0 && forall k | k in keys :: k in values
    requires var init := keys[..|keys| - 1]; exists i | 0 <= i < |init| ::
      && Format(init[i], values[init[i]], p) == Err(e)
      && forall j | 0 <= j < i :: Format(init[j], values[init[j]], p).Ok?
    ensures exists i | 0 <= i < |keys| ::
      && Format(keys[i], values[keys[i]], p) == Err(e)
      && forall j | 0 <= j < i :: Format(keys[j], values[keys[j]], p).Ok?
  {
    var init := keys[..|keys| - 1];
    var i :| 0 <= i < |init| && Format(init[i], values[init[i]], p) == Err(e)
      && forall j | 0 <= j < i :: Format(init[j], values[init[j]], p).Ok?;
    assert forall j | 0 <= j <= i :: init[j] == keys[j];
  }

  /** When every key but the last formats, a failure is the last key's. */
  lemma FailsLast(keys: seq<string>, values: map<string, string>, p: Parsers)
    requires |keys| > 0 && forall k | k in keys :: k in values
    requires forall k | k in keys[..|keys| - 1] :: Format(k, values[k], p).Ok?
    requires Format(keys[|keys| - 1], values[keys[|keys| - 1]], p).Err?
    ensures exists i | 0 <= i < |keys| ::
      && Format(keys[i], values[keys[i]], p) == Err(Format(keys[|keys| - 1], values[keys[|keys| - 1]], p).error)
      && forall j | 0 <= j < i :: Format(keys[j], values[keys[j]], p).Ok?
  {
    var init := keys[..|keys| - 1];
    forall j | 0 <= j < |keys| - 1 ensures Format(keys[j], values[keys[j]], p).Ok? {
      assert keys[j] == init[j] && init[j] in init;
    }
  }

  /** `Vacancy(dict(zip(header, row)))`. */
  function Build(header: seq<string>, row: seq<string>, p: Parsers): (r: Result<map<string, Field>>)
    ensures r.Ok? ==> WellTyped(r.value)
    ensures var rec := Zip(header, row); r.Err? ==> exists i | 0 <= i < |rec.keys| ::
      && Format(rec.keys[i], rec.values[rec.keys[i]], p) == Err(r.error)
      && forall j | 0 <= j < i :: Format(rec.keys[j], rec.values[rec.keys[j]], p).Ok?
  {
    var rec := Zip(header, row);
    FormatRecord(rec.keys, rec.values, p)
  }

  /** Every attribute has the kind the formatter gives its name. */
  ghost predicate WellTyped(obj: map<string, Field>) {
    forall k | k in obj ::
      (IsSalaryKey(k) ==> obj[k].Number?)
      && (k == PublishedKey ==> obj[k].Year?)
      && (!IsSalaryKey(k) && k != PublishedKey ==> obj[k].Text?)
  }

  /** Reading the six attributes in the order the statistics loop does;
      an absent one is an `AttributeError`. */
  function ToVacancy(obj: map<string, Field>): (r: Result<Vacancy>)
    requires WellTyped(obj)
    ensures r.Ok? <==> (SalaryFromKey in obj && SalaryToKey in obj && CurrencyKey in obj
      && PublishedKey in obj && AreaKey in obj && NameKey in obj)
    ensures r.Ok? ==> r.value == Vacancy(obj[NameKey].text, obj[SalaryFromKey].number,
      obj[SalaryToKey].number, obj[CurrencyKey].text, obj[AreaKey].text, obj[PublishedKey].year)
    ensures r.Err? ==> exists i | 0 <= i < |ReadOrder| ::
      && r.error == MissingField(ReadOrder[i])
      && ReadOrder[i] !in obj
      && forall j | 0 <= j < i :: ReadOrder[j] in obj
  {
    assert ReadOrder[0] == SalaryFromKey && ReadOrder[1] == SalaryToKey && ReadOrder[2] == CurrencyKey;
    assert ReadOrder[3] == PublishedKey && ReadOrder[4] == AreaKey && ReadOrder[5] == NameKey;
    if SalaryFromKey !in obj then Err(MissingField(SalaryFromKey))
    else if SalaryToKey !in obj then Err(MissingField(SalaryToKey))
    else if CurrencyKey !in obj then Err(MissingField(CurrencyKey))
    else if PublishedKey !in obj then Err(MissingField(PublishedKey))
    else if AreaKey !in obj then Err(MissingField(AreaKey))
    else if NameKey !in obj then Err(MissingField(NameKey))
    else
      Ok(Vacancy(obj[NameKey].text, obj[SalaryFromKey].number, obj[SalaryToKey].number,
        obj[CurrencyKey].text, obj[AreaKey].text, obj[PublishedKey].year))
  }

  /** A row of a full-width header yields a vacancy exactly when the six
      titles are present and its salary and date cells parse; the vacancy
      then carries the converted cells. */
  lemma BuildVacancy(header: seq<string>, row: seq<string>, p: Parsers)
    requires |row| == |header|
    requires Build(header, row, p).Ok?
    ensures var r := ToVacancy(Build(header, row, p).value);
      r.Ok? <==> (SalaryFromKey in header && SalaryToKey in header && CurrencyKey in header
        && PublishedKey in header && AreaKey in header && NameKey in header)
  {
    ZipKeys(header, row, |header|);
    assert header[..|header|] == header;
  }
}
