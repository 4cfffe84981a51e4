/** `Constractor`: one pass over the postings fills six accumulators; the
    report then reconciles the profession's year tables with the overall
    ones and cuts the two city tables. */
module Constractor {

  import opened Results
  import opened Seqs
  import opened Numeric
  import opened StableSort
  import opened Vacancies
  import Currency
  import S = SalaryDicts
  import C = CountDicts

  /** The six accumulators `Constractor.__init__` creates. */
  datatype Stats = Stats(
    yearSalary: S.SalaryDict<int>,
    yearCount: C.CountDict<int>,
    profSalary: S.SalaryDict<int>,
    profCount: C.CountDict<int>,
    townSalary: S.SalaryDict<string>,
    townRating: C.CountDict<string>)

  ghost predicate Valid(st: Stats) {
    && S.Valid(st.yearSalary) && C.Valid(st.yearCount)
    && S.Valid(st.profSalary) && C.Valid(st.profCount)
    && S.Valid(st.townSalary) && C.Valid(st.townRating)
  }

  function Initial(): (st: Stats)
    ensures Valid(st)
  {
    Stats(S.Empty(), C.Empty(), S.Empty(), C.Empty(), S.Empty(), C.Empty())
  }

  /** Python's `sub in s` on strings. */
  function Contains(s: string, sub: string): bool {
    if |sub| > |s| then false
    else if s[..|sub|] == sub then true
    else Contains(s[1..], sub)
  }

  /** `sub` occurs in `s` starting at position `i`. */
  predicate OccursAt(s: string, sub: string, i: nat) {
    i + |sub| <= |s| && s[i..i + |sub|] == sub
  }

  /** `sub in s` holds exactly when `sub` occurs at some position of `s`. */
  lemma {:induction false} ContainsOccurs(s: string, sub: string)
    ensures Contains(s, sub) <==> exists i: nat :: OccursAt(s, sub, i)
  {
    if |sub| <= |s| && s[..|sub|] != sub {
      ContainsOccurs(s[1..], sub);
      if exists i: nat :: OccursAt(s, sub, i) {
        var i: nat :| OccursAt(s, sub, i);
        assert i > 0;
        assert s[1..][i - 1..i - 1 + |sub|] == sub;
        assert OccursAt(s[1..], sub, i - 1);
      }
      if exists i: nat :: OccursAt(s[1..], sub, i) {
        var i: nat :| OccursAt(s[1..], sub, i);
        assert s[i + 1..i + 1 + |sub|] == sub;
        assert OccursAt(s, sub, i + 1);
      }
    } else if |sub| <= |s| {
      assert OccursAt(s, sub, 0);
    }
  }

  /** Every posting's currency is in the rate table. */
  ghost predicate AllKnown(vs: seq<Vacancy>) {
    forall v | v in vs :: v.currency in Currency.Rates
  }

  /** One turn of the loop in `calculate_stat_values`: the salary is
      converted (an unknown currency aborts the pass), then filed by year
      and by town, and by year once more when the title contains `prof`. */
  function Feed(st: Stats, v: Vacancy, prof: string): (r: Result<Stats>)
    requires Valid(st)
    ensures r.Ok? <==> v.currency in Currency.Rates
    ensures r.Err? ==> r.error == UnknownCurrency(v.currency)
    ensures r.Ok? ==> Valid(r.value)
  {
    var salary :- Currency.Normalize(v.salaryFrom, v.salaryTo, v.currency);
    var all := st.(
      yearSalary := S.AppendSalary(st.yearSalary, v.year, salary),
      yearCount := C.UpdateAmount(st.yearCount, v.year),
      townSalary := S.AppendSalary(st.townSalary, v.area, salary),
      townRating := C.UpdateAmount(st.townRating, v.area));
    if Contains(v.name, prof) then
      Ok(all.(
        profSalary := S.AppendSalary(st.profSalary, v.year, salary),
        profCount := C.UpdateAmount(st.profCount, v.year)))
    else
      Ok(all)
  }

  /** `calculate_stat_values` on fresh accumulators: it succeeds exactly
      when every currency is known. */
  function CalculateStatValues(vs: seq<Vacancy>, prof: string): (r: Result<Stats>)
    ensures r.Ok? <==> AllKnown(vs)
    ensures r.Ok? ==> Valid(r.value)
  {
    if |vs| == 0 then Ok(Initial())
    else
      var init, v := vs[..|vs| - 1], vs[|vs| - 1];
      KnownSnoc(init, v);
      assert init + [v] == vs;
      var st :- CalculateStatValues(init, prof);
      Feed(st, v, prof)
  }

  lemma KnownSnoc(vs: seq<Vacancy>, v: Vacancy)
    ensures AllKnown(vs + [v]) <==> AllKnown(vs) && v.currency in Currency.Rates
  {
    assert v in vs + [v];
    assert forall u | u in vs :: u in vs + [v];
  }

  /** A failing pass reports the first posting whose currency is unknown. */
  lemma {:induction false} CalculateStatValuesFails(vs: seq<Vacancy>, prof: string)
    requires CalculateStatValues(vs, prof).Err?
    ensures exists i | 0 <= i < |vs| ::
      && vs[i].currency !in Currency.Rates
      && CalculateStatValues(vs, prof).error == UnknownCurrency(vs[i].currency)
      && AllKnown(vs[..i])
  {
    var init := vs[..|vs| - 1];
    var p, r := CalculateStatValues(init, prof), CalculateStatValues(vs, prof);
    PassStep(vs, prof);
    if p.Err? {
      CalculateStatValuesFails(init, prof);
    }
    FirstUnknown(vs, init, p, r);
  }

  /** The step of `CalculateStatValuesFails`: the first unknown currency is
      in the prefix when the prefix failed, and is the last one otherwise. */
  lemma FirstUnknown(vs: seq<Vacancy>, init: seq<Vacancy>, p: Result<Stats>, r: Result<Stats>)
    requires |vs| > 0 && init == vs[..|vs| - 1] && r.Err?
    requires p.Err? ==> (r.error == p.error && exists i | 0 <= i < |init| ::
      && init[i].currency !in Currency.Rates
      && p.error == UnknownCurrency(init[i].currency)
      && AllKnown(init[..i]))
    requires p.Ok? ==> (AllKnown(init)
      && vs[|vs| - 1].currency !in Currency.Rates && r.error == UnknownCurrency(vs[|vs| - 1].currency))
    ensures exists i | 0 <= i < |vs| ::
      && vs[i].currency !in Currency.Rates
      && r.error == UnknownCurrency(vs[i].currency)
      && AllKnown(vs[..i])
  {
    if p.Err? {
      var i :| 0 <= i < |init| && init[i].currency !in Currency.Rates
        && p.error == UnknownCurrency(init[i].currency)
        && AllKnown(init[..i]);
      assert init[..i] == vs[..i] && init[i] == vs[i];
    } else {
      assert vs[..|vs| - 1] == init;
    }
  }

  /** The pass over `vs` is the pass over all but the last posting, then
      one more turn unless that already failed. */
  lemma PassStep(vs: seq<Vacancy>, prof: string)
    requires |vs| > 0
    ensures var p := CalculateStatValues(vs[..|vs| - 1], prof);
      && (p.Err? ==> CalculateStatValues(vs, prof) == Err(p.error))
      && (p.Ok? ==> CalculateStatValues(vs, prof) == Feed(p.value, vs[|vs| - 1], prof))
  {
  }

  /** The postings whose title contains `prof`, in order. */
  function Matching(vs: seq<Vacancy>, prof: string): (r: seq<Vacancy>)
    ensures forall v | v in r :: v in vs
  {
    if |vs| == 0 then []
    else
      var init := Matching(vs[..|vs| - 1], prof);
      if Contains(vs[|vs| - 1].name, prof) then init + [vs[|vs| - 1]] else init
  }

  /** A posting's salary in roubles. */
  function SalaryOf(v: Vacancy): real
    requires v.currency in Currency.Rates
  {
    Currency.Normalize(v.salaryFrom, v.salaryTo, v.currency).value
  }

  function Years(vs: seq<Vacancy>): (r: seq<int>)
    ensures |r| == |vs|
    ensures forall i | 0 <= i < |vs| :: r[i] == vs[i].year
  {
    if |vs| == 0 then [] else Years(vs[..|vs| - 1]) + [vs[|vs| - 1].year]
  }

  function Towns(vs: seq<Vacancy>): (r: seq<string>)
    ensures |r| == |vs|
    ensures forall i | 0 <= i < |vs| :: r[i] == vs[i].area
  {
    if |vs| == 0 then [] else Towns(vs[..|vs| - 1]) + [vs[|vs| - 1].area]
  }

  function YearPairs(vs: seq<Vacancy>): (r: seq<(int, real)>)
    requires AllKnown(vs)
    ensures |r| == |vs|
    ensures forall i | 0 <= i < |vs| :: r[i] == (vs[i].year, SalaryOf(vs[i]))
  {
    if |vs| == 0 then []
    else
      assert forall v | v in vs[..|vs| - 1] :: v in vs;
      YearPairs(vs[..|vs| - 1]) + [(vs[|vs| - 1].year, SalaryOf(vs[|vs| - 1]))]
  }

  function TownPairs(vs: seq<Vacancy>): (r: seq<(string, real)>)
    requires AllKnown(vs)
    ensures |r| == |vs|
    ensures forall i | 0 <= i < |vs| :: r[i] == (vs[i].area, SalaryOf(vs[i]))
  {
    if |vs| == 0 then []
    else
      assert forall v | v in vs[..|vs| - 1] :: v in vs;
      TownPairs(vs[..|vs| - 1]) + [(vs[|vs| - 1].area, SalaryOf(vs[|vs| - 1]))]
  }

  /** The six accumulators, each built by its own fold over the postings. */
  function Folds(vs: seq<Vacancy>, prof: string): Stats
    requires AllKnown(vs)
  {
    var ms := Matching(vs, prof);
    Stats(
      S.FromPairs(YearPairs(vs)), C.FromKeys(Years(vs)),
      S.FromPairs(YearPairs(ms)), C.FromKeys(Years(ms)),
      S.FromPairs(TownPairs(vs)), C.FromKeys(Towns(vs)))
  }

  /** The single interleaved pass fills each accumulator exactly as a
      separate pass over its own keys would. */
  lemma {:induction false} StatsAreFolds(vs: seq<Vacancy>, prof: string)
    requires AllKnown(vs)
    ensures CalculateStatValues(vs, prof) == Ok(Folds(vs, prof))
  {
    if |vs| > 0 {
      var init, v := vs[..|vs| - 1], vs[|vs| - 1];
      assert AllKnown(init) && v in vs;
      PassStep(vs, prof);
      StatsAreFolds(init, prof);
      FeedFolds(init, v, prof);
      SplitLast(vs);
    }
  }

  /** One more posting turns the folds over `vs` into the folds over
      `vs + [v]`. */
  lemma FeedFolds(vs: seq<Vacancy>, v: Vacancy, prof: string)
    requires AllKnown(vs) && v.currency in Currency.Rates
    ensures AllKnown(vs + [v])
    ensures Feed(Folds(vs, prof), v, prof) == Ok(Folds(vs + [v], prof))
  {
    KnownSnoc(vs, v);
    var ws := vs + [v];
    ProjectionsSnoc(vs, v);
    var salary := SalaryOf(v);
    S.FromPairsSnoc(YearPairs(vs), v.year, salary);
    S.FromPairsSnoc(TownPairs(vs), v.area, salary);
    C.FromKeysSnoc(Years(vs), v.year);
    C.FromKeysSnoc(Towns(vs), v.area);
    var ms := Matching(vs, prof);
    if Contains(v.name, prof) {
      assert Matching(ws, prof) == ms + [v];
      ProjectionsSnoc(ms, v);
      S.FromPairsSnoc(YearPairs(ms), v.year, salary);
      C.FromKeysSnoc(Years(ms), v.year);
    } else {
      assert Matching(ws, prof) == ms;
    }
    FeedIs(Folds(vs, prof), Folds(ws, prof), v, prof);
  }

  /** `Feed` is the accumulator update its six fields describe. */
  lemma FeedIs(st: Stats, next: Stats, v: Vacancy, prof: string)
    requires Valid(st) && v.currency in Currency.Rates
    requires next.yearSalary == S.AppendSalary(st.yearSalary, v.year, SalaryOf(v))
    requires next.yearCount == C.UpdateAmount(st.yearCount, v.year)
    requires next.townSalary == S.AppendSalary(st.townSalary, v.area, SalaryOf(v))
    requires next.townRating == C.UpdateAmount(st.townRating, v.area)
    requires Contains(v.name, prof) ==> next.profSalary == S.AppendSalary(st.profSalary, v.year, SalaryOf(v))
    requires Contains(v.name, prof) ==> next.profCount == C.UpdateAmount(st.profCount, v.year)
    requires !Contains(v.name, prof) ==> next.profSalary == st.profSalary && next.profCount == st.profCount
    ensures Feed(st, v, prof) == Ok(next)
  {
  }

  lemma ProjectionsSnoc(vs: seq<Vacancy>, v: Vacancy)
    requires AllKnown(vs) && v.currency in Currency.Rates
    ensures AllKnown(vs + [v])
    ensures YearPairs(vs + [v]) == YearPairs(vs) + [(v.year, SalaryOf(v))]
    ensures TownPairs(vs + [v]) == TownPairs(vs) + [(v.area, SalaryOf(v))]
    ensures Years(vs + [v]) == Years(vs) + [v.year]
    ensures Towns(vs + [v]) == Towns(vs) + [v.area]
  {
    KnownSnoc(vs, v);
    assert (vs + [v])[..|vs|] == vs;
  }

  /** What `compile_data` returns: average salary and number of postings
      per year, the same two for the chosen profession, average salary by
      city and share of postings by city, the city tables largest first. */
  datatype Report = Report(
    yearSalary: map<int, int>,
    yearCount: map<int, nat>,
    profSalary: map<int, int>,
    profCount: map<int, nat>,
    townSalary: seq<(string, int)>,
    townShare: seq<(string, real)>)

  /** Every year of `keys` with its value in `mine`, or `zero` when `mine`
      lacks it. */
  function ZeroFill<V>(keys: set<int>, mine: map<int, V>, zero: V): (r: map<int, V>)
    ensures r.Keys == keys
    ensures forall y | y in keys :: r[y] == if y in mine then mine[y] else zero
  {
    map y | y in keys :: if y in mine then mine[y] else zero
  }

  /** The profession's year salaries brought onto the overall years: every
      list replaced by `[0]` when no posting matched, the missing years set
      to 0 when the two key counts differ (`set_key_to_zero`), and the
      profession's averages as they are otherwise. When the profession's
      years are among the overall ones, every overall year gets the
      profession's average, or 0 when it has no matching posting. */
  function ReconcileSalary(all: S.SalaryDict<int>, prof: S.SalaryDict<int>): (r: map<int, int>)
    requires S.Valid(all) && S.Valid(prof)
    ensures prof.lists.Keys <= all.lists.Keys ==> r == ZeroFill(all.lists.Keys, S.Averages(prof), 0)
  {
    var mine := S.Averages(prof);
    var r :=
      if prof.lists == map[] then map y | y in all.lists.Keys :: Trunc(Mean([0.0]))
      else if |S.Averages(all)| != |mine| then mine + map y | y in all.lists.Keys && y !in mine :: 0
      else mine;
    assert prof.lists.Keys <= all.lists.Keys ==> r == ZeroFill(all.lists.Keys, mine, 0) by {
      if prof.lists.Keys <= all.lists.Keys {
        ZeroFilled(all.lists.Keys, mine, 0);
        if prof.lists == map[] {
          assert Mean([0.0]) == 0.0;
        } else if |S.Averages(all)| == |mine| {
          SameSizeSubset(prof.lists.Keys, all.lists.Keys);
        }
      }
    }
    r
  }

  /** Filling the missing keys of `mine` with `zero`, in each of the three
      shapes `compile_data` uses. */
  lemma ZeroFilled<V>(keys: set<int>, mine: map<int, V>, zero: V)
    requires mine.Keys <= keys
    ensures mine + (map y | y in keys && y !in mine :: zero) == ZeroFill(keys, mine, zero)
    ensures mine.Keys == keys ==> mine == ZeroFill(keys, mine, zero)
    ensures mine == map[] ==> (map y | y in keys :: zero) == ZeroFill(keys, mine, zero)
  {
    var want := ZeroFill(keys, mine, zero);
    var filled := mine + (map y | y in keys && y !in mine :: zero);
    assert filled.Keys == want.Keys;
    assert forall y | y in want :: filled[y] == want[y];
    if mine.Keys == keys {
      assert mine.Keys == want.Keys;
    }
  }

  /** A subset as large as its superset is the whole superset. */
  lemma SameSizeSubset<T>(a: set<T>, b: set<T>)
    requires a <= b && |a| == |b|
    ensures a == b
  {
    if a != b {
      var x :| x in b && x !in a;
      assert a <= b - {x};
      SubsetSize(a, b - {x});
    }
  }

  lemma {:induction false} SubsetSize<T>(a: set<T>, b: set<T>)
    requires a <= b
    ensures |a| <= |b|
  {
    if a != {} {
      var x :| x in a;
      SubsetSize(a - {x}, b - {x});
    }
  }

  /** The profession's year counts brought onto the overall years, as
      `compile_data` does for `year_position_vacancy_amount`: zeros when no
      posting matched, the missing years set to 0 when the key counts
      differ, unchanged otherwise. When the profession's years are among the
      overall ones, every overall year gets the profession's count, or 0. */
  function ReconcileCount(all: C.CountDict<int>, prof: C.CountDict<int>): (r: map<int, nat>)
    requires C.Valid(all) && C.Valid(prof)
    ensures prof.amounts.Keys <= all.amounts.Keys ==> r == ZeroFill<nat>(all.amounts.Keys, prof.amounts, 0)
  {
    var mine := prof.amounts;
    var r :=
      if mine == map[] then map y | y in all.amounts.Keys :: 0
      else if |all.amounts| != |mine| then mine + map y | y in all.amounts.Keys && y !in mine :: 0
      else mine;
    assert mine.Keys <= all.amounts.Keys ==> r == ZeroFill<nat>(all.amounts.Keys, mine, 0) by {
      if mine.Keys <= all.amounts.Keys {
        CountBranches(all.amounts, mine, r);
      }
    }
    r
  }

  lemma CountBranches(all: map<int, nat>, mine: map<int, nat>, r: map<int, nat>)
    requires mine.Keys <= all.Keys
    requires r ==
      if mine == map[] then map y | y in all.Keys :: 0
      else if |all| != |mine| then mine + map y | y in all.Keys && y !in mine :: 0
      else mine
    ensures r == ZeroFill<nat>(all.Keys, mine, 0)
  {
    ZeroFilled<nat>(all.Keys, mine, 0);
    if mine != map[] && |all| == |mine| {
      SameSizeSubset(mine.Keys, all.Keys);
    }
  }

  const Russia := "Россия"

  function SalaryScore(e: (string, int)): real {
    e.1 as real
  }

  /** `calculate_highest_average_salary`, first loops: for each city in
      dict order, its truncated mean salary, unless the city holds less than
      one percent of all salaries (rounded to one decimal) or is Russia. */
  function CityRows(d: S.SalaryDict<string>, keys: seq<string>, total: nat): (r: seq<(string, int)>)
    requires S.Valid(d)
    requires forall k | k in keys :: k in d.lists
    requires keys != [] ==> total > 0
    ensures forall e | e in r :: e.0 in keys && e.0 != Russia && e.1 == Trunc(Mean(d.lists[e.0]))
  {
    if |keys| == 0 then []
    else
      var town := keys[0];
      var percentage := Round(100.0 * |d.lists[town]| as real / total as real, 1);
      (if percentage < 1.0 || town == Russia then [] else [(town, Trunc(Mean(d.lists[town])))])
      + CityRows(d, keys[1..], total)
  }

  /** `calculate_highest_average_salary`: the ten best kept cities by
      average salary, largest first, ties in dict order. */
  function CitySalaryTable(d: S.SalaryDict<string>): (r: seq<(string, int)>)
    requires S.Valid(d)
  {
    Top(CityRows(d, d.keys, SalaryTotal(d)), SalaryScore, 10)
  }

  /** `find_highest_town_rating`: Russia is dropped from the counts (but not
      from the total), the remaining cities with a share of at least 0.01
      get their share rounded to four decimals, and the ten largest shares
      are kept, ties in dict order. */
  function CityShareTable(d: C.CountDict<string>): (r: seq<(string, real)>)
    requires C.Valid(d)
  {
    Top(ShareRows(d), C.ShareOf, 10)
  }

  /** `compile_data`: the pass over the postings, then the tables. It fails
      exactly when some posting's currency is unknown, with the pass's error. */
  function CompileData(vs: seq<Vacancy>, prof: string): (r: Result<Report>)
    ensures r.Ok? <==> AllKnown(vs)
    ensures r.Err? ==> CalculateStatValues(vs, prof).Err? && r.error == CalculateStatValues(vs, prof).error
  {
    var st :- CalculateStatValues(vs, prof);
    Ok(Assemble(st))
  }

  /** The part of `compile_data` after the pass: the two reconciliations,
      `calculate_proportion` on the city counter and the two city tables. */
  function Assemble(st: Stats): Report
    requires Valid(st)
  {
    var rating := C.CalculateProportion(st.townRating);
    Report(
      S.Averages(st.yearSalary), st.yearCount.amounts,
      ReconcileSalary(st.yearSalary, st.profSalary), ReconcileCount(st.yearCount, st.profCount),
      CitySalaryTable(st.townSalary), CityShareTable(rating))
  }

  /** A city keeps its row exactly when its rounded percentage of all
      salaries is not below 1, which in whole numbers reads
      `2000 * count >= 19 * total` (0.95% and above). */
  lemma KeptPercentage(count: nat, total: nat)
    requires total > 0
    ensures !(Round(100.0 * count as real / total as real, 1) < 1.0) <==> 2000 * count >= 19 * total
  {
    RoundOneDigitBelowOne(100.0 * count as real / total as real);
    PercentBelow(count, total);
  }

  lemma PercentBelow(count: nat, total: nat)
    requires total > 0
    ensures 100.0 * count as real / total as real < 0.95 <==> 2000 * count < 19 * total
  {
    var c, t := count as real, total as real;
    var x := 100.0 * c / t;
    assert x * t == 100.0 * c;
    ScaleLess(x, 0.95, t);
    assert (2000 * count) as real == 20.0 * (100.0 * c);
    assert (19 * total) as real == 20.0 * (0.95 * t);
  }

  lemma ScaleLess(a: real, b: real, t: real)
    requires t > 0.0
    ensures a < b <==> a * t < b * t
  {
  }

  /** The rows of `CityRows` are exactly the cities of `keys` other than
      Russia with at least 0.95% of the salaries, each with its truncated
      mean salary. */
  lemma {:induction false} CityRowsMembers(d: S.SalaryDict<string>, keys: seq<string>, total: nat)
    requires S.Valid(d)
    requires forall k | k in keys :: k in d.lists
    requires keys != [] ==> total > 0
    ensures forall e | e in CityRows(d, keys, total) ::
      e.0 in keys && e.0 != Russia && 2000 * |d.lists[e.0]| >= 19 * total
    ensures forall t | t in keys && t != Russia && 2000 * |d.lists[t]| >= 19 * total ::
      (t, Trunc(Mean(d.lists[t]))) in CityRows(d, keys, total)
  {
    if |keys| > 0 {
      CityRowsMembers(d, keys[1..], total);
      KeptPercentage(|d.lists[keys[0]]|, total);
      var rest := CityRows(d, keys[1..], total);
      assert forall t | t in keys && t != keys[0] :: t in keys[1..];
      assert forall e | e in rest :: e in CityRows(d, keys, total);
    }
  }

  /** The total number of salaries, which is positive once a city is known. */
  function SalaryTotal(d: S.SalaryDict<string>): (total: nat)
    requires S.Valid(d)
    ensures d.keys != [] ==> total > 0
  {
    var total := SumOver(d.keys, S.Sizes(d));
    assert d.keys != [] ==> total > 0 by {
      if d.keys != [] {
        assert d.keys[0] in d.lists;
        SumOverAtLeast(d.keys, S.Sizes(d), d.keys[0]);
      }
    }
    total
  }

  /** `calculate_highest_average_salary`, the table's rows: each is a city
      other than Russia holding at least 0.95% of the salaries, with its
      truncated mean salary. */
  lemma CitySalaryTableRows(d: S.SalaryDict<string>)
    requires S.Valid(d)
    ensures forall e | e in CitySalaryTable(d) ::
      && e.0 in d.lists && e.0 != Russia && 2000 * |d.lists[e.0]| >= 19 * SalaryTotal(d)
      && e.1 == Trunc(Mean(d.lists[e.0]))
  {
    var rows := CityRows(d, d.keys, SalaryTotal(d));
    CityRowsMembers(d, d.keys, SalaryTotal(d));
    TopMembers(rows, SalaryScore, 10);
  }

  /** `calculate_highest_average_salary`, the table's shape: at most ten
      rows, largest average first; a qualifying city is missing only from a
      full table whose every row is at least as high; cities with equal
      averages keep their dict order. */
  lemma CitySalaryTableOrder(d: S.SalaryDict<string>)
    requires S.Valid(d)
    ensures var r := CitySalaryTable(d);
      && |r| <= 10
      && SortedDesc(r, SalaryScore)
      && (forall t | t in d.lists && t != Russia && 2000 * |d.lists[t]| >= 19 * SalaryTotal(d) ::
        (t, Trunc(Mean(d.lists[t]))) in r
        || (|r| == 10 && forall e | e in r :: e.1 >= Trunc(Mean(d.lists[t]))))
      && (forall v :: IsPrefix(WithScore(r, SalaryScore, v), WithScore(CityRows(d, d.keys, SalaryTotal(d)), SalaryScore, v)))
  {
    var rows := CityRows(d, d.keys, SalaryTotal(d));
    var r := CitySalaryTable(d);
    CityRowsMembers(d, d.keys, SalaryTotal(d));
    TopSpec(rows, SalaryScore, 10);
    TopCovers(rows, SalaryScore, 10);
  }

  /** No two rows name the same city. */
  predicate DistinctTowns<V>(rows: seq<(string, V)>) {
    forall i, j | 0 <= i < j < |rows| :: rows[i].0 != rows[j].0
  }

  /** Cities taken in the order of distinct keys give distinct rows. */
  lemma {:induction false} CityRowsDistinct(d: S.SalaryDict<string>, keys: seq<string>, total: nat)
    requires S.Valid(d)
    requires forall k | k in keys :: k in d.lists
    requires keys != [] ==> total > 0
    requires Distinct(keys)
    ensures DistinctTowns(CityRows(d, keys, total))
  {
    if |keys| > 0 {
      var town := keys[0];
      var rest := CityRows(d, keys[1..], total);
      DistinctTail(keys);
      CityRowsDistinct(d, keys[1..], total);
      var row := (town, Trunc(Mean(d.lists[town])));
      if CityRows(d, keys, total) != [] + rest {
        assert CityRows(d, keys, total) == [row] + rest;
        PrependTown([row], rest, town);
      } else {
        PrependTown([], rest, town);
      }
    }
  }

  /** A row for a city no later row names keeps the towns distinct. */
  lemma PrependTown<V>(head: seq<(string, V)>, rest: seq<(string, V)>, town: string)
    requires |head| <= 1 && forall e | e in head :: e.0 == town
    requires forall e | e in rest :: e.0 != town
    requires DistinctTowns(rest)
    ensures DistinctTowns(head + rest)
  {
    var r := head + rest;
    forall i, j | 0 <= i < j < |r| ensures r[i].0 != r[j].0 {
      assert r[j] == rest[j - |head|];
      if i >= |head| {
        assert r[i] == rest[i - |head|];
      } else {
        assert r[i] == head[i];
      }
    }
  }

  /** Distinct elements drawn from rows with distinct towns have distinct
      towns. */
  lemma DistinctTownsOfMembers<V>(a: seq<(string, V)>, b: seq<(string, V)>)
    requires Distinct(a) && DistinctTowns(b)
    requires forall x | x in a :: x in b
    ensures DistinctTowns(a)
  {
    forall i, j | 0 <= i < j < |a| ensures a[i].0 != a[j].0 {
      assert a[i] in a && a[j] in a;
      var p :| 0 <= p < |b| && b[p] == a[i];
      var q :| 0 <= q < |b| && b[q] == a[j];
      assert p != q;
      if p > q {
        assert b[q].0 != b[p].0;
      }
    }
  }

  /** `calculate_highest_average_salary`: every city appears at most once
      in the table, as the dict it is drawn from has one entry per city. */
  lemma CitySalaryTableDistinct(d: S.SalaryDict<string>)
    requires S.Valid(d)
    ensures DistinctTowns(CitySalaryTable(d))
  {
    var rows := CityRows(d, d.keys, SalaryTotal(d));
    CityRowsDistinct(d, d.keys, SalaryTotal(d));
    assert Distinct(rows);
    TopDistinct(rows, SalaryScore, 10);
    TopMembers(rows, SalaryScore, 10);
    DistinctTownsOfMembers(Top(rows, SalaryScore, 10), rows);
  }

  /** `find_highest_town_rating`: every city appears at most once in the
      share table, as the counts it is drawn from have one entry per city. */
  lemma CityShareTableDistinct(d: C.CountDict<string>)
    requires C.Valid(d)
    ensures DistinctTowns(CityShareTable(d))
  {
    var rows := ShareRows(d);
    C.LengthPositive(d);
    C.SharesDistinct(Without(d.keys, Russia), d.amounts - {Russia}, d.length, 100);
    assert DistinctTowns(rows) by {
      forall i, j | 0 <= i < j < |rows| ensures rows[i].0 != rows[j].0 {
        assert C.Keys(rows)[i] == rows[i].0 && C.Keys(rows)[j] == rows[j].0;
      }
    }
    assert Distinct(rows);
    TopDistinct(rows, C.ShareOf, 10);
    TopMembers(rows, C.ShareOf, 10);
    DistinctTownsOfMembers(Top(rows, C.ShareOf, 10), rows);
  }

  /** What the top-`n` cut promises for a single item of the input: it is
      kept, or the cut is full and everything kept scores at least as much. */
  lemma TopCovers<T>(s: seq<T>, score: T -> real, n: nat)
    ensures forall x | x in s :: (x in Top(s, score, n)
      || (|Top(s, score, n)| == n && forall y | y in Top(s, score, n) :: score(y) >= score(x)))
  {
    var r := Top(s, score, n);
    TopSpec(s, score, n);
    forall x | x in s && x !in r ensures |r| == n {
      if |r| != n {
        assert |r| == |s|;
        TopKeepsAll(s, r);
      }
    }
  }

  /** A sub-multiset as long as the whole is the whole. */
  lemma TopKeepsAll<T>(s: seq<T>, r: seq<T>)
    requires multiset(r) <= multiset(s) && |r| == |s|
    ensures forall x | x in s :: x in r
  {
    SubMultisetSameSize(multiset(r), multiset(s));
    forall x | x in s ensures x in r {
      assert x in multiset(s);
    }
  }

  lemma {:induction false} SubMultisetSameSize<T>(a: multiset<T>, b: multiset<T>)
    requires a <= b && |a| == |b|
    ensures a == b
    decreases |b|
  {
    if b != multiset{} {
      var x :| x in b;
      if x in a {
        SubMultisetSameSize(a - multiset{x}, b - multiset{x});
        assert a == (a - multiset{x}) + multiset{x};
        assert b == (b - multiset{x}) + multiset{x};
      } else {
        assert a <= b - multiset{x};
        assert |b - multiset{x}| == |b| - 1;
        MultisetSize(a, b - multiset{x});
      }
    }
  }

  lemma {:induction false} MultisetSize<T>(a: multiset<T>, b: multiset<T>)
    requires a <= b
    ensures |a| <= |b|
    decreases |a|
  {
    if a != multiset{} {
      var x :| x in a;
      MultisetSize(a - multiset{x}, b - multiset{x});
    }
  }

  /** The share rows `find_highest_town_rating` sorts: the cities other
      than Russia, in dict order, with a share of at least 0.01 of all
      postings (Russia included). */
  function ShareRows(d: C.CountDict<string>): (rows: seq<(string, real)>)
    requires C.Valid(d)
  {
    C.LengthPositive(d);
    C.Shares(Without(d.keys, Russia), d.amounts - {Russia}, d.length, 100)
  }

  /** `find_highest_town_rating`, the table's rows: each is a city other
      than Russia with a share of at least 0.01 of all postings (Russia
      included), paired with that share rounded to four decimals, which lies
      between 0.01 and 1. */
  lemma CityShareTableRows(d: C.CountDict<string>)
    requires C.Valid(d)
    ensures forall e | e in CityShareTable(d) ::
      && e.0 in d.amounts && e.0 != Russia && 100 * d.amounts[e.0] >= d.length
      && e.1 == C.RoundedShare(d.amounts[e.0], d.length) && 0.01 <= e.1 <= 1.0
  {
    ShareRowsFacts(d);
    TopMembers(ShareRows(d), C.ShareOf, 10);
  }

  lemma ShareRowsFacts(d: C.CountDict<string>)
    requires C.Valid(d)
    ensures forall e | e in ShareRows(d) ::
      && e.0 in d.amounts && e.0 != Russia && 100 * d.amounts[e.0] >= d.length
      && e.1 == C.RoundedShare(d.amounts[e.0], d.length) && 0.01 <= e.1 <= 1.0
  {
    C.LengthPositive(d);
    var keys, amounts := Without(d.keys, Russia), d.amounts - {Russia};
    assert forall k | k in keys :: k in amounts && amounts[k] == d.amounts[k] <= d.length;
    C.SharesRows(keys, amounts, d.length, 100);
    C.SharesBounds(keys, amounts, d.length, 100);
    assert 1.0 / 100 as real == 0.01;
  }

  /** `find_highest_town_rating`, the table's shape: at most ten rows,
      largest share first; a qualifying city is missing only from a full
      table whose every share is at least as high; equal shares keep their
      dict order. */
  lemma CityShareTableOrder(d: C.CountDict<string>)
    requires C.Valid(d)
    ensures var r := CityShareTable(d);
      && |r| <= 10
      && SortedDesc(r, C.ShareOf)
      && (forall t | t in d.amounts && t != Russia && 100 * d.amounts[t] >= d.length ::
        (t, C.RoundedShare(d.amounts[t], d.length)) in r
        || (|r| == 10 && forall e | e in r :: e.1 >= C.RoundedShare(d.amounts[t], d.length)))
      && (forall v :: IsPrefix(WithScore(r, C.ShareOf, v), WithScore(ShareRows(d), C.ShareOf, v)))
  {
    C.LengthPositive(d);
    var rows := ShareRows(d);
    var r := CityShareTable(d);
    assert r == Top(rows, C.ShareOf, 10);
    TopSpec(rows, C.ShareOf, 10);
    TopCovers(rows, C.ShareOf, 10);
    ShareRowsComplete(d);
  }

  lemma ShareRowsComplete(d: C.CountDict<string>)
    requires C.Valid(d)
    ensures forall t | t in d.amounts && t != Russia && 100 * d.amounts[t] >= d.length ::
      (t, C.RoundedShare(d.amounts[t], d.length)) in ShareRows(d)
  {
    C.LengthPositive(d);
    var keys, amounts := Without(d.keys, Russia), d.amounts - {Russia};
    assert forall k | k in keys :: k in amounts && amounts[k] == d.amounts[k];
    assert forall t | t in d.amounts && t != Russia :: t in keys;
    C.SharesHas(keys, amounts, d.length, 100);
  }
}
