/** What `compile_data` promises about its six tables, stated directly in
    terms of the postings: per-year averages and counts over exactly the
    years seen, the profession's figures zero-filled on the same years, and
    the two city tables. */
module CompiledReport {

  import opened Results
  import opened Seqs
  import opened Numeric
  import opened StableSort
  import opened Vacancies
  import opened Constractor
  import S = SalaryDicts
  import C = CountDicts

  /** The salaries, in roubles and in order, of the postings published in
      year `y`. */
  function YearSalaries(vs: seq<Vacancy>, y: int): seq<real>
    requires AllKnown(vs)
  {
    S.ValuesAt(YearPairs(vs), y)
  }

  /** The salaries, in roubles and in order, of the postings of city `t`. */
  function TownSalaries(vs: seq<Vacancy>, t: string): seq<real>
    requires AllKnown(vs)
  {
    S.ValuesAt(TownPairs(vs), t)
  }

  lemma FirstsOfPairs(vs: seq<Vacancy>)
    requires AllKnown(vs)
    ensures S.Firsts(YearPairs(vs)) == Years(vs)
    ensures S.Firsts(TownPairs(vs)) == Towns(vs)
  {
  }

  /** The profession's postings are some of the postings, so their years
      are among all years, each at most as often. */
  lemma {:induction false} MatchingYears(vs: seq<Vacancy>, prof: string)
    ensures multiset(Years(Matching(vs, prof))) <= multiset(Years(vs))
    ensures forall y | y in Years(Matching(vs, prof)) :: y in Years(vs)
  {
    if |vs| > 0 {
      var init, v := vs[..|vs| - 1], vs[|vs| - 1];
      MatchingYears(init, prof);
      assert Years(vs) == Years(init) + [v.year];
      var ms := Matching(init, prof);
      if Contains(v.name, prof) {
        assert (ms + [v])[..|ms|] == ms;
        assert Years(ms + [v]) == Years(ms) + [v.year];
      }
      forall y | y in Years(Matching(vs, prof)) ensures y in Years(vs) {
        assert y in multiset(Years(Matching(vs, prof)));
      }
    }
  }

  /** On known currencies the report is assembled from the six folds. */
  lemma CompileDataIsAssemble(vs: seq<Vacancy>, prof: string)
    requires AllKnown(vs)
    ensures Valid(Folds(vs, prof))
    ensures CompileData(vs, prof) == Ok(Assemble(Folds(vs, prof)))
  {
    StatsAreFolds(vs, prof);
  }

  /** The two city tables are built from the city accumulators. */
  lemma CompileDataCityTables(vs: seq<Vacancy>, prof: string)
    requires AllKnown(vs)
    ensures Valid(Folds(vs, prof))
    ensures CompileData(vs, prof).Ok?
    ensures CompileData(vs, prof).value.townSalary == CitySalaryTable(Folds(vs, prof).townSalary)
    ensures CompileData(vs, prof).value.townShare == CityShareTable(C.CalculateProportion(Folds(vs, prof).townRating))
  {
    CompileDataIsAssemble(vs, prof);
  }

  /** The overall year dictionaries hold exactly the years of the postings. */
  lemma YearKeys(vs: seq<Vacancy>, prof: string)
    requires AllKnown(vs)
    ensures var st := Folds(vs, prof);
      && (forall y :: y in st.yearSalary.lists <==> y in Years(vs))
      && (forall y :: y in st.yearCount.amounts <==> y in Years(vs))
  {
    FirstsOfPairs(vs);
    S.FromPairsKeys(YearPairs(vs));
    C.FromKeysCounts(Years(vs));
  }

  /** The overall year dictionaries hold each year's salaries and count. */
  lemma YearValues(vs: seq<Vacancy>, prof: string)
    requires AllKnown(vs)
    ensures var st := Folds(vs, prof);
      && (forall y | y in st.yearCount.amounts :: st.yearCount.amounts[y] == multiset(Years(vs))[y])
      && (forall y | y in st.yearSalary.lists :: st.yearSalary.lists[y] == YearSalaries(vs, y))
  {
    S.FromPairsValues(YearPairs(vs));
    C.FromKeysCounts(Years(vs));
  }

  /** The profession's year dictionaries hold exactly the years of the
      matching postings, which are among the postings' years. */
  lemma ProfKeys(vs: seq<Vacancy>, prof: string)
    requires AllKnown(vs)
    ensures AllKnown(Matching(vs, prof))
    ensures var st, ms := Folds(vs, prof), Matching(vs, prof);
      && (forall y :: y in st.profSalary.lists <==> y in Years(ms))
      && (forall y :: y in st.profCount.amounts <==> y in Years(ms))
      && (forall y | y in Years(ms) :: y in Years(vs))
  {
    var ms := Matching(vs, prof);
    assert forall v | v in ms :: v in vs;
    FirstsOfPairs(ms);
    S.FromPairsKeys(YearPairs(ms));
    C.FromKeysCounts(Years(ms));
    MatchingYears(vs, prof);
  }

  /** The profession's year dictionaries hold its salaries and counts. */
  lemma ProfValues(vs: seq<Vacancy>, prof: string)
    requires AllKnown(vs)
    ensures AllKnown(Matching(vs, prof))
    ensures var st, ms := Folds(vs, prof), Matching(vs, prof);
      && (forall y | y in st.profCount.amounts :: st.profCount.amounts[y] == multiset(Years(ms))[y])
      && (forall y | y in st.profSalary.lists :: st.profSalary.lists[y] == YearSalaries(ms, y))
  {
    var ms := Matching(vs, prof);
    assert forall v | v in ms :: v in vs;
    S.FromPairsValues(YearPairs(ms));
    C.FromKeysCounts(Years(ms));
  }

  /** The year tables of an assembled report, read off the dictionaries:
      the overall averages and counts as they are, the profession's filled
      with 0 on the overall years it lacks. */
  lemma AssembleYears(st: Stats)
    requires Valid(st)
    requires st.profSalary.lists.Keys <= st.yearSalary.lists.Keys
    requires st.profCount.amounts.Keys <= st.yearCount.amounts.Keys
    ensures var r := Assemble(st);
      && r.yearSalary.Keys == st.yearSalary.lists.Keys
      && r.yearCount == st.yearCount.amounts
      && r.profSalary.Keys == st.yearSalary.lists.Keys
      && r.profCount.Keys == st.yearCount.amounts.Keys
      && (forall y | y in r.yearSalary :: r.yearSalary[y] == Trunc(Mean(st.yearSalary.lists[y])))
      && (forall y | y in r.profSalary ::
        r.profSalary[y] == if y in st.profSalary.lists then Trunc(Mean(st.profSalary.lists[y])) else 0)
      && (forall y | y in r.profCount ::
        r.profCount[y] == if y in st.profCount.amounts then st.profCount.amounts[y] else 0)
  {
    var r := Assemble(st);
    assert r.profSalary == ZeroFill(st.yearSalary.lists.Keys, S.Averages(st.profSalary), 0);
    assert r.profCount == ZeroFill<nat>(st.yearCount.amounts.Keys, st.profCount.amounts, 0);
  }

  /** The four year dictionaries agree on their years, which are the
      postings' years, the profession's among them. */
  lemma FoldYearKeys(vs: seq<Vacancy>, prof: string)
    requires AllKnown(vs)
    ensures var st := Folds(vs, prof);
      && (forall y :: y in st.yearSalary.lists <==> y in Years(vs))
      && st.yearCount.amounts.Keys == st.yearSalary.lists.Keys
      && st.profSalary.lists.Keys <= st.yearSalary.lists.Keys
      && st.profCount.amounts.Keys <= st.yearCount.amounts.Keys
  {
    YearKeys(vs, prof);
    ProfKeys(vs, prof);
    YearKeysAgree(Folds(vs, prof), Years(vs), Years(Matching(vs, prof)));
  }

  lemma SameKeys<K, V, W>(a: map<K, V>, b: map<K, W>)
    requires forall k :: k in a <==> k in b
    ensures a.Keys == b.Keys
  {
  }

  lemma SubKeys<K, V, W>(a: map<K, V>, b: map<K, W>)
    requires forall k | k in a :: k in b
    ensures a.Keys <= b.Keys
  {
  }

  /** Key agreement of the four year dictionaries, from what each holds. */
  lemma YearKeysAgree(st: Stats, years: seq<int>, mine: seq<int>)
    requires forall y :: y in st.yearSalary.lists <==> y in years
    requires forall y :: y in st.yearCount.amounts <==> y in years
    requires forall y :: y in st.profSalary.lists <==> y in mine
    requires forall y :: y in st.profCount.amounts <==> y in mine
    requires forall y | y in mine :: y in years
    ensures st.yearCount.amounts.Keys == st.yearSalary.lists.Keys
    ensures st.profSalary.lists.Keys <= st.yearSalary.lists.Keys
    ensures st.profCount.amounts.Keys <= st.yearCount.amounts.Keys
  {
    forall y ensures y in st.yearCount.amounts <==> y in st.yearSalary.lists {
      assert y in st.yearCount.amounts <==> y in years;
    }
    forall y | y in st.profSalary.lists ensures y in st.yearSalary.lists {
      assert y in mine;
    }
    forall y | y in st.profCount.amounts ensures y in st.yearCount.amounts {
      assert y in mine;
    }
    SameKeys(st.yearCount.amounts, st.yearSalary.lists);
    SubKeys(st.profSalary.lists, st.yearSalary.lists);
    SubKeys(st.profCount.amounts, st.yearCount.amounts);
  }

  /** Year by year, the counts of all postings and of the profession's. */
  lemma FoldYearCounts(vs: seq<Vacancy>, prof: string)
    requires AllKnown(vs)
    ensures var st, ms := Folds(vs, prof), Matching(vs, prof);
      forall y | y in st.yearCount.amounts ::
        && st.yearCount.amounts[y] == multiset(Years(vs))[y]
        && (if y in st.profCount.amounts then st.profCount.amounts[y] else 0) == multiset(Years(ms))[y]
        && multiset(Years(ms))[y] <= multiset(Years(vs))[y]
  {
    YearValues(vs, prof);
    ProfKeys(vs, prof);
    ProfValues(vs, prof);
    MatchingYears(vs, prof);
    CountsAgree(Folds(vs, prof), Years(vs), Years(Matching(vs, prof)));
  }

  /** The year counts, from what each count dictionary holds. */
  lemma CountsAgree(st: Stats, years: seq<int>, mine: seq<int>)
    requires forall y | y in st.yearCount.amounts :: st.yearCount.amounts[y] == multiset(years)[y]
    requires forall y | y in st.profCount.amounts :: st.profCount.amounts[y] == multiset(mine)[y]
    requires forall y :: y in st.profCount.amounts <==> y in mine
    requires multiset(mine) <= multiset(years)
    ensures forall y | y in st.yearCount.amounts ::
      && st.yearCount.amounts[y] == multiset(years)[y]
      && (if y in st.profCount.amounts then st.profCount.amounts[y] else 0) == multiset(mine)[y]
      && multiset(mine)[y] <= multiset(years)[y]
  {
    forall y | y !in st.profCount.amounts ensures multiset(mine)[y] == 0 {
      assert y !in mine;
    }
  }

  /** A year has salaries exactly when some posting was published in it. */
  lemma YearSalariesPresent(vs: seq<Vacancy>)
    requires AllKnown(vs)
    ensures forall y :: YearSalaries(vs, y) != [] <==> y in Years(vs)
  {
    FirstsOfPairs(vs);
    forall y ensures YearSalaries(vs, y) != [] <==> y in Years(vs) {
      S.ValuesAtPresent(YearPairs(vs), y);
    }
  }

  /** Year by year, the salaries of all postings and of the profession's. */
  lemma FoldYearSalaries(vs: seq<Vacancy>, prof: string)
    requires AllKnown(vs)
    ensures AllKnown(Matching(vs, prof))
    ensures var st, ms := Folds(vs, prof), Matching(vs, prof);
      forall y | y in st.yearSalary.lists ::
        && st.yearSalary.lists[y] == YearSalaries(vs, y)
        && (y in st.profSalary.lists <==> YearSalaries(ms, y) != [])
        && (y in st.profSalary.lists ==> st.profSalary.lists[y] == YearSalaries(ms, y))
  {
    YearValues(vs, prof);
    ProfKeys(vs, prof);
    ProfValues(vs, prof);
    YearSalariesPresent(Matching(vs, prof));
  }

  /** The four year tables have exactly the years of the postings as keys,
      whether or not the profession occurs in a year. */
  lemma CompileDataYears(vs: seq<Vacancy>, prof: string)
    requires AllKnown(vs)
    ensures var r := CompileData(vs, prof).value;
      && (forall y :: y in r.yearSalary <==> y in Years(vs))
      && r.yearCount.Keys == r.yearSalary.Keys
      && r.profSalary.Keys == r.yearSalary.Keys
      && r.profCount.Keys == r.yearSalary.Keys
  {
    CompileDataIsAssemble(vs, prof);
    FoldYearKeys(vs, prof);
    AssembleYears(Folds(vs, prof));
  }

  /** Every year counts its postings, and the profession's count is the
      number of its postings that year (0 when none), never more than the
      year's total. */
  lemma CompileDataYearCounts(vs: seq<Vacancy>, prof: string)
    requires AllKnown(vs)
    ensures var r := CompileData(vs, prof).value;
      forall y | y in r.yearCount ::
        && r.yearCount[y] == multiset(Years(vs))[y]
        && y in r.profCount && r.profCount[y] == multiset(Years(Matching(vs, prof)))[y]
        && r.profCount[y] <= r.yearCount[y]
  {
    CompileDataIsAssemble(vs, prof);
    var st := Folds(vs, prof);
    FoldYearKeys(vs, prof);
    AssembleYears(st);
    FoldYearCounts(vs, prof);
    ReportCounts(Assemble(st), st, Years(vs), Years(Matching(vs, prof)));
  }

  /** The count tables of a report, from the dictionaries it was built on. */
  lemma ReportCounts(r: Report, st: Stats, years: seq<int>, mine: seq<int>)
    requires r.yearCount == st.yearCount.amounts
    requires r.profCount.Keys == st.yearCount.amounts.Keys
    requires forall y | y in r.profCount ::
      r.profCount[y] == if y in st.profCount.amounts then st.profCount.amounts[y] else 0
    requires forall y | y in st.yearCount.amounts ::
      && st.yearCount.amounts[y] == multiset(years)[y]
      && (if y in st.profCount.amounts then st.profCount.amounts[y] else 0) == multiset(mine)[y]
      && multiset(mine)[y] <= multiset(years)[y]
    ensures forall y | y in r.yearCount ::
      && r.yearCount[y] == multiset(years)[y]
      && y in r.profCount && r.profCount[y] == multiset(mine)[y]
      && r.profCount[y] <= r.yearCount[y]
  {
    forall y | y in r.yearCount
      ensures r.yearCount[y] == multiset(years)[y]
      ensures y in r.profCount && r.profCount[y] == multiset(mine)[y]
      ensures r.profCount[y] <= r.yearCount[y]
    {
      assert y in st.yearCount.amounts;
      assert y in r.profCount.Keys;
    }
  }

  /** Every year's average is the truncated mean of that year's salaries;
      the profession's average is the truncated mean of its salaries that
      year, or 0 when it has none. */
  lemma CompileDataYearSalaries(vs: seq<Vacancy>, prof: string)
    requires AllKnown(vs)
    ensures AllKnown(Matching(vs, prof))
    ensures var r, ms := CompileData(vs, prof).value, Matching(vs, prof);
      forall y | y in r.yearSalary ::
        && YearSalaries(vs, y) != []
        && r.yearSalary[y] == Trunc(Mean(YearSalaries(vs, y)))
        && y in r.profSalary
        && r.profSalary[y] == if YearSalaries(ms, y) == [] then 0 else Trunc(Mean(YearSalaries(ms, y)))
  {
    CompileDataIsAssemble(vs, prof);
    FoldYearKeys(vs, prof);
    FoldYearSalaries(vs, prof);
    AssembleYears(Folds(vs, prof));
  }

  /** When no title contains the profession, its two year tables are all
      zeros. */
  lemma NoMatchGivesZeros(vs: seq<Vacancy>, prof: string)
    requires AllKnown(vs)
    requires forall v | v in vs :: !Contains(v.name, prof)
    ensures var r := CompileData(vs, prof).value;
      && (forall y | y in r.profSalary :: r.profSalary[y] == 0)
      && (forall y | y in r.profCount :: r.profCount[y] == 0)
  {
    NothingMatches(vs, prof);
    CompileDataYears(vs, prof);
    CompileDataYearSalaries(vs, prof);
    CompileDataYearCounts(vs, prof);
  }

  lemma {:induction false} NothingMatches(vs: seq<Vacancy>, prof: string)
    requires forall v | v in vs :: !Contains(v.name, prof)
    ensures Matching(vs, prof) == []
  {
    if |vs| > 0 {
      assert vs[|vs| - 1] in vs;
      assert forall v | v in vs[..|vs| - 1] :: v in vs;
      NothingMatches(vs[..|vs| - 1], prof);
    }
  }

  /** The city dictionaries the two tables are cut from: the salaries of
      each city hold its postings' salaries, a city is present exactly when
      it has a posting, and the counter's total is the number of postings. */
  lemma TownFacts(vs: seq<Vacancy>, prof: string)
    requires AllKnown(vs)
    ensures var st := Folds(vs, prof);
      && SalaryTotal(st.townSalary) == |vs|
      && (forall t :: t in st.townSalary.lists <==> |TownSalaries(vs, t)| > 0)
      && (forall t | t in st.townSalary.lists :: st.townSalary.lists[t] == TownSalaries(vs, t))
      && st.townRating.length == |vs|
      && (forall t :: t in st.townRating.amounts <==> t in Towns(vs))
      && (forall t | t in st.townRating.amounts :: st.townRating.amounts[t] == multiset(Towns(vs))[t])
  {
    var st := Folds(vs, prof);
    var ps := TownPairs(vs);
    FirstsOfPairs(vs);
    S.FromPairsKeys(ps);
    S.FromPairsValues(ps);
    S.SizesAreCounts(ps);
    C.FromKeysCounts(Towns(vs));
    forall t ensures t in st.townSalary.lists <==> |TownSalaries(vs, t)| > 0 {
      S.ValuesAtCount(ps, t);
    }
  }

  /** `town_salary`: at most ten cities, highest average first; each is a
      city other than Russia holding at least 0.95% of all salaries, with
      the truncated mean of its salaries; a qualifying city is missing only
      from a full table whose every average is at least as high. */
  lemma CompileDataTownSalary(vs: seq<Vacancy>, prof: string)
    requires AllKnown(vs)
    ensures var r := CompileData(vs, prof).value.townSalary;
      && |r| <= 10
      && SortedDesc(r, SalaryScore)
      && (forall e | e in r ::
        && e.0 != Russia && |TownSalaries(vs, e.0)| > 0
        && 2000 * |TownSalaries(vs, e.0)| >= 19 * |vs|
        && e.1 == Trunc(Mean(TownSalaries(vs, e.0))))
      && (forall t | t != Russia && |TownSalaries(vs, t)| > 0 && 2000 * |TownSalaries(vs, t)| >= 19 * |vs| ::
        (t, Trunc(Mean(TownSalaries(vs, t)))) in r
        || (|r| == 10 && forall e | e in r :: e.1 >= Trunc(Mean(TownSalaries(vs, t)))))
  {
    CompileDataCityTables(vs, prof);
    TownFacts(vs, prof);
    TownSalaryTable(Folds(vs, prof).townSalary, vs);
  }

  /** The city salary table of a dictionary holding each city's salaries. */
  lemma TownSalaryTable(d: S.SalaryDict<string>, vs: seq<Vacancy>)
    requires S.Valid(d) && AllKnown(vs)
    requires SalaryTotal(d) == |vs|
    requires forall t :: t in d.lists <==> |TownSalaries(vs, t)| > 0
    requires forall t | t in d.lists :: d.lists[t] == TownSalaries(vs, t)
    ensures var r := CitySalaryTable(d);
      && |r| <= 10
      && SortedDesc(r, SalaryScore)
      && (forall e | e in r ::
        && e.0 != Russia && |TownSalaries(vs, e.0)| > 0
        && 2000 * |TownSalaries(vs, e.0)| >= 19 * |vs|
        && e.1 == Trunc(Mean(TownSalaries(vs, e.0))))
      && (forall t | t != Russia && |TownSalaries(vs, t)| > 0 && 2000 * |TownSalaries(vs, t)| >= 19 * |vs| ::
        (t, Trunc(Mean(TownSalaries(vs, t)))) in r
        || (|r| == 10 && forall e | e in r :: e.1 >= Trunc(Mean(TownSalaries(vs, t)))))
  {
    CitySalaryTableRows(d);
    CitySalaryTableOrder(d);
  }

  /** `town_job_rating`: at most ten cities, largest share first; each is a
      city other than Russia with at least 1% of all postings (Russia's
      included), paired with its share rounded to four decimals, between
      0.01 and 1; a qualifying city is missing only from a full table whose
      every share is at least as high. */
  lemma CompileDataTownShare(vs: seq<Vacancy>, prof: string)
    requires AllKnown(vs)
    ensures var r, n := CompileData(vs, prof).value.townShare, |vs|;
      && |r| <= 10
      && SortedDesc(r, C.ShareOf)
      && (forall e | e in r ::
        && e.0 in Towns(vs) && e.0 != Russia && n > 0
        && 100 * multiset(Towns(vs))[e.0] >= n
        && e.1 == C.RoundedShare(multiset(Towns(vs))[e.0], n) && 0.01 <= e.1 <= 1.0)
      && (forall t | t in Towns(vs) && t != Russia && 100 * multiset(Towns(vs))[t] >= n ::
        (t, C.RoundedShare(multiset(Towns(vs))[t], n)) in r
        || (|r| == 10 && forall e | e in r :: e.1 >= C.RoundedShare(multiset(Towns(vs))[t], n)))
  {
    CompileDataCityTables(vs, prof);
    TownFacts(vs, prof);
    TownShareTable(C.CalculateProportion(Folds(vs, prof).townRating), Towns(vs));
  }

  /** The city share table of a counter holding each city's count. */
  lemma TownShareTable(d: C.CountDict<string>, towns: seq<string>)
    requires C.Valid(d)
    requires d.length == |towns|
    requires forall t :: t in d.amounts <==> t in towns
    requires forall t | t in d.amounts :: d.amounts[t] == multiset(towns)[t]
    ensures var r, n := CityShareTable(d), |towns|;
      && |r| <= 10
      && SortedDesc(r, C.ShareOf)
      && (forall e | e in r ::
        && e.0 in towns && e.0 != Russia && n > 0
        && 100 * multiset(towns)[e.0] >= n
        && e.1 == C.RoundedShare(multiset(towns)[e.0], n) && 0.01 <= e.1 <= 1.0)
      && (forall t | t in towns && t != Russia && 100 * multiset(towns)[t] >= n ::
        (t, C.RoundedShare(multiset(towns)[t], n)) in r
        || (|r| == 10 && forall e | e in r :: e.1 >= C.RoundedShare(multiset(towns)[t], n)))
  {
    CityShareTableRows(d);
    CityShareTableOrder(d);
  }
}
