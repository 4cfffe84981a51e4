# Vacancy statistics report: a Dafny model

This project models the statistics engine behind the vacancy report
(`ReportPDF.py`) and the per-year splitting of the raw export
(`csv_file_separator.py`), and proves what the report promises about its
tables. The pipeline it follows:

1. **Reading the CSV file** (`DataSet.__init__`). The first row is the header.
   A later row is kept when it is exactly as long as the header and has no
   empty cell. An empty file and a file with no kept row stop the program.
2. **Postings** (`Vacancy`, `Vacancy.formatter`, `generate_output`). Each row
   is zipped with the header into a dict. `salary_from` and `salary_to` become
   numbers, `published_at` becomes its year, and the other fields stay text.
3. **The statistics pass** (`Constractor.calculate_stat_values`). One pass
   feeds six accumulators:
   - salaries by year and postings by year;
   - the same two restricted to postings whose name contains the chosen
     profession;
   - salaries by city and postings by city.

   Each salary is the middle of its range converted to roubles with the
   `currency_to_rub` table.
4. **The report** (`Constractor.compile_data`).
   - The profession's year tables are brought onto all years, with zeros
     where nothing matched.
   - The city salary table holds the ten best-paid cities by truncated mean.
     A city is dropped when its rounded share of all postings is under 1%,
     and Russia is always dropped.
   - The city share table holds the ten cities with the largest share of all
     postings, among those with at least 1%. Russia is dropped.
   - `CountDict.calculate_proportion` records the cities holding at least a
     tenth of the postings.
5. **Chart labels** (`CreateReport.apply_attributes`). Labels of the city
   salary table are wrapped onto several lines.
6. **Per-year split** (`separate_years_data`). Raw rows are grouped into buckets
   named after the first four characters of the `published_at` cell.

Modules, one per file:

| file | module | covers |
|---|---|---|
| `results.dfy` | `Results` | the `Result` type, one `Error` per way the program aborts |
| `seqs.dfy` | `Seqs` | distinctness, de-duplication in order, take-n, sums over keys |
| `numeric.dfy` | `Numeric` | mean, `int()` truncation, `round()` half to even |
| `currency.dfy` | `Currency` | `currency_to_rub` and the conversion of one salary |
| `vacancy.dfy` | `Vacancies` | `dict(zip(...))`, `Vacancy.formatter`, the six attributes |
| `salary_dict.dfy` | `SalaryDicts` | `SalaryDict` |
| `count_dict.dfy` | `CountDicts` | `CountDict`, `calculate_proportion` |
| `stable_sort.dfy` | `StableSort` | `sorted(..., reverse=True)` by a score, and taking the first n |
| `constractor.dfy` | `Constractor` | the pass, the reconciliation and the two city tables |
| `report.dfy` | `CompiledReport` | `compile_data` stated over the postings themselves |
| `dataset.dfy` | `DataSets` | the header and row admission of `DataSet.__init__` |
| `output.dfy` | `Output` | `generate_output` without the printing |
| `labels.dfy` | `Labels` | `CreateReport.apply_attributes` |
| `separator.dfy` | `Separator` | `separate_years_data` without the file writing |

How the model represents the source:

- **Dicts whose order matters** are an insertion-ordered key sequence plus a
  map. This covers the accumulators, a zipped record and the buckets.
- **Year tables of the report** are plain maps.
- **Loops over postings** are pure folds that add the last posting to the
  result for the others.
- **Salaries** are exact reals.
- **Share thresholds** are compared exactly on integers: a share of at least
  0.01 is `100 * count >= total`, and at least 0.1 is `10 * count >= total`.
- **Python's `round`** is exact round-half-to-even on reals.
- **`float()` and `strptime`** on the cells are parameters (`Parsers`), each
  returning `None` where Python raises.

## Model

| member | source | states |
|---|---|---|
| Currency.Rate | ReportPDF.py:17-19 | the lookup succeeds exactly for the ten codes of the table, with a positive rate; any other code is a KeyError (`UnknownCurrency`), never a zero rate |
| Currency.Normalize | ReportPDF.py:291 | a known currency gives the midpoint of the range times the rate: a rouble salary equally far from both bounds times the rate, and between them; an unknown one fails with its code |
| Currency.RoubleIsIdentity | ReportPDF.py:17 | roubles convert at rate one: the salary is the midpoint of the range |
| Vacancies.Format | ReportPDF.py:127-143 | the salary fields become numbers or fail with `BadNumber` on that cell; `published_at` becomes its year or fails with `BadTimestamp`; every other field passes through as text |
| Vacancies.ZipKeys | ReportPDF.py:572 | the attributes of a zipped row are the header's titles in order of first appearance, over the columns both lists have |
| Vacancies.ZipValues | ReportPDF.py:572 | each attribute holds the cell under the last column with that title |
| Vacancies.FormatRecord | ReportPDF.py:124-125 | building the object succeeds exactly when every cell formats; the object then has exactly the record's keys, each holding its formatted cell; otherwise the error is that of the first cell, in dict order, that does not format |
| Vacancies.Build | ReportPDF.py:572 | a built object has attributes of the kinds the formatter gives; a failure is the error of the first cell of the zipped record, in dict order, that does not format |
| Vacancies.ToVacancy | ReportPDF.py:290-298 | the pass can read a posting exactly when all six attributes exist, and it then reads their values; otherwise it is an AttributeError (`MissingField`) naming the first attribute missing in read order: `salary_from`, `salary_to`, `salary_currency`, `published_at`, `area_name`, `name` |
| Vacancies.BuildVacancy | ReportPDF.py:572 | a full-width row whose cells format yields a posting exactly when the header has all six titles |
| SalaryDicts.AppendSalary | ReportPDF.py:168-181 | a new key is added at the end of the key order with a one-element list; a known key's list grows by the salary at its end; other keys are untouched; no list is ever empty |
| SalaryDicts.FromPairsKeys | ReportPDF.py:168-181 | after appending a sequence of salaries, the keys are exactly the keys appended to, in order of first appearance |
| SalaryDicts.FromPairsValues | ReportPDF.py:168-181 | each key's list is the salaries appended under it, in input order |
| SalaryDicts.Averages | ReportPDF.py:183-187 | `calculate_average_salary` has exactly the keys appended to |
| SalaryDicts.SizesAreCounts | ReportPDF.py:292-295 | the number of salaries under each key equals the count a `CountDict` fed the same keys reaches, and both keep the same key order |
| Numeric.Trunc | ReportPDF.py:186 | `int()` of a float drops the fraction toward zero |
| Numeric.MeanBetween | ReportPDF.py:186 | the mean of a non-empty list lies between any bounds of its elements |
| Numeric.RoundHalfEven | ReportPDF.py:214 | `round` lands within one half of its argument, and on a tie it picks the even neighbour |
| Numeric.RoundMonotone | ReportPDF.py:214 | rounding keeps the order of its arguments |
| Numeric.RoundOneDigitBelowOne | ReportPDF.py:323-324 | a percentage rounded to one decimal is below 1 exactly when the percentage is below 0.95 |
| CountDicts.UpdateAmount | ReportPDF.py:199-205 | a new key is added at the end of the key order with count 1; a known key's count grows by one; `length` grows by one; other counts are untouched |
| CountDicts.FromKeysCounts | ReportPDF.py:199-205 | after counting a sequence of keys, `length` is its length, the keys are its elements in order of first appearance, and each count is the number of occurrences |
| CountDicts.ShareAtLeastExact | ReportPDF.py:212 | the integer threshold `per * count >= length` is the same test as `count / length >= 1 / per` |
| CountDicts.SharesAppend | ReportPDF.py:210-214 | the share filter looks at each key on its own, so it distributes over concatenation |
| CountDicts.RoundedShareBounds | ReportPDF.py:214 | a share at or above `1 / per` still lies between `1 / per` and 1 once rounded to four decimals |
| CountDicts.CalculateProportion | ReportPDF.py:207-217 | `calculate_proportion` leaves the counts, the key order and `length` unchanged |
| CountDicts.CalculateProportionBigTowns | ReportPDF.py:210-213 | the keys appended to `big_towns_arr` are exactly those with share at least 0.1, once each, in the dict's key order; earlier entries stay in front |
| CountDicts.CalculateProportionPrevailingRows | ReportPDF.py:210-214 | every prevailing entry is a key with share at least 0.1, paired with its share rounded to four decimals |
| CountDicts.CalculateProportionPrevailingOrder | ReportPDF.py:215-216 | the prevailing table has at most ten rows, sorted non-increasing; every big key left out has a share no larger than any kept one; and equal shares keep key order |
| StableSort.Sort | ReportPDF.py:332 | sorting by score, largest first, permutes its input and leaves it non-increasing |
| StableSort.SortIsStable | ReportPDF.py:332 | items with equal scores keep their relative input order |
| StableSort.TopSpec | ReportPDF.py:336 | the first n of the sorted rows: at most n rows, all from the input, sorted, none beaten by a row left out, equal scores in input order |
| StableSort.TopDistinct | ReportPDF.py:332-336 | sorting and cutting to n rows repeats no row of an input without repeats |
| Constractor.ContainsOccurs | ReportPDF.py:296 | `prof in name` holds exactly when the profession occurs at some position of the name |
| Constractor.Feed | ReportPDF.py:290-298 | one posting advances the six accumulators exactly when its currency is in the table, and fails with its code otherwise |
| Constractor.CalculateStatValues | ReportPDF.py:283-298 | the pass succeeds exactly when every posting's currency is known, and leaves well-formed accumulators |
| Constractor.CalculateStatValuesFails | ReportPDF.py:290-291 | a failing pass fails with the code of the first posting whose currency is unknown |
| Constractor.StatsAreFolds | ReportPDF.py:290-298 | the single pass computes the same six accumulators as six separate folds over the postings, the profession ones over the matching postings only |
| Constractor.ReconcileSalary | ReportPDF.py:242-248 | when the profession's years are among all years, every year gets the profession's truncated mean salary, or 0 when no matching posting has that year |
| Constractor.ReconcileCount | ReportPDF.py:249-255 | under the same condition, every year gets the profession's count, or 0 |
| Constractor.KeptPercentage | ReportPDF.py:323-324 | a city survives the "rounded percentage below 1" test exactly when `2000 * count >= 19 * total` |
| Constractor.CityRowsMembers | ReportPDF.py:312-330 | the rows kept before sorting are exactly the cities other than Russia meeting the percentage test, each with its truncated mean salary |
| Constractor.CitySalaryTableRows | ReportPDF.py:300-336 | every row of the city salary table is a city other than Russia with at least 0.95% of all salaries (Russia's included), paired with its truncated mean |
| Constractor.CitySalaryTableOrder | ReportPDF.py:332-336 | the city salary table has at most ten rows, sorted non-increasing; a qualifying city is missing only when ten rows each pay at least as much; and equal salaries keep dict order |
| Constractor.CityRowsDistinct | ReportPDF.py:312-330 | the rows kept before sorting name each city of the dict at most once |
| Constractor.CitySalaryTableDistinct | ReportPDF.py:300-336 | no city appears twice in the city salary table, so turning it into a dict loses no row |
| Constractor.CityShareTableDistinct | ReportPDF.py:348-363 | no city appears twice in the city share table, so `dict(...)` at line 259 loses no row |
| Constractor.CityShareTableRows | ReportPDF.py:348-360 | every row of the city share table is a city other than Russia with `100 * count >= length`, where `length` still counts Russia; its value is the share rounded to four decimals, between 0.01 and 1 |
| Constractor.ShareRowsComplete | ReportPDF.py:351-360 | every city other than Russia with share at least 0.01 gets a share row before the cut to ten |
| Constractor.CityShareTableOrder | ReportPDF.py:362-363 | the city share table has at most ten rows, sorted non-increasing; a qualifying city is missing only when ten rows each have at least its share; and equal shares keep dict order |
| Constractor.CompileData | ReportPDF.py:231-262 | `compile_data` fails exactly when some posting's currency is unknown, with the error of the pass |
| CompiledReport.MatchingYears | ReportPDF.py:296-298 | the profession's postings are a sub-multiset of all postings, year by year |
| CompiledReport.CompileDataYears | ReportPDF.py:241-262 | the four year tables of the report all have exactly the years of the postings |
| CompiledReport.CompileDataYearCounts | ReportPDF.py:249-261 | each year's count is the number of postings of that year; the profession's count is the number of matching postings of that year, and never exceeds the overall count |
| CompiledReport.CompileDataYearSalaries | ReportPDF.py:242-261 | each year's salary is the truncated mean of that year's salaries; the profession's is the truncated mean of the matching salaries of that year, or 0 when none match |
| CompiledReport.NoMatchGivesZeros | ReportPDF.py:242-250 | when no posting's name contains the profession, both profession tables are 0 for every year |
| CompiledReport.TownFacts | ReportPDF.py:294-295 | the city accumulators hold each city's salaries in posting order and its number of postings, and their totals are the number of postings |
| CompiledReport.CompileDataTownSalary | ReportPDF.py:256 | the report's city salary table, stated over the postings: at most ten cities, non-increasing, no Russia, each with at least 0.95% of the postings and its truncated mean; a qualifying city is missing only when ten rows each pay at least as much |
| CompiledReport.CompileDataTownShare | ReportPDF.py:257-259 | the report's city share table, stated over the postings: at most ten cities, non-increasing, no Russia, each with at least 1% of all postings and its rounded share; a qualifying city is missing only when ten rows each have at least its share |
| DataSets.AdmitRows | ReportPDF.py:82-84 | a row is kept exactly when it is as long as the header and has no empty cell |
| DataSets.AdmitRowsAppend | ReportPDF.py:82-84 | admission looks at each row on its own, so kept rows stay in input order |
| DataSets.AdmitRowsIdempotent | ReportPDF.py:82-84 | admitting the kept rows again keeps them all |
| DataSets.Load | ReportPDF.py:74-87 | an empty file is `EmptyFile`; a file without an admissible data row is `NoData`; otherwise the header is row 0 and the data are its admissible later rows, in input order with duplicates kept |
| Output.Postings | ReportPDF.py:570-573 | the rows become `Vacancy` objects, one per row and in order, exactly when every row's cells format; otherwise the error is the formatter's on the first row that fails |
| Output.Read | ReportPDF.py:290-298 | one turn of the pass reads `salary_from`, `salary_to`, `salary_currency`, the rate, then the year, town and name: it fails with the first missing attribute before the rate lookup, then with an unknown currency, then with a later missing attribute, and otherwise reads the six values |
| Output.Reads | ReportPDF.py:290-298 | the pass reads every object exactly when each one can be read, and the vacancies read all have known currencies; otherwise it fails with the first object's error |
| Output.Compile | ReportPDF.py:283-298 | the statistics pass over the objects gives a report exactly when every object can be read; otherwise its error is that of the first object that cannot |
| Output.GenerateOutput | ReportPDF.py:563-575 | every row is turned into an object before the pass starts, so a formatter error wins over any attribute or currency error; then the report comes out exactly when every object can be read, and otherwise fails with the first object's error |
| Labels.Wrap | ReportPDF.py:515-521 | a label with a space has each space turned into a line break, everything else kept in place; a label with a dash and no space gets a line break right after its first dash and is otherwise unchanged; a label with neither is unchanged |
| Labels.ReplaceFirstAt | ReportPDF.py:521 | `replace(c, rep, 1)` puts `rep` exactly where the first `c` was |
| Labels.SingleDashBranches | ReportPDF.py:518-521 | with a single dash, replacing every dash and replacing the first dash agree, so the two dash branches behave alike |
| Labels.Unwrap | ReportPDF.py:515-521 | a wrapped label without line breaks of its own comes back by turning line breaks into spaces (space branch) or deleting them (dash branches) |
| Labels.ApplyAttributes | ReportPDF.py:515-522 | the titles afterwards are the old ones plus one per wrapped label; titles no label hits keep their values |
| Labels.LastWins | ReportPDF.py:522 | each city's value sits under its wrapped label unless a later city has the same wrapped label |
| Separator.IndexOf | csv_file_separator.py:29 | `titles.index` finds the first position of the title, and nothing exactly when the title is absent |
| Separator.File | csv_file_separator.py:32-34 | filing a row appends it to its bucket, creating the bucket at the end when new; other buckets are untouched |
| Separator.Group | csv_file_separator.py:30-34 | grouping succeeds exactly when every row reaches the date column; otherwise it fails at a row that is too short |
| Separator.SeparateYearsData | csv_file_separator.py:28-34 | without a `published_at` title it fails before grouping (`MissingColumn`); otherwise it groups on that title's first column |
| Separator.GroupContents | csv_file_separator.py:30-34 | the buckets are named after the rows' `<first four characters>.csv` in order of first appearance, and each holds exactly its rows, unchanged and in input order |
| Separator.GroupConserves | csv_file_separator.py:30-34 | every row lands in exactly one bucket: the bucket sizes add up to the number of rows |
| Separator.SeparateYearsDataBuckets | csv_file_separator.py:20-34 | the whole operation, for a header with `published_at` and rows that reach it: buckets per year in order of first appearance, each with its rows in order, sizes adding up to the number of rows |

## Left out

- Reading the CSV file, the `print`/`exit()` of `DataSet`, and printing the six results in `generate_output`. The file contents are an input (a sequence of rows), and each exit is an error value.
- `UsersInput`: it is console interaction and it calls a method that does not exist.
- `DataSet.parse_csv`: it is unreachable code that refers to names that are not defined.
- `create_csv_files` and the file writing of `separate_years_data`: these are file output. The model returns the buckets the files would hold.
- `CreateReport`: the spreadsheet, charts, HTML template and PDF rendering. Only `apply_attributes` is modelled.
- The module-level script that wires the stages together.
- `float()` and `datetime.strptime(...).strftime('%Y')` on cell text: they are the `Parsers` parameter, each returning `None` where Python raises.
- Binary floating point. Salaries, means and shares are exact reals and `round` is exact half-to-even, so ties that a binary float misses (a city at exactly 0.95%) are decided here as in decimal. Infinities and NaN are left out too: `float()` accepts `"nan"` and `"inf"`, and the `int(...)` of an average then raises: at ReportPDF.py:186, or at ReportPDF.py:315 (reached from line 256) when no posting matches the profession, as the branch at lines 244-246 is then skipped. The model does not represent this (its `toFloat` yields only finite reals).
- Insertion order of the year maps: the report's year tables are maps, not ordered dicts. Only the two city tables are ordered.
- `dict(sorted(...))` on the city salary rows and `dict(...)` on the city share rows (ReportPDF.py:259): a dict would merge equal city names, but each table names each city once (`Constractor.CitySalaryTableDistinct`, `Constractor.CityShareTableDistinct`), so the model keeps the sorted sequences.
- Constractor.ReconcileSalary: stated only when the profession's years are among all years. The pass always guarantees this (`CompiledReport.FoldYearKeys`, `CompiledReport.ProfKeys`).
- Constractor.ReconcileCount: stated only when the profession's years are among all years, for the same reason.
- Labels.Wrap: wrapping is not one-to-one, and no claim says it is. Different labels can wrap to the same text: `"a- b"` and `"a-b"` both give `"a-\nb"`. `Labels.LastWins` states what the titles hold in that case.
- Vacancies.BuildVacancy: stated for rows as long as the header, which row admission guarantees. A shorter row is zipped only up to its length.
