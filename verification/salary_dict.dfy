/** `SalaryDict`: the salaries seen under each key, kept as one list per key,
    and the truncated mean of each list. */
module SalaryDicts {

  import opened Seqs
  import opened Numeric
  import CountDicts

  /** `keys` is the insertion order of the Python dict `salary_dict`. */
  datatype SalaryDict<K> = SalaryDict(keys: seq<K>, lists: map<K, seq<real>>)

  /** A list is created only together with its first salary, so no list is
      ever empty. */
  ghost predicate Valid<K>(d: SalaryDict<K>) {
    && Distinct(d.keys)
    && (forall k | k in d.keys :: k in d.lists)
    && (forall k | k in d.lists :: k in d.keys)
    && (forall k | k in d.lists :: |d.lists[k]| > 0)
  }

  function Empty<K>(): (d: SalaryDict<K>)
    ensures Valid(d)
  {
    SalaryDict([], map[])
  }

  /** `append_salary`: add `salary` at the end of the list under `key`,
      starting that list if the key is new. */
  function AppendSalary<K>(d: SalaryDict<K>, key: K, salary: real): (r: SalaryDict<K>)
    requires Valid(d)
    ensures Valid(r)
    ensures r.lists.Keys == d.lists.Keys + {key}
    ensures r.lists[key] == (if key in d.lists then d.lists[key] else []) + [salary]
    ensures forall k | k in d.lists && k != key :: r.lists[k] == d.lists[k]
    ensures r.keys == if key in d.lists then d.keys else d.keys + [key]
  {
    if key in d.lists then
      SalaryDict(d.keys, d.lists[key := d.lists[key] + [salary]])
    else
      assert key !in d.keys;
      DistinctAppend(d.keys, key);
      SalaryDict(d.keys + [key], d.lists[key := [salary]])
  }

  function Firsts<K>(ps: seq<(K, real)>): (r: seq<K>)
    ensures |r| == |ps|
    ensures forall i | 0 <= i < |ps| :: r[i] == ps[i].0
  {
    if |ps| == 0 then [] else Firsts(ps[..|ps| - 1]) + [ps[|ps| - 1].0]
  }

  /** The salaries that `ps` records under `key`, in order. */
  function ValuesAt<K(==)>(ps: seq<(K, real)>, key: K): seq<real> {
    if |ps| == 0 then []
    else ValuesAt(ps[..|ps| - 1], key) + (if ps[|ps| - 1].0 == key then [ps[|ps| - 1].1] else [])
  }

  /** The dictionary after `append_salary(k, s)` was called for each `(k, s)`
      of `ps` in turn. */
  function FromPairs<K>(ps: seq<(K, real)>): (d: SalaryDict<K>)
    ensures Valid(d)
  {
    if |ps| == 0 then Empty()
    else AppendSalary(FromPairs(ps[..|ps| - 1]), ps[|ps| - 1].0, ps[|ps| - 1].1)
  }

  lemma FromPairsSnoc<K>(ps: seq<(K, real)>, key: K, salary: real)
    ensures FromPairs(ps + [(key, salary)]) == AppendSalary(FromPairs(ps), key, salary)
  {
    assert (ps + [(key, salary)])[..|ps|] == ps;
  }

  /** Appending salaries one by one: the keys are those of `ps` in the order
      of their first occurrence. */
  lemma {:induction false} FromPairsKeys<K>(ps: seq<(K, real)>)
    ensures FromPairs(ps).keys == Dedup(Firsts(ps))
    ensures forall k | k in Firsts(ps) :: k in FromPairs(ps).lists
    ensures forall k | k in FromPairs(ps).lists :: k in Firsts(ps)
  {
    if |ps| > 0 {
      var init, last := ps[..|ps| - 1], ps[|ps| - 1];
      FromPairsKeys(init);
      var d := FromPairs(init);
      assert FromPairs(ps) == AppendSalary(d, last.0, last.1);
      assert Firsts(ps) == Firsts(init) + [last.0];
      assert Firsts(ps)[..|ps| - 1] == Firsts(init);
      assert (last.0 in d.lists) == (last.0 in Dedup(Firsts(init)));
    }
  }

  /** Appending salaries one by one: each key holds exactly the salaries
      recorded under it, in order. */
  lemma {:induction false} FromPairsValues<K>(ps: seq<(K, real)>)
    ensures forall k | k in FromPairs(ps).lists :: FromPairs(ps).lists[k] == ValuesAt(ps, k)
  {
    if |ps| > 0 {
      var init, last := ps[..|ps| - 1], ps[|ps| - 1];
      FromPairsValues(init);
      FromPairsKeys(init);
      var d := FromPairs(init);
      var r := FromPairs(ps);
      assert r == AppendSalary(d, last.0, last.1);
      forall k | k in r.lists ensures r.lists[k] == ValuesAt(ps, k) {
        assert ValuesAt(ps, k) == ValuesAt(init, k) + (if last.0 == k then [last.1] else []);
        if k !in d.lists {
          ValuesAtAbsent(init, k);
        }
      }
    }
  }

  lemma {:induction false} ValuesAtAbsent<K>(ps: seq<(K, real)>, key: K)
    requires key !in Firsts(ps)
    ensures ValuesAt(ps, key) == []
  {
    if |ps| > 0 {
      assert Firsts(ps)[..|ps| - 1] == Firsts(ps[..|ps| - 1]);
      ValuesAtAbsent(ps[..|ps| - 1], key);
    }
  }

  /** `calculate_average_salary`: the truncated mean of every list. */
  function Averages<K>(d: SalaryDict<K>): (m: map<K, int>)
    requires Valid(d)
    ensures m.Keys == d.lists.Keys
  {
    map k | k in d.lists :: Trunc(Mean(d.lists[k]))
  }

  /** How many salaries each key holds (`town_tracker`). */
  function Sizes<K>(d: SalaryDict<K>): (m: map<K, nat>)
    ensures m.Keys == d.lists.Keys
  {
    map k | k in d.lists :: |d.lists[k]|
  }

  /** The number of salaries a key holds is the number of times the key was
      counted when the same keys are fed to a `CountDict`. */
  lemma SizesAreCounts<K>(ps: seq<(K, real)>)
    ensures Sizes(FromPairs(ps)) == CountDicts.FromKeys(Firsts(ps)).amounts
    ensures FromPairs(ps).keys == CountDicts.FromKeys(Firsts(ps)).keys
  {
    SizesKeys(ps);
    var d := FromPairs(ps);
    var m, c := Sizes(d), CountDicts.FromKeys(Firsts(ps)).amounts;
    forall k | k in m ensures m[k] == c[k] {
      SizeAt(ps, k);
    }
    MapsEqual(m, c);
  }

  lemma SizesKeys<K>(ps: seq<(K, real)>)
    ensures Sizes(FromPairs(ps)).Keys == CountDicts.FromKeys(Firsts(ps)).amounts.Keys
    ensures FromPairs(ps).keys == CountDicts.FromKeys(Firsts(ps)).keys
  {
    FromPairsKeys(ps);
    CountDicts.FromKeysCounts(Firsts(ps));
  }

  lemma SizeAt<K>(ps: seq<(K, real)>, k: K)
    requires k in FromPairs(ps).lists
    ensures k in CountDicts.FromKeys(Firsts(ps)).amounts
    ensures |FromPairs(ps).lists[k]| == CountDicts.FromKeys(Firsts(ps)).amounts[k]
  {
    FromPairsKeys(ps);
    FromPairsValues(ps);
    CountDicts.FromKeysCounts(Firsts(ps));
    ValuesAtCount(ps, k);
  }

  lemma MapsEqual<K>(m: map<K, nat>, c: map<K, nat>)
    requires m.Keys == c.Keys
    requires forall k | k in m :: m[k] == c[k]
    ensures m == c
  {
  }

  lemma {:induction false} ValuesAtCount<K>(ps: seq<(K, real)>, key: K)
    ensures |ValuesAt(ps, key)| == multiset(Firsts(ps))[key]
  {
    if |ps| > 0 {
      var init := ps[..|ps| - 1];
      assert Firsts(ps) == Firsts(init) + [ps[|ps| - 1].0];
      ValuesAtCount(init, key);
    }
  }

  /** A key has salaries exactly when it occurs among the pairs. */
  lemma ValuesAtPresent<K>(ps: seq<(K, real)>, key: K)
    ensures ValuesAt(ps, key) != [] <==> key in Firsts(ps)
  {
    ValuesAtCount(ps, key);
    assert key in Firsts(ps) <==> multiset(Firsts(ps))[key] > 0;
  }
}
