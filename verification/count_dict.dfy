/** `CountDict`: the number of records seen under each key, the running
    total `length`, and the two views `calculate_proportion` derives from
    them (the keys holding at least a tenth of the records and the ten
    largest of those shares). */
module CountDicts {

  import opened Seqs
  import opened Numeric
  import opened StableSort

  /** `keys` is the insertion order of the Python dict `amount_dict`. */
  datatype CountDict<K> = CountDict(
    keys: seq<K>,
    amounts: map<K, nat>,
    length: nat,
    bigTowns: seq<K>,
    prevailing: seq<(K, real)>)

  ghost predicate Valid<K>(d: CountDict<K>) {
    && Distinct(d.keys)
    && (forall k | k in d.keys :: k in d.amounts)
    && (forall k | k in d.amounts :: k in d.keys)
    && (forall k | k in d.amounts :: d.amounts[k] > 0)
    && d.length == SumOver(d.keys, d.amounts)
  }

  function Empty<K>(): (d: CountDict<K>)
    ensures Valid(d)
  {
    CountDict([], map[], 0, [], [])
  }

  /** `update_amount`: one more record under `key`, and one more in total. */
  function UpdateAmount<K>(d: CountDict<K>, key: K): (r: CountDict<K>)
    requires Valid(d)
    ensures Valid(r)
    ensures r.amounts.Keys == d.amounts.Keys + {key}
    ensures r.amounts[key] == (if key in d.amounts then d.amounts[key] else 0) + 1
    ensures forall k | k in d.amounts && k != key :: r.amounts[k] == d.amounts[k]
    ensures r.length == d.length + 1
    ensures r.keys == if key in d.amounts then d.keys else d.keys + [key]
  {
    if key in d.amounts then
      ValidAfterBump(d, key);
      CountDict(d.keys, d.amounts[key := d.amounts[key] + 1], d.length + 1, d.bigTowns, d.prevailing)
    else
      ValidAfterAdd(d, key);
      CountDict(d.keys + [key], d.amounts[key := 1], d.length + 1, d.bigTowns, d.prevailing)
  }

  lemma ValidAfterBump<K>(d: CountDict<K>, key: K)
    requires Valid(d) && key in d.amounts
    ensures Valid(CountDict(d.keys, d.amounts[key := d.amounts[key] + 1], d.length + 1, d.bigTowns, d.prevailing))
  {
    var amounts := d.amounts[key := d.amounts[key] + 1];
    SumOverUpdatePresent(d.keys, d.amounts, key, d.amounts[key] + 1);
    assert SumOver(d.keys, amounts) == d.length + 1;
    assert forall k | k in amounts :: amounts[k] > 0;
  }

  lemma ValidAfterAdd<K>(d: CountDict<K>, key: K)
    requires Valid(d) && key !in d.amounts
    ensures Valid(CountDict(d.keys + [key], d.amounts[key := 1], d.length + 1, d.bigTowns, d.prevailing))
  {
    SumAfterAdd(d, key);
    assert key !in d.keys;
    DistinctAppend(d.keys, key);
  }

  lemma SumAfterAdd<K>(d: CountDict<K>, key: K)
    requires Valid(d) && key !in d.amounts
    ensures SumOver(d.keys + [key], d.amounts[key := 1]) == d.length + 1
  {
    var keys := d.keys + [key];
    assert key !in d.keys;
    SumOverUpdateAbsent(d.keys, d.amounts, key, 1);
    assert keys[..|keys| - 1] == d.keys;
  }

  /** The counter after `update_amount` was called with each of `ks` in turn. */
  function FromKeys<K>(ks: seq<K>): (d: CountDict<K>)
    ensures Valid(d)
  {
    if |ks| == 0 then Empty() else UpdateAmount(FromKeys(ks[..|ks| - 1]), ks[|ks| - 1])
  }

  lemma FromKeysSnoc<K>(ks: seq<K>, key: K)
    ensures FromKeys(ks + [key]) == UpdateAmount(FromKeys(ks), key)
  {
    assert (ks + [key])[..|ks|] == ks;
  }

  /** Counting keys one by one: every key is counted as often as it occurs,
      the keys keep the order of their first occurrence, and `length` is the
      number of calls. */
  lemma FromKeysCounts<K>(ks: seq<K>)
    ensures FromKeys(ks).length == |ks|
    ensures FromKeys(ks).keys == Dedup(ks)
    ensures forall k | k in ks :: k in FromKeys(ks).amounts
    ensures forall k | k in FromKeys(ks).amounts :: k in ks && FromKeys(ks).amounts[k] == multiset(ks)[k]
  {
    FromKeysLength(ks);
    FromKeysKeys(ks);
    FromKeysAmounts(ks);
  }

  lemma {:induction false} FromKeysLength<K>(ks: seq<K>)
    ensures FromKeys(ks).length == |ks|
  {
    if |ks| > 0 {
      FromKeysLength(ks[..|ks| - 1]);
    }
  }

  lemma {:induction false} FromKeysKeys<K>(ks: seq<K>)
    ensures FromKeys(ks).keys == Dedup(ks)
    ensures forall k | k in ks :: k in FromKeys(ks).amounts
    ensures forall k | k in FromKeys(ks).amounts :: k in ks
  {
    if |ks| > 0 {
      FromKeysKeys(ks[..|ks| - 1]);
      KeysStep(FromKeys(ks[..|ks| - 1]), ks);
    }
  }

  /** One `update_amount` extends the first-occurrence order by its key. */
  lemma KeysStep<K>(d: CountDict<K>, ks: seq<K>)
    requires Valid(d) && |ks| > 0
    requires d.keys == Dedup(ks[..|ks| - 1])
    requires forall k :: k in ks[..|ks| - 1] <==> k in d.amounts
    ensures UpdateAmount(d, ks[|ks| - 1]).keys == Dedup(ks)
    ensures forall k :: k in ks <==> k in UpdateAmount(d, ks[|ks| - 1]).amounts
  {
    SplitLast(ks);
  }

  lemma {:induction false} FromKeysAmounts<K>(ks: seq<K>)
    ensures forall k | k in FromKeys(ks).amounts :: FromKeys(ks).amounts[k] == multiset(ks)[k]
  {
    if |ks| > 0 {
      FromKeysAmounts(ks[..|ks| - 1]);
      FromKeysKeys(ks[..|ks| - 1]);
      AmountsStep(FromKeys(ks[..|ks| - 1]), ks);
    }
  }

  /** One `update_amount` counts its key once more. */
  lemma AmountsStep<K>(d: CountDict<K>, ks: seq<K>)
    requires Valid(d) && |ks| > 0
    requires forall k :: k in ks[..|ks| - 1] <==> k in d.amounts
    requires forall k | k in d.amounts :: d.amounts[k] == multiset(ks[..|ks| - 1])[k]
    ensures forall k | k in UpdateAmount(d, ks[|ks| - 1]).amounts ::
      UpdateAmount(d, ks[|ks| - 1]).amounts[k] == multiset(ks)[k]
  {
    var init, key := ks[..|ks| - 1], ks[|ks| - 1];
    SplitLast(ks);
    var r := UpdateAmount(d, key);
    forall k | k in r.amounts ensures r.amounts[k] == multiset(ks)[k] {
      if k !in d.amounts {
        assert k !in init;
      }
    }
  }

  /** The share `amount / length` at or above `1 / per`, compared exactly:
      `amount / length >= 1 / per` is `per * amount >= length`. */
  predicate ShareAtLeast(amount: nat, length: nat, per: nat) {
    per * amount >= length
  }

  /** `round(amount / length, 4)`. */
  function RoundedShare(amount: nat, length: nat): real
    requires length > 0
  {
    Round(amount as real / length as real, 4)
  }

  /** The keys of `keys`, in order, whose share is at least `1 / per`, each
      paired with its share rounded to four decimals. */
  function Shares<K>(keys: seq<K>, amounts: map<K, nat>, length: nat, per: nat): (r: seq<(K, real)>)
    requires forall k | k in keys :: k in amounts
    requires keys != [] ==> length > 0
    ensures forall e | e in r :: e.0 in keys
  {
    if |keys| == 0 then []
    else
      var k := keys[0];
      (if ShareAtLeast(amounts[k], length, per) then [(k, RoundedShare(amounts[k], length))] else [])
      + Shares(keys[1..], amounts, length, per)
  }

  function Keys<K>(rows: seq<(K, real)>): (r: seq<K>)
    ensures |r| == |rows|
    ensures forall i | 0 <= i < |rows| :: r[i] == rows[i].0
  {
    if |rows| == 0 then [] else [rows[0].0] + Keys(rows[1..])
  }

  function ShareOf<K>(e: (K, real)): real {
    e.1
  }

  /** Every row of `Shares` is a key of `keys` whose share reaches `1 / per`,
      paired with its rounded share. */
  lemma {:induction false} SharesRows<K>(keys: seq<K>, amounts: map<K, nat>, length: nat, per: nat)
    requires forall k | k in keys :: k in amounts
    requires keys != [] ==> length > 0
    ensures forall e | e in Shares(keys, amounts, length, per) ::
      && e.0 in keys && ShareAtLeast(amounts[e.0], length, per)
      && length > 0 && e.1 == RoundedShare(amounts[e.0], length)
  {
    if |keys| > 0 {
      SharesRows(keys[1..], amounts, length, per);
    }
  }

  /** Every key whose share reaches `1 / per` gets a row. */
  lemma {:induction false} SharesComplete<K>(keys: seq<K>, amounts: map<K, nat>, length: nat, per: nat)
    requires forall k | k in keys :: k in amounts
    requires keys != [] ==> length > 0
    ensures forall k | k in keys && ShareAtLeast(amounts[k], length, per) ::
      k in Keys(Shares(keys, amounts, length, per))
  {
    if |keys| > 0 {
      var rest := Shares(keys[1..], amounts, length, per);
      SharesComplete(keys[1..], amounts, length, per);
      forall k | k in keys && ShareAtLeast(amounts[k], length, per)
        ensures k in Keys(Shares(keys, amounts, length, per))
      {
        if k != keys[0] {
          var i :| 0 <= i < |keys| && keys[i] == k;
          assert keys[1..][i - 1] == k;
          var j :| 0 <= j < |rest| && Keys(rest)[j] == k;
          var r := Shares(keys, amounts, length, per);
          var off := |r| - |rest|;
          assert r[off + j] == rest[j];
          assert Keys(r)[off + j] == k;
        } else {
          assert Keys(Shares(keys, amounts, length, per))[0] == k;
        }
      }
    }
  }

  /** Distinct keys give distinct rows. */
  lemma {:induction false} SharesDistinct<K>(keys: seq<K>, amounts: map<K, nat>, length: nat, per: nat)
    requires forall k | k in keys :: k in amounts
    requires keys != [] ==> length > 0
    requires Distinct(keys)
    ensures Distinct(Keys(Shares(keys, amounts, length, per)))
  {
    if |keys| > 0 {
      var rest := Shares(keys[1..], amounts, length, per);
      assert keys[0] !in keys[1..] && Distinct(keys[1..]) by {
        forall i | 0 <= i < |keys[1..]| ensures keys[1..][i] != keys[0] {
          assert keys[1..][i] == keys[i + 1];
        }
      }
      SharesDistinct(keys[1..], amounts, length, per);
      SharesRows(keys[1..], amounts, length, per);
      assert keys[0] !in Keys(rest);
      var r := Shares(keys, amounts, length, per);
      if ShareAtLeast(amounts[keys[0]], length, per) {
        assert Keys(r) == [keys[0]] + Keys(rest);
      } else {
        assert r == rest;
      }
    }
  }

  /** `Shares` walks the keys in order: splitting the keys splits the rows. */
  lemma {:induction false} SharesAppend<K>(a: seq<K>, b: seq<K>, amounts: map<K, nat>, length: nat, per: nat)
    requires forall k | k in a + b :: k in amounts
    requires a + b != [] ==> length > 0
    ensures Shares(a + b, amounts, length, per)
            == Shares(a, amounts, length, per) + Shares(b, amounts, length, per)
  {
    if |a| == 0 {
      assert a + b == b;
    } else {
      var ab := a + b;
      assert ab[0] == a[0];
      assert ab[1..] == a[1..] + b;
      SharesAppend(a[1..], b, amounts, length, per);
      var head := if ShareAtLeast(amounts[a[0]], length, per) then [(a[0], RoundedShare(amounts[a[0]], length))] else [];
      assert Shares(ab, amounts, length, per) == head + Shares(ab[1..], amounts, length, per);
      assert Shares(a, amounts, length, per) == head + Shares(a[1..], amounts, length, per);
      var sa, sb := Shares(a[1..], amounts, length, per), Shares(b, amounts, length, per);
      assert head + (sa + sb) == (head + sa) + sb;
    }
  }

  /** Every key whose share reaches `1 / per` gets its row. */
  lemma SharesHas<K>(keys: seq<K>, amounts: map<K, nat>, length: nat, per: nat)
    requires forall k | k in keys :: k in amounts
    requires keys != [] ==> length > 0
    ensures forall k | k in keys && ShareAtLeast(amounts[k], length, per) ::
      length > 0 && (k, RoundedShare(amounts[k], length)) in Shares(keys, amounts, length, per)
  {
    var rows := Shares(keys, amounts, length, per);
    SharesComplete(keys, amounts, length, per);
    SharesRows(keys, amounts, length, per);
    forall k | k in keys && ShareAtLeast(amounts[k], length, per)
      ensures length > 0 && (k, RoundedShare(amounts[k], length)) in rows
    {
      var i :| 0 <= i < |rows| && Keys(rows)[i] == k;
      assert rows[i] in rows;
    }
  }

  /** Every share row lies between `1 / per` and one when no key counts
      more than `length`. */
  lemma SharesBounds<K>(keys: seq<K>, amounts: map<K, nat>, length: nat, per: nat)
    requires forall k | k in keys :: k in amounts && amounts[k] <= length
    requires keys != [] ==> length > 0
    requires per > 0 && 10000 % per == 0
    ensures forall e | e in Shares(keys, amounts, length, per) :: 1.0 / per as real <= e.1 <= 1.0
  {
    SharesRows(keys, amounts, length, per);
    forall e | e in Shares(keys, amounts, length, per) ensures 1.0 / per as real <= e.1 <= 1.0 {
      RoundedShareBounds(amounts[e.0], length, per);
    }
  }

  /** A kept share of at least `1 / per` (with `per` dividing 10000) still is
      one after rounding to four decimals, and no rounded share exceeds one. */
  lemma RoundedShareBounds(amount: nat, length: nat, per: nat)
    requires length > 0 && per > 0 && 10000 % per == 0
    requires ShareAtLeast(amount, length, per) && amount <= length
    ensures 1.0 / per as real <= RoundedShare(amount, length) <= 1.0
  {
    Pow10Values();
    var x := amount as real / length as real;
    var lo := 10000 / per;
    assert lo * per == 10000;
    assert lo as real / 10000.0 == 1.0 / per as real;
    ShareBelowOne(amount, length);
    ShareAtLeastExact(amount, length, per);
    assert 10000 as real / 10000.0 == 1.0;
    RoundBetweenGridPoints(x, lo, 10000, 4);
  }

  lemma ShareBelowOne(amount: nat, length: nat)
    requires 0 < length && amount <= length
    ensures amount as real / length as real <= 1.0
  {
  }

  /** The integer comparison `ShareAtLeast` is the exact real one. */
  lemma ShareAtLeastExact(amount: nat, length: nat, per: nat)
    requires length > 0 && per > 0
    ensures ShareAtLeast(amount, length, per) <==> amount as real / length as real >= 1.0 / per as real
  {
    var x := amount as real / length as real;
    var p, n := per as real, length as real;
    assert x * n == amount as real;
    assert x >= 1.0 / p <==> x * p >= 1.0;
    assert x * p >= 1.0 <==> x * p * n >= n;
    assert x * p * n == p * amount as real;
  }

  /** `calculate_proportion`: appends the keys with share at least 0.1 to
      `bigTowns` and keeps the ten largest rounded shares among them. */
  function CalculateProportion<K>(d: CountDict<K>): (r: CountDict<K>)
    requires Valid(d)
    ensures r.keys == d.keys && r.amounts == d.amounts && r.length == d.length
  {
    LengthPositive(d);
    var big := Shares(d.keys, d.amounts, d.length, 10);
    d.(bigTowns := d.bigTowns + Keys(big), prevailing := Top(big, ShareOf, 10))
  }

  /** The counts are left alone and `bigTowns` grows by exactly the keys
      whose share is at least 0.1, once each, in the order of `d.keys`. */
  lemma CalculateProportionBigTowns<K>(d: CountDict<K>)
    requires Valid(d)
    ensures var r := CalculateProportion(d);
      var added := r.bigTowns[|d.bigTowns|..];
      && IsPrefix(d.bigTowns, r.bigTowns)
      && added == Keys(Shares(d.keys, d.amounts, d.length, 10))
      && (forall k | k in added :: k in d.amounts && 10 * d.amounts[k] >= d.length)
      && (forall k | k in d.amounts && 10 * d.amounts[k] >= d.length :: k in added)
      && Distinct(added)
  {
    LengthPositive(d);
    var r := CalculateProportion(d);
    var big := Shares(d.keys, d.amounts, d.length, 10);
    var added := r.bigTowns[|d.bigTowns|..];
    assert added == Keys(big);
    SharesRows(d.keys, d.amounts, d.length, 10);
    SharesComplete(d.keys, d.amounts, d.length, 10);
    SharesDistinct(d.keys, d.amounts, d.length, 10);
    forall k | k in added ensures k in d.amounts && 10 * d.amounts[k] >= d.length {
      var i :| 0 <= i < |added| && added[i] == k;
      assert big[i] in big;
    }
  }

  /** Every entry of `prevailing` is a big key with its rounded share, which
      is at least 0.1. */
  lemma CalculateProportionPrevailingRows<K>(d: CountDict<K>)
    requires Valid(d)
    ensures forall e | e in CalculateProportion(d).prevailing ::
      && e.0 in d.amounts && 10 * d.amounts[e.0] >= d.length
      && e.1 == RoundedShare(d.amounts[e.0], d.length) && e.1 >= 0.1
  {
    LengthPositive(d);
    var big := Shares(d.keys, d.amounts, d.length, 10);
    BigRows(d);
    TopMembers(big, ShareOf, 10);
    assert CalculateProportion(d).prevailing == Top(big, ShareOf, 10);
  }

  /** The rows `calculate_proportion` sorts: big keys with their rounded
      shares, each at least 0.1. */
  lemma BigRows<K>(d: CountDict<K>)
    requires Valid(d)
    ensures d.keys != [] ==> d.length > 0
    ensures forall e | e in Shares(d.keys, d.amounts, d.length, 10) ::
      && e.0 in d.amounts && 10 * d.amounts[e.0] >= d.length
      && e.1 == RoundedShare(d.amounts[e.0], d.length) && e.1 >= 0.1
  {
    LengthPositive(d);
    SharesRows(d.keys, d.amounts, d.length, 10);
    SharesBounds(d.keys, d.amounts, d.length, 10);
    assert 1.0 / 10 as real == 0.1;
  }

  /** `prevailing` holds at most ten big keys, largest share first; none left
      out is larger than one kept; there are fewer than ten only when every
      big key is there; equal shares keep insertion order. */
  lemma CalculateProportionPrevailingOrder<K>(d: CountDict<K>)
    requires Valid(d)
    ensures var r := CalculateProportion(d);
      var big := Shares(d.keys, d.amounts, d.length, 10);
      && |r.prevailing| <= 10
      && SortedDesc(r.prevailing, ShareOf)
      && (forall e, f | e in big && e !in r.prevailing && f in r.prevailing :: ShareOf(f) >= ShareOf(e))
      && (|r.prevailing| == 10 || multiset(r.prevailing) == multiset(big))
      && (forall v :: IsPrefix(WithScore(r.prevailing, ShareOf, v), WithScore(big, ShareOf, v)))
  {
    LengthPositive(d);
    var big := Shares(d.keys, d.amounts, d.length, 10);
    TopSpec(big, ShareOf, 10);
    assert CalculateProportion(d).prevailing == Top(big, ShareOf, 10);
  }

  lemma LengthPositive<K>(d: CountDict<K>)
    requires Valid(d)
    ensures d.keys != [] ==> d.length > 0
    ensures forall k | k in d.amounts :: d.amounts[k] <= d.length
  {
    forall k | k in d.amounts ensures d.amounts[k] <= d.length {
      SumOverAtLeast(d.keys, d.amounts, k);
    }
    if d.keys != [] {
      assert d.keys[0] in d.amounts;
    }
  }
}
