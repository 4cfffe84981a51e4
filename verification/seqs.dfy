/** Sequence helpers used to model Python lists and the insertion order of
    Python dictionaries. */
module Seqs {

  predicate Distinct<T(==)>(s: seq<T>) {
    forall i, j | 0 <= i < j < |s| :: s[i] != s[j]
  }

  /** The elements of `s` in order of first appearance: the key order a
      Python dict acquires when the elements are inserted one by one. */
  function Dedup<T(==)>(s: seq<T>): (r: seq<T>)
    ensures Distinct(r)
    ensures forall x | x in r :: x in s
    ensures forall x | x in s :: x in r
  {
    if |s| == 0 then []
    else
      var d := Dedup(s[..|s| - 1]);
      if s[|s| - 1] in d then d else d + [s[|s| - 1]]
  }

  /** A sequence is its front followed by its last element. */
  lemma SplitLast<T>(s: seq<T>)
    requires |s| > 0
    ensures s[..|s| - 1] + [s[|s| - 1]] == s
    ensures forall x :: x in s <==> x in s[..|s| - 1] || x == s[|s| - 1]
    ensures multiset(s) == multiset(s[..|s| - 1]) + multiset{s[|s| - 1]}
  {
    assert s == s[..|s| - 1] + [s[|s| - 1]];
  }

  lemma DistinctAppend<T>(s: seq<T>, x: T)
    requires Distinct(s) && x !in s
    ensures Distinct(s + [x])
  {
  }

  /** The head of a sequence without repeats is not in its tail, which has
      no repeats either. */
  lemma DistinctTail<T>(s: seq<T>)
    requires Distinct(s) && |s| > 0
    ensures s[0] !in s[1..] && Distinct(s[1..])
  {
    forall i | 0 <= i < |s[1..]| ensures s[1..][i] != s[0] {
      assert s[1..][i] == s[i + 1];
    }
  }

  /** A sequence without repeats holds each value at most once. */
  lemma {:induction false} DistinctCount<T>(s: seq<T>, x: T)
    requires Distinct(s)
    ensures multiset(s)[x] <= 1
  {
    if |s| > 0 {
      var init := s[..|s| - 1];
      SplitLast(s);
      assert Distinct(init);
      DistinctCount(init, x);
      if s[|s| - 1] == x {
        assert x !in init by {
          forall i | 0 <= i < |init| ensures init[i] != x {
            assert init[i] == s[i];
          }
        }
      }
    }
  }

  /** A value at two positions is held twice. */
  lemma TwiceCount<T>(s: seq<T>, i: nat, j: nat)
    requires i < j < |s| && s[i] == s[j]
    ensures multiset(s)[s[i]] >= 2
  {
    assert s == s[..j] + [s[j]] + s[j + 1..];
    assert s[i] in s[..j];
  }

  /** Taking elements of a sequence without repeats, no more often than it
      holds them, gives a sequence without repeats. */
  lemma SubMultisetDistinct<T>(a: seq<T>, b: seq<T>)
    requires multiset(a) <= multiset(b) && Distinct(b)
    ensures Distinct(a)
  {
    forall i, j | 0 <= i < j < |a| ensures a[i] != a[j] {
      if a[i] == a[j] {
        TwiceCount(a, i, j);
        DistinctCount(b, a[i]);
        assert false;
      }
    }
  }

  /** `s` without any occurrence of `x`, order kept. */
  function Without<T(==)>(s: seq<T>, x: T): (r: seq<T>)
    ensures forall y | y in r :: y in s && y != x
    ensures forall y | y in s && y != x :: y in r
    ensures Distinct(s) ==> Distinct(r)
  {
    if |s| == 0 then []
    else if s[0] == x then Without(s[1..], x)
    else
      var w := Without(s[1..], x);
      assert Distinct(s) ==> s[0] !in s[1..] && Distinct(s[1..]) by {
        if Distinct(s) {
          forall i | 0 <= i < |s[1..]| ensures s[1..][i] != s[0] {
            assert s[1..][i] == s[i + 1];
          }
        }
      }
      [s[0]] + w
  }

  /** Python's `s[:n]`. */
  function Take<T>(s: seq<T>, n: nat): (r: seq<T>)
    ensures |r| <= n && |r| <= |s|
    ensures |r| == n || r == s
    ensures IsPrefix(r, s)
  {
    if |s| <= n then s else s[..n]
  }

  predicate IsPrefix<T(==)>(a: seq<T>, b: seq<T>) {
    |a| <= |b| && a == b[..|a|]
  }

  /** `sum(d.values())` for a dict whose keys, in order, are `keys`. */
  function SumOver<K>(keys: seq<K>, m: map<K, nat>): nat
    requires forall k | k in keys :: k in m
  {
    if |keys| == 0 then 0 else SumOver(keys[..|keys| - 1], m) + m[keys[|keys| - 1]]
  }

  /** The sum reads only the values of `keys`. */
  lemma {:induction false} SumOverAgree<K>(keys: seq<K>, m: map<K, nat>, n: map<K, nat>)
    requires forall k | k in keys :: k in m && k in n && m[k] == n[k]
    ensures SumOver(keys, m) == SumOver(keys, n)
  {
    if |keys| > 0 {
      SumOverAgree(keys[..|keys| - 1], m, n);
    }
  }

  /** Changing the value of a key outside `keys` leaves the sum alone. */
  lemma {:induction false} SumOverUpdateAbsent<K>(keys: seq<K>, m: map<K, nat>, k: K, v: nat)
    requires forall j | j in keys :: j in m
    requires k !in keys
    ensures SumOver(keys, m[k := v]) == SumOver(keys, m)
  {
    if |keys| > 0 {
      SumOverUpdateAbsent(keys[..|keys| - 1], m, k, v);
    }
  }

  /** Changing the value of a key that occurs once in `keys` shifts the sum
      by the change. */
  lemma {:induction false} SumOverUpdatePresent<K>(keys: seq<K>, m: map<K, nat>, k: K, v: nat)
    requires forall j | j in keys :: j in m
    requires Distinct(keys) && k in keys
    ensures SumOver(keys, m[k := v]) == SumOver(keys, m) - m[k] + v
  {
    var init, last := keys[..|keys| - 1], keys[|keys| - 1];
    assert Distinct(init);
    if last == k {
      assert k !in init by {
        forall i | 0 <= i < |init| ensures init[i] != k {
          assert init[i] == keys[i];
        }
      }
      SumOverUpdateAbsent(init, m, k, v);
    } else {
      assert k in init by {
        var i :| 0 <= i < |keys| && keys[i] == k;
        assert i < |keys| - 1 && init[i] == k;
      }
      SumOverUpdatePresent(init, m, k, v);
    }
  }

  /** No single value exceeds the sum. */
  lemma {:induction false} SumOverAtLeast<K>(keys: seq<K>, m: map<K, nat>, k: K)
    requires forall j | j in keys :: j in m
    requires k in keys
    ensures m[k] <= SumOver(keys, m)
  {
    var init := keys[..|keys| - 1];
    if keys[|keys| - 1] != k {
      assert k in init by {
        var i :| 0 <= i < |keys| && keys[i] == k;
        assert i < |keys| - 1 && init[i] == k;
      }
      SumOverAtLeast(init, m, k);
    }
  }
}
