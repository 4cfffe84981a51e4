/** Python's `sorted(items, key=score, reverse=True)`: a stable sort into
    non-increasing order of a score, modelled as an insertion sort. Python's
    sort with `reverse=True` keeps items of equal score in their original
    order; `SortIsStable` states exactly that. */
module StableSort {

  import opened Seqs

  ghost predicate SortedDesc<T>(s: seq<T>, score: T -> real) {
    forall i, j | 0 <= i < j < |s| :: score(s[i]) >= score(s[j])
  }

  /** The items of `s` whose score is `v`, in their order in `s`. */
  function WithScore<T>(s: seq<T>, score: T -> real, v: real): seq<T> {
    if |s| == 0 then []
    else (if score(s[0]) == v then [s[0]] else []) + WithScore(s[1..], score, v)
  }

  /** Puts `x` after every item that scores strictly more than it and before
      all the others. */
  function Insert<T>(x: T, s: seq<T>, score: T -> real): (r: seq<T>)
    ensures |r| == |s| + 1
    ensures multiset(r) == multiset(s) + multiset{x}
  {
    if |s| == 0 then [x]
    else if score(s[0]) > score(x) then
      assert s == [s[0]] + s[1..];
      [s[0]] + Insert(x, s[1..], score)
    else
      [x] + s
  }

  lemma {:induction false} InsertSorted<T>(x: T, s: seq<T>, score: T -> real)
    requires SortedDesc(s, score)
    ensures SortedDesc(Insert(x, s, score), score)
  {
    if |s| > 0 && score(s[0]) > score(x) {
      var rest := Insert(x, s[1..], score);
      assert SortedDesc(s[1..], score);
      InsertSorted(x, s[1..], score);
      HeadDominates(x, s, score);
      ConsSorted(s[0], rest, score);
      assert Insert(x, s, score) == [s[0]] + rest;
    }
  }

  /** The head of a sorted list scores at least as much as anything `x` can
      be inserted among in its tail, when it beats `x` too. */
  lemma HeadDominates<T>(x: T, s: seq<T>, score: T -> real)
    requires SortedDesc(s, score)
    requires |s| > 0 && score(s[0]) > score(x)
    ensures forall j | 0 <= j < |Insert(x, s[1..], score)| :: score(s[0]) >= score(Insert(x, s[1..], score)[j])
  {
    var rest := Insert(x, s[1..], score);
    forall j | 0 <= j < |rest| ensures score(s[0]) >= score(rest[j]) {
      assert rest[j] in multiset(rest);
      if rest[j] != x {
        assert rest[j] in multiset(s[1..]);
        var k :| 0 <= k < |s[1..]| && s[1..][k] == rest[j];
        assert s[1..][k] == s[k + 1];
      }
    }
  }

  lemma ConsSorted<T>(h: T, rest: seq<T>, score: T -> real)
    requires SortedDesc(rest, score)
    requires forall j | 0 <= j < |rest| :: score(h) >= score(rest[j])
    ensures SortedDesc([h] + rest, score)
  {
    var r := [h] + rest;
    forall i, j | 0 <= i < j < |r| ensures score(r[i]) >= score(r[j]) {
      if i == 0 {
        assert r[j] == rest[j - 1];
      } else {
        assert r[i] == rest[i - 1] && r[j] == rest[j - 1];
      }
    }
  }

  function Sort<T>(s: seq<T>, score: T -> real): (r: seq<T>)
    ensures |r| == |s|
    ensures multiset(r) == multiset(s)
    ensures SortedDesc(r, score)
  {
    if |s| == 0 then []
    else
      assert s == [s[0]] + s[1..];
      var rest := Sort(s[1..], score);
      InsertSorted(s[0], rest, score);
      Insert(s[0], rest, score)
  }

  lemma {:induction false} WithScoreAppend<T>(a: seq<T>, b: seq<T>, score: T -> real, v: real)
    ensures WithScore(a + b, score, v) == WithScore(a, score, v) + WithScore(b, score, v)
  {
    if |a| > 0 {
      assert (a + b)[1..] == a[1..] + b;
      WithScoreAppend(a[1..], b, score, v);
    } else {
      assert a + b == b;
    }
  }

  /** Inserting `x` adds it in front of the items of equal score and
      disturbs nothing else. */
  lemma {:induction false} InsertStable<T>(x: T, s: seq<T>, score: T -> real, v: real)
    ensures WithScore(Insert(x, s, score), score, v)
            == (if score(x) == v then [x] else []) + WithScore(s, score, v)
  {
    if |s| == 0 {
      assert Insert(x, s, score) == [x];
      WithScoreSingle(x, score, v);
    } else if score(s[0]) > score(x) {
      InsertStable(x, s[1..], score, v);
      assert Insert(x, s, score) == [s[0]] + Insert(x, s[1..], score);
      assert [s[0]] + s[1..] == s;
      InsertBehind(x, s[0], s[1..], Insert(x, s[1..], score), score, v);
    } else {
      assert Insert(x, s, score) == [x] + s;
      WithScoreAppend([x], s, score, v);
      WithScoreSingle(x, score, v);
    }
  }

  /** The step of `InsertStable` where `x` goes past the first item `h`. */
  lemma InsertBehind<T>(x: T, h: T, t: seq<T>, rest: seq<T>, score: T -> real, v: real)
    requires score(h) > score(x)
    requires WithScore(rest, score, v) == (if score(x) == v then [x] else []) + WithScore(t, score, v)
    ensures WithScore([h] + rest, score, v)
            == (if score(x) == v then [x] else []) + WithScore([h] + t, score, v)
  {
    WithScoreCons(h, rest, score, v);
    WithScoreCons(h, t, score, v);
    var heads := if score(h) == v then [h] else [];
    var tail := WithScore(t, score, v);
    if score(x) == v {
      assert heads == [];
    } else {
      assert heads + ([] + tail) == [] + (heads + tail);
    }
  }

  lemma WithScoreCons<T>(h: T, t: seq<T>, score: T -> real, v: real)
    ensures WithScore([h] + t, score, v) == (if score(h) == v then [h] else []) + WithScore(t, score, v)
  {
    assert ([h] + t)[0] == h && ([h] + t)[1..] == t;
  }

  lemma WithScoreSingle<T>(x: T, score: T -> real, v: real)
    ensures WithScore([x], score, v) == if score(x) == v then [x] else []
  {
    assert [x][1..] == [];
  }

  /** Items of equal score leave the sort in the order they entered it. */
  lemma {:induction false} SortIsStable<T>(s: seq<T>, score: T -> real, v: real)
    ensures WithScore(Sort(s, score), score, v) == WithScore(s, score, v)
  {
    if |s| > 0 {
      InsertStable(s[0], Sort(s[1..], score), score, v);
      SortIsStable(s[1..], score, v);
    }
  }

  /** Cutting a sorted list keeps, for each score, a prefix of its items. */
  lemma {:induction false} WithScoreOfPrefix<T>(s: seq<T>, n: nat, score: T -> real, v: real)
    requires n <= |s|
    ensures IsPrefix(WithScore(s[..n], score, v), WithScore(s, score, v))
  {
    WithScoreAppend(s[..n], s[n..], score, v);
    assert s[..n] + s[n..] == s;
  }

  /** The first `n` items of the stable sort: `sorted(...)[:n]`. */
  function Top<T>(s: seq<T>, score: T -> real, n: nat): seq<T> {
    Take(Sort(s, score), n)
  }

  /** What a top-`n` table promises: at most `n` items, all taken from `s`,
      in non-increasing order; nothing left out scores more than anything
      kept; fewer than `n` items only when all of `s` was kept; and items of
      equal score keep their order in `s`. */
  lemma TopSpec<T>(s: seq<T>, score: T -> real, n: nat)
    ensures |Top(s, score, n)| <= n
    ensures |Top(s, score, n)| == n || |Top(s, score, n)| == |s|
    ensures multiset(Top(s, score, n)) <= multiset(s)
    ensures SortedDesc(Top(s, score, n), score)
    ensures forall x, y | x in s && x !in Top(s, score, n) && y in Top(s, score, n) :: score(y) >= score(x)
    ensures forall v :: IsPrefix(WithScore(Top(s, score, n), score, v), WithScore(s, score, v))
  {
    var sorted := Sort(s, score);
    var r := Top(s, score, n);
    assert r == sorted[..|r|];
    assert sorted == r + sorted[|r|..];
    assert multiset(sorted) == multiset(r) + multiset(sorted[|r|..]);
    TopDominates(s, score, n);
    forall v ensures IsPrefix(WithScore(r, score, v), WithScore(s, score, v)) {
      WithScoreOfPrefix(sorted, |r|, score, v);
      SortIsStable(s, score, v);
    }
  }

  /** Nothing left out of the top `n` scores more than anything kept. */
  lemma TopDominates<T>(s: seq<T>, score: T -> real, n: nat)
    ensures forall x, y | x in s && x !in Top(s, score, n) && y in Top(s, score, n) :: score(y) >= score(x)
  {
    var sorted := Sort(s, score);
    var r := Top(s, score, n);
    assert r == sorted[..|r|];
    forall x, y | x in s && x !in r && y in r ensures score(y) >= score(x) {
      assert x in multiset(sorted);
      var j :| 0 <= j < |sorted| && sorted[j] == x;
      var i :| 0 <= i < |r| && r[i] == y;
      assert sorted[i] == y;
    }
  }

  lemma TopMembers<T>(s: seq<T>, score: T -> real, n: nat)
    ensures forall x | x in Top(s, score, n) :: x in s
  {
    var sorted := Sort(s, score);
    forall x | x in Top(s, score, n) ensures x in s {
      assert x in sorted;
      assert x in multiset(sorted);
    }
  }

  /** The top `n` of a sequence without repeats has no repeats. */
  lemma TopDistinct<T>(s: seq<T>, score: T -> real, n: nat)
    requires Distinct(s)
    ensures Distinct(Top(s, score, n))
  {
    TopSpec(s, score, n);
    SubMultisetDistinct(Top(s, score, n), s);
  }
}
