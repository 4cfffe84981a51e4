/** `CreateReport.apply_attributes`: the chart labels of the city salary
    table, wrapped onto two or more lines. A label with spaces breaks at
    every space; otherwise a label with a dash breaks after its first dash;
    any other label is kept. */
module Labels {

  /** `s.replace(c, rep)`: every `c` becomes `rep`. */
  function ReplaceAll(s: string, c: char, rep: string): (r: string)
    ensures c !in rep ==> c !in r
    ensures c !in s ==> r == s
  {
    if |s| == 0 then ""
    else (if s[0] == c then rep else [s[0]]) + ReplaceAll(s[1..], c, rep)
  }

  /** `s.replace(c, rep, 1)`: the first `c` becomes `rep`. */
  function ReplaceFirst(s: string, c: char, rep: string): (r: string)
    ensures c !in s ==> r == s
  {
    if |s| == 0 then ""
    else if s[0] == c then rep + s[1..]
    else [s[0]] + ReplaceFirst(s[1..], c, rep)
  }

  /** `s.count(c)`. */
  function Count(s: string, c: char): (n: nat)
    ensures n == 0 <==> c !in s
  {
    if |s| == 0 then 0 else (if s[0] == c then 1 else 0) + Count(s[1..], c)
  }

  /** The three branches of the loop body. */
  function Wrap(key: string): (w: string)
    ensures ' ' in key ==> ' ' !in w
    ensures ' ' in key ==> |w| == |key| && forall i | 0 <= i < |key| ::
      w[i] == if key[i] == ' ' then '\n' else key[i]
    ensures ' ' !in key && '-' in key ==> exists i | 0 <= i < |key| ::
      && key[i] == '-' && '-' !in key[..i]
      && w == key[..i + 1] + "\n" + key[i + 1..]
    ensures ' ' !in key && '-' !in key ==> w == key
  {
    if ' ' in key then
      ReplaceCharAt(key, ' ', '\n');
      ReplaceAll(key, ' ', "\n")
    else if '-' in key && Count(key, '-') == 1 then
      SingleDashBranches(key, '-', "-\n");
      BreakAfterFirst(key, '-');
      ReplaceAll(key, '-', "-\n")
    else if '-' in key && Count(key, '-') != 1 then
      BreakAfterFirst(key, '-');
      ReplaceFirst(key, '-', "-\n")
    else key
  }

  /** Replacing one character by another changes exactly the positions
      that held it. */
  lemma {:induction false} ReplaceCharAt(s: string, a: char, b: char)
    ensures |ReplaceAll(s, a, [b])| == |s|
    ensures forall i | 0 <= i < |s| :: ReplaceAll(s, a, [b])[i] == if s[i] == a then b else s[i]
  {
    if |s| > 0 {
      ReplaceCharAt(s[1..], a, b);
      var rest := ReplaceAll(s[1..], a, [b]);
      var head: string := if s[0] == a then [b] else [s[0]];
      assert ReplaceAll(s, a, [b]) == head + rest;
      forall i | 0 <= i < |s| ensures (head + rest)[i] == if s[i] == a then b else s[i] {
        if i > 0 {
          assert (head + rest)[i] == rest[i - 1] && s[1..][i - 1] == s[i];
        }
      }
    }
  }

  /** The position of the first `c` in `s`. */
  function FirstIndex(s: string, c: char): (i: nat)
    requires c in s
    ensures i < |s| && s[i] == c && c !in s[..i]
  {
    if s[0] == c then 0
    else
      var i := 1 + FirstIndex(s[1..], c);
      assert s[..i] == [s[0]] + s[1..][..i - 1];
      i
  }

  /** `s.replace(c, rep, 1)` puts `rep` where the first `c` was. */
  lemma {:induction false} ReplaceFirstAt(s: string, c: char, rep: string, i: nat)
    requires i < |s| && s[i] == c && c !in s[..i]
    ensures ReplaceFirst(s, c, rep) == s[..i] + rep + s[i + 1..]
  {
    if i > 0 {
      var t := s[1..];
      assert s[0] != c by { assert s[0] == s[..i][0]; }
      assert t[..i - 1] == s[1..i];
      ReplaceFirstAt(t, c, rep, i - 1);
      assert s[..i] == [s[0]] + t[..i - 1];
      assert s[i + 1..] == t[i..];
    }
  }

  /** Replacing the first `c` by `c` and a line break breaks the line right
      after the first `c`. */
  lemma {:induction false} BreakAfterFirst(s: string, c: char)
    requires c in s
    ensures exists i | 0 <= i < |s| ::
      && s[i] == c && c !in s[..i]
      && ReplaceFirst(s, c, [c, '\n']) == s[..i + 1] + "\n" + s[i + 1..]
  {
    var i := FirstIndex(s, c);
    ReplaceFirstAt(s, c, [c, '\n'], i);
    assert s[..i] + [c, '\n'] + s[i + 1..] == s[..i + 1] + "\n" + s[i + 1..] by {
      assert s[..i + 1] == s[..i] + [c];
    }
  }

  /** With a single dash, replacing every dash and replacing the first one
      agree, so the two dash branches of `apply_attributes` do the same. */
  lemma {:induction false} SingleDashBranches(s: string, c: char, rep: string)
    requires Count(s, c) == 1
    ensures ReplaceAll(s, c, rep) == ReplaceFirst(s, c, rep)
  {
    if s[0] == c {
      assert c !in s[1..];
    } else {
      SingleDashBranches(s[1..], c, rep);
    }
  }

  /** Replacing one character by another is undone by the reverse
      replacement when the new character did not occur before. */
  lemma {:induction false} ReplaceBack(s: string, a: char, b: char)
    requires b !in s
    ensures ReplaceAll(ReplaceAll(s, a, [b]), b, [a]) == s
  {
    if |s| > 0 {
      ReplaceBack(s[1..], a, b);
      var head := if s[0] == a then [b] else [s[0]];
      ReplaceAllAppend(head, ReplaceAll(s[1..], a, [b]), b, [a]);
      assert ReplaceAll(head, b, [a]) == [s[0]] by {
        assert head[1..] == [];
      }
    }
  }

  lemma {:induction false} ReplaceAllAppend(x: string, y: string, c: char, rep: string)
    ensures ReplaceAll(x + y, c, rep) == ReplaceAll(x, c, rep) + ReplaceAll(y, c, rep)
  {
    if |x| == 0 {
      assert x + y == y;
    } else {
      assert (x + y)[1..] == x[1..] + y;
      ReplaceAllAppend(x[1..], y, c, rep);
      var h := if x[0] == c then rep else [x[0]];
      var p, q := ReplaceAll(x[1..], c, rep), ReplaceAll(y, c, rep);
      assert h + (p + q) == (h + p) + q;
    }
  }

  /** Inserting a line break after the first dash is undone by deleting the
      line breaks, when the label had none. */
  lemma {:induction false} BreakAfterFirstBack(s: string, c: char)
    requires '\n' !in s && c != '\n'
    ensures ReplaceAll(ReplaceFirst(s, c, [c, '\n']), '\n', "") == s
  {
    if c in s {
      var i := FirstIndex(s, c);
      ReplaceFirstAt(s, c, [c, '\n'], i);
      var x, y := s[..i + 1], s[i + 1..];
      assert x + y == s;
      assert ReplaceFirst(s, c, [c, '\n']) == x + (['\n'] + y) by {
        assert x == s[..i] + [c];
      }
      assert '\n' !in x && '\n' !in y by {
        assert forall k | 0 <= k < |x| :: x[k] == s[k];
        assert forall k | 0 <= k < |y| :: y[k] == s[i + 1 + k];
      }
      DropBreak(x, y);
    }
  }

  /** Deleting the line breaks of `x`, a line break and `y` joins `x` and
      `y` when they hold none. */
  lemma {:induction false} DropBreak(x: string, y: string)
    requires '\n' !in x && '\n' !in y
    ensures ReplaceAll(x + (['\n'] + y), '\n', "") == x + y
  {
    var z := ['\n'] + y;
    ReplaceAllAppend(x, z, '\n', "");
    assert z[0] == '\n' && z[1..] == y;
    assert ReplaceAll(z, '\n', "") == ReplaceAll(y, '\n', "");
  }

  /** A wrapped label gives the label back: line breaks turn into spaces
      again for a label with spaces, and are dropped for any other label. */
  lemma Unwrap(key: string)
    requires '\n' !in key
    ensures ' ' in key ==> ReplaceAll(Wrap(key), '\n', " ") == key
    ensures ' ' !in key ==> ReplaceAll(Wrap(key), '\n', "") == key
  {
    if ' ' in key {
      ReplaceBack(key, ' ', '\n');
    } else if '-' in key {
      if Count(key, '-') == 1 {
        SingleDashBranches(key, '-', "-\n");
      }
      BreakAfterFirstBack(key, '-');
    }
  }

  /** The labels of `rows`, wrapped, in order. */
  function WrappedLabels(rows: seq<(string, int)>): (r: seq<string>)
    ensures |r| == |rows|
    ensures forall i | 0 <= i < |rows| :: r[i] == Wrap(rows[i].0)
  {
    if |rows| == 0 then [] else WrappedLabels(rows[..|rows| - 1]) + [Wrap(rows[|rows| - 1].0)]
  }

  /** `img_titles[key] = value` for every city of the salary table in order:
      a later city whose wrapped label collides overrides an earlier one. */
  function ApplyAttributes(rows: seq<(string, int)>, titles: map<string, int>): (r: map<string, int>)
    ensures forall w :: w in r <==> w in titles || w in WrappedLabels(rows)
    ensures forall w | w in titles && w !in WrappedLabels(rows) :: r[w] == titles[w]
  {
    if |rows| == 0 then titles
    else
      var init, last := rows[..|rows| - 1], rows[|rows| - 1];
      var m := ApplyAttributes(init, titles);
      assert WrappedLabels(rows) == WrappedLabels(init) + [Wrap(last.0)];
      m[Wrap(last.0) := last.1]
  }

  /** Each city's value sits under its wrapped label unless a later city
      has the same wrapped label. */
  lemma {:induction false} LastWins(rows: seq<(string, int)>, titles: map<string, int>, i: nat)
    requires i < |rows|
    requires forall j | i < j < |rows| :: Wrap(rows[j].0) != Wrap(rows[i].0)
    ensures ApplyAttributes(rows, titles)[Wrap(rows[i].0)] == rows[i].1
  {
    if i < |rows| - 1 {
      var init := rows[..|rows| - 1];
      assert forall j | i < j < |init| :: init[j] == rows[j];
      LastWins(init, titles, i);
    }
  }
}
