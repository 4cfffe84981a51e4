/** The arithmetic the report relies on: sums and means of salary lists,
    Python's `int()` conversion of a float (truncation toward zero) and
    Python's `round(x, n)` (round half to even), all over exact reals. */
module Numeric {

  function Sum(s: seq<real>): real {
    if |s| == 0 then 0.0 else Sum(s[..|s| - 1]) + s[|s| - 1]
  }

  /** `statistics.mean`; Python raises on an empty list, hence the requires. */
  function Mean(s: seq<real>): real
    requires |s| > 0
  {
    Sum(s) / |s| as real
  }

  /** Python's `int(x)` for a float `x`: the integer part, rounded toward zero. */
  function Trunc(x: real): (r: int)
    ensures 0.0 <= x ==> 0 <= r && r as real <= x < r as real + 1.0
    ensures x < 0.0 ==> r <= 0 && r as real - 1.0 < x <= r as real
  {
    if x >= 0.0 then x.Floor else -((-x).Floor)
  }

  /** Every salary of a non-empty list between `lo` and `hi` puts the mean there too. */
  lemma {:induction false} MeanBetween(s: seq<real>, lo: real, hi: real)
    requires |s| > 0
    requires forall i | 0 <= i < |s| :: lo <= s[i] <= hi
    ensures lo <= Mean(s) <= hi
  {
    SumBetween(s, lo, hi);
    var n := |s| as real;
    assert lo * n <= Sum(s) <= hi * n;
    assert Mean(s) * n == Sum(s);
  }

  lemma {:induction false} SumBetween(s: seq<real>, lo: real, hi: real)
    requires forall i | 0 <= i < |s| :: lo <= s[i] <= hi
    ensures lo * |s| as real <= Sum(s) <= hi * |s| as real
  {
    if |s| > 0 {
      var p := s[..|s| - 1];
      assert forall i | 0 <= i < |p| :: p[i] == s[i];
      SumBetween(p, lo, hi);
      assert lo <= s[|s| - 1] <= hi;
    }
  }

  function Pow10(digits: nat): (p: nat)
    ensures p >= 1
  {
    if digits == 0 then 1 else 10 * Pow10(digits - 1)
  }

  /** Round half to even to an integer: nearer neighbour, and the even one on a tie. */
  function RoundHalfEven(y: real): (n: int)
    ensures y - 0.5 <= n as real <= y + 0.5
    ensures n as real == y - 0.5 || n as real == y + 0.5 ==> n % 2 == 0
  {
    var f := y.Floor;
    var frac := y - f as real;
    if frac < 0.5 then f
    else if frac > 0.5 then f + 1
    else if f % 2 == 0 then f
    else f + 1
  }

  /** Python's `round(x, digits)`, exact (no binary floating point). */
  function Round(x: real, digits: nat): real {
    RoundToScale(x, Pow10(digits) as real)
  }

  /** Round `x` to the nearest multiple of `1 / scale`, ties to an even multiple. */
  function RoundToScale(x: real, scale: real): real
    requires scale >= 1.0
  {
    RoundHalfEven(x * scale) as real / scale
  }

  lemma RoundHalfEvenMonotone(a: real, b: real)
    requires a <= b
    ensures RoundHalfEven(a) <= RoundHalfEven(b)
  {
    var fa, fb := a.Floor, b.Floor;
    assert fa <= fb;
    if fa == fb {
      assert a - fa as real <= b - fb as real;
    }
  }

  lemma RoundMonotone(x: real, y: real, digits: nat)
    requires x <= y
    ensures Round(x, digits) <= Round(y, digits)
  {
    RoundToScaleMonotone(x, y, Pow10(digits) as real);
  }

  lemma RoundToScaleMonotone(x: real, y: real, p: real)
    requires x <= y && p >= 1.0
    ensures RoundToScale(x, p) <= RoundToScale(y, p)
  {
    assert x * p <= y * p;
    RoundHalfEvenMonotone(x * p, y * p);
    DivideMonotone(RoundHalfEven(x * p) as real, RoundHalfEven(y * p) as real, p);
  }

  lemma DivideMonotone(a: real, b: real, p: real)
    requires a <= b && p > 0.0
    ensures a / p <= b / p
  {
  }

  /** A value already on the grid of `digits` decimals is left alone. */
  lemma RoundOnGrid(k: int, digits: nat)
    ensures Round(k as real / Pow10(digits) as real, digits) == k as real / Pow10(digits) as real
  {
    var p := Pow10(digits) as real;
    RoundToScaleOnGrid(k as real / p, k, p);
  }

  lemma RoundToScaleOnGrid(x: real, k: int, p: real)
    requires p >= 1.0 && x * p == k as real
    ensures RoundToScale(x, p) == x
  {
    assert (k as real).Floor == k;
    assert RoundHalfEven(x * p) == k;
  }

  /** Rounding never crosses a grid point: a value between two multiples of
      `1 / 10^digits` rounds to a value between them. */
  lemma RoundBetweenGridPoints(x: real, lo: int, hi: int, digits: nat)
    requires lo as real / Pow10(digits) as real <= x <= hi as real / Pow10(digits) as real
    ensures lo as real / Pow10(digits) as real <= Round(x, digits) <= hi as real / Pow10(digits) as real
  {
    var p := Pow10(digits) as real;
    RoundMonotone(lo as real / p, x, digits);
    RoundMonotone(x, hi as real / p, digits);
    RoundOnGrid(lo, digits);
    RoundOnGrid(hi, digits);
  }

  /** With one decimal, exactly the values below 0.95 round to less than 1
      (0.95 itself is a tie and goes to the even neighbour 1.0). */
  lemma {:induction false} RoundOneDigitBelowOne(x: real)
    ensures Round(x, 1) < 1.0 <==> x < 0.95
  {
    Pow10Values();
    var n := RoundHalfEven(x * 10.0);
    assert Round(x, 1) == RoundToScale(x, 10.0);
    assert RoundToScale(x, 10.0) == n as real / 10.0;
  }

  lemma Pow10Values()
    ensures Pow10(1) == 10 && Pow10(4) == 10000
  {
    assert Pow10(2) == 100;
    assert Pow10(3) == 1000;
  }
}
