/** Python's built-in `round` on exact reals: to the nearest multiple of
    10^-ndigits, ties to the even neighbour. The binary representation of
    floats, which makes Python round some decimal ties the other way, is not
    part of this model. */
module Rounding {

  function Pow10(n: nat): (p: nat)
    ensures p >= 1
  {
    if n == 0 then 1 else 10 * Pow10(n - 1)
  }

  /** `x * 10**n` */
  function Scale(x: real, n: nat): real
  {
    if n == 0 then x else 10.0 * Scale(x, n - 1)
  }

  /** `y / 10**n` */
  function Shrink(y: real, n: nat): real
  {
    if n == 0 then y else Shrink(y, n - 1) / 10.0
  }

  /** `k / n` for counts: a share, which lies in [0, 1] when `k` counts part of `n`. */
  function Ratio(k: nat, n: nat): (r: real)
    requires 0 < n
    ensures 0.0 <= r
    ensures k <= n ==> r <= 1.0
    ensures r == 1.0 <==> k == n
    ensures r == 0.0 <==> k == 0
  {
    var r := k as real / n as real;
    assert r * n as real == k as real;
    assert r > 1.0 ==> (r - 1.0) * n as real > 0.0;
    assert r < 1.0 ==> (1.0 - r) * n as real > 0.0;
    r
  }

  /** `round(x)`: the nearest integer, the even one on a tie. */
  function RoundInt(x: real): (k: int)
    ensures x - 0.5 <= k as real <= x + 0.5
    ensures k == x.Floor || k == x.Floor + 1
    ensures (k as real == x - 0.5 || k as real == x + 0.5) ==> k % 2 == 0
  {
    var f := x.Floor;
    var d := x - f as real;
    if d < 0.5 then f
    else if d > 0.5 then f + 1
    else if f % 2 == 0 then f
    else f + 1
  }

  /** `round(x, nd)` */
  function Round(x: real, nd: nat): real
  {
    Shrink(RoundInt(Scale(x, nd)) as real, nd)
  }

  lemma RoundIntMonotone(x: real, y: real)
    requires x <= y
    ensures RoundInt(x) <= RoundInt(y)
  {
  }

  lemma RoundIntOfInt(k: int)
    ensures RoundInt(k as real) == k
  {
    assert (k as real).Floor == k;
  }

  lemma {:induction false} ScaleMonotone(x: real, y: real, n: nat)
    requires x <= y
    ensures Scale(x, n) <= Scale(y, n)
  {
    if n > 0 { ScaleMonotone(x, y, n - 1); }
  }

  lemma {:induction false} ShrinkMonotone(x: real, y: real, n: nat)
    requires x <= y
    ensures Shrink(x, n) <= Shrink(y, n)
  {
    if n > 0 { ShrinkMonotone(x, y, n - 1); }
  }

  lemma {:induction false} ScaleOfInt(k: int, n: nat)
    ensures Scale(k as real, n) == (k * Pow10(n)) as real
  {
    if n > 0 {
      ScaleOfInt(k, n - 1);
      assert k * Pow10(n) == 10 * (k * Pow10(n - 1));
    }
  }

  lemma {:induction false} ShrinkTimesTen(y: real, n: nat)
    ensures Shrink(10.0 * y, n) == 10.0 * Shrink(y, n)
  {
    if n > 0 { ShrinkTimesTen(y, n - 1); }
  }

  lemma {:induction false} ShrinkScale(y: real, n: nat)
    ensures Shrink(Scale(y, n), n) == y
  {
    if n > 0 {
      ShrinkTimesTen(Scale(y, n - 1), n - 1);
      ShrinkScale(y, n - 1);
    }
  }

  /** Rounding never reverses the order of two values. */
  lemma RoundMonotone(x: real, y: real, nd: nat)
    requires x <= y
    ensures Round(x, nd) <= Round(y, nd)
  {
    ScaleMonotone(x, y, nd);
    RoundIntMonotone(Scale(x, nd), Scale(y, nd));
    ShrinkMonotone(RoundInt(Scale(x, nd)) as real, RoundInt(Scale(y, nd)) as real, nd);
  }

  /** A whole number is already rounded. */
  lemma RoundOfInt(k: int, nd: nat)
    ensures Round(k as real, nd) == k as real
  {
    ScaleOfInt(k, nd);
    RoundIntOfInt(k * Pow10(nd));
    ShrinkScale(k as real, nd);
  }

  /** A value between two whole numbers rounds to a value between them. */
  lemma RoundWithin(x: real, lo: int, hi: int, nd: nat)
    requires lo as real <= x <= hi as real
    ensures lo as real <= Round(x, nd) <= hi as real
  {
    RoundMonotone(lo as real, x, nd);
    RoundMonotone(x, hi as real, nd);
    RoundOfInt(lo, nd);
    RoundOfInt(hi, nd);
  }

  lemma {:induction false} ScaleShrink(y: real, n: nat)
    ensures Scale(Shrink(y, n), n) == y
    decreases n
  {
    if n > 0 {
      ScaleShrink(y / 10.0, n - 1);
      ShrinkOverTen(y, n - 1);
    }
  }

  lemma {:induction false} ShrinkOverTen(y: real, n: nat)
    ensures Shrink(y / 10.0, n) == Shrink(y, n) / 10.0
  {
    if n > 0 { ShrinkOverTen(y, n - 1); }
  }

  /** Rounding twice to the same number of digits is rounding once. */
  lemma RoundIdempotent(x: real, nd: nat)
    ensures Round(Round(x, nd), nd) == Round(x, nd)
  {
    var k := RoundInt(Scale(x, nd));
    ScaleShrink(k as real, nd);
    RoundIntOfInt(k);
  }
}
