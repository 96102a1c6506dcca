/** Integer versions of the Math helpers (`Mathi` in UtilPoint.cs), together
    with C#'s own `/` and `%` on int, which truncate toward zero. Dafny's `/`
    and `%` are Euclidean, so every use of the C# operators goes through
    TruncDiv and TruncRem. Integers are unbounded: 32-bit overflow is not
    modelled. */
module Mathi {

  /** |i| (Math.Abs). */
  function Abs(i: int): (r: int)
    ensures r >= 0
    ensures r == i || r == -i
  {
    if i < 0 then -i else i
  }

  /** C#'s integer `/`: the quotient rounded toward zero. */
  function TruncDiv(a: int, b: int): (q: int)
    requires b != 0
    ensures a >= 0 && b > 0 ==> q == a / b
  {
    if a >= 0 && b > 0 then a / b
    else if a >= 0 then -(a / -b)
    else if b > 0 then -(-a / b)
    else -a / -b
  }

  /** C#'s integer `%`: the remainder that goes with TruncDiv, carrying the
      sign of the dividend. */
  function TruncRem(a: int, b: int): (r: int)
    requires b != 0
    ensures a == TruncDiv(a, b) * b + r
    ensures -Abs(b) < r < Abs(b)
    ensures a >= 0 ==> r >= 0
    ensures a <= 0 ==> r <= 0
  {
    if a >= 0 then a % Abs(b) else -(-a % Abs(b))
  }

  /** The product of two positive numbers is positive. */
  lemma MulPositive(a: int, b: int)
    requires a > 0 && b > 0
    ensures a * b > 0
  {
  }

  /** The quotient and remainder of a Euclidean division by a positive
      divisor are unique. */
  lemma EuclidUnique(a: int, n: int, q: int, r: int)
    requires n > 0
    requires a == q * n + r
    requires 0 <= r < n
    ensures a / n == q && a % n == r
  {
    var q', r' := a / n, a % n;
    assert a == q' * n + r';
    var d := q - q';
    assert d * n == r' - r;
    if d >= 1 { assert false; } else if d <= -1 { assert false; }
  }

  /** Adding a multiple of n does not change the Euclidean residue. */
  lemma {:induction false} ModShift(a: int, k: int, n: int)
    requires n > 0
    ensures (a + k * n) % n == a % n
  {
    EuclidUnique(a + k * n, n, a / n + k, a % n);
  }

  /** A truncated remainder is congruent to its dividend. */
  lemma TruncRemCongruent(a: int, b: int)
    requires b > 0
    ensures TruncRem(a, b) % b == a % b
  {
    ModShift(TruncRem(a, b), TruncDiv(a, b), b);
  }

  /** For a dividend that is an exact multiple, truncation loses nothing. */
  lemma TruncDivExact(k: int, d: int)
    requires d != 0
    ensures TruncDiv(k * d, d) == k
  {
    var A, B := Abs(k * d), Abs(d);
    assert A == Abs(k) * B by {
      if k >= 0 && d > 0 { assert k * d >= 0; }
      else if k >= 0 { assert k * d <= 0; assert A == k * -d; }
      else if d > 0 { assert k * d <= 0; assert A == -k * d; }
      else { assert k * d >= 0; assert A == -k * -d; }
    }
    EuclidUnique(A, B, Abs(k), 0);
    if k > 0 {
      assert (k * d < 0) == (d < 0);
    } else if k < 0 {
      assert (k * d < 0) == (d > 0);
    }
  }

  /** Math.Max. */
  function Max(i1: int, i2: int): (r: int)
    ensures r >= i1 && r >= i2
    ensures r == i1 || r == i2
  {
    if i1 >= i2 then i1 else i2
  }

  /** Math.Min. */
  function Min(i1: int, i2: int): (r: int)
    ensures r <= i1 && r <= i2
    ensures r == i1 || r == i2
  {
    if i1 <= i2 then i1 else i2
  }

  /** Clamp v into [min, max]; with an empty range the upper bound wins. */
  function Clamp(v: int, min: int, max: int): (r: int)
    ensures min <= max ==> min <= r <= max
    ensures min <= v <= max ==> r == v
    ensures v < min && min <= max ==> r == min
    ensures v > max ==> r == max
    ensures min > max ==> r == max
  {
    Min(Max(v, min), max)
  }

  /** Clamp v into [min, max), the top value excluded. */
  function ClampExclusive(v: int, min: int, max: int): (r: int)
    ensures min < max ==> min <= r < max
    ensures min <= v < max ==> r == v
    ensures v < min && min < max ==> r == min
    ensures v >= max ==> r == max - 1
  {
    Clamp(v, min, max - 1)
  }

  /** The sign of i as -1, 0 or 1. */
  function Signum(i: int): (r: int)
    ensures -1 <= r <= 1
    ensures r == 0 <==> i == 0
    ensures r > 0 <==> i > 0
    ensures r * i == Abs(i)
  {
    if i == 0 then 0 else if i > 0 then 1 else -1
  }

  /** Math.Sign, an independent definition that agrees with Signum. */
  function Sign(i: int): (r: int)
    ensures r == Signum(i)
  {
    if i > 0 then 1 else if i < 0 then -1 else 0
  }

  /** Mathi.Mod, meant to stay correct for a negative dividend: a negative m
      is first moved by the multiple -2*m of n before C#'s `%` is taken. */
  function Mod(m: int, n: int): (r: int)
    requires n != 0
    ensures -Abs(n) < r < Abs(n)
    ensures n > 0 ==> 0 <= r
  {
    if m >= 0 then TruncRem(m, n) else TruncRem(m - 2 * m * n, n)
  }

  /** Mathi.Div, meant as floor division for a negative dividend too: a
      negative m is divided with truncation, then the quotient steps down by
      one when the division was inexact. */
  function Div(m: int, n: int): (r: int)
    requires n != 0
    ensures n > 0 ==> r * n <= m < r * n + n
  {
    if m >= 0 then TruncDiv(m, n)
    else
      var t := TruncDiv(m, n);
      if t * n == m then t else t - 1
  }

  /** For a positive divisor, Mod and Div are floor modulo and floor
      division: Dafny's Euclidean `%` and `/`, which round down when n > 0. */
  lemma DivModFloor(m: int, n: int)
    requires n > 0
    ensures Div(m, n) == m / n
    ensures Mod(m, n) == m % n
    ensures Div(m, n) * n + Mod(m, n) == m
    ensures 0 <= Mod(m, n) < n
  {
    if m >= 0 {
      EuclidUnique(m, n, TruncDiv(m, n), TruncRem(m, n));
    } else {
      var k := m - 2 * m * n;
      assert k == m + (-2 * m) * n;
      assert k >= 0 by {
        assert k == m * (1 - 2 * n);
        assert 1 - 2 * n < 0;
      }
      EuclidUnique(k, n, TruncDiv(k, n), TruncRem(k, n));
      ModShift(m, -2 * m, n);
      var t := TruncDiv(m, n);
      var r := TruncRem(m, n);
      assert m == t * n + r && -n < r <= 0;
      if t * n == m {
        EuclidUnique(m, n, t, 0);
      } else {
        assert (t - 1) * n == t * n - n;
        EuclidUnique(m, n, t - 1, r + n);
      }
    }
  }

  /** The floor-consistency of Div and Mod holds only for n > 0: with a
      negative divisor Div does not round down and the identity
      Div(m, n) * n + Mod(m, n) == m fails. */
  lemma NegativeDivisor()
    ensures Div(-7, -2) == 2 && Mod(-7, -2) == -1
    ensures Div(-7, -2) * -2 + Mod(-7, -2) != -7
    ensures Mod(1, -2) == 1 && Div(1, -2) == 0
  {
  }
}
