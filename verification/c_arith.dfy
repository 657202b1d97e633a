/**
 * The pieces of C++ arithmetic that the transmission record relies on:
 * the 32-bit `int`, `/` and `%` on `int` (which truncate toward zero,
 * unlike Dafny's Euclidean operators), the conversion `int(x)` of a
 * floating-point value (truncation toward zero, taken here of an exact
 * real), and `abs` on a floating-point value (taken as the real absolute
 * value).
 */
module CArith {

  const INT_MIN: int := -0x8000_0000
  const INT_MAX: int := 0x7fff_ffff

  /** A C++ `int` on a target where it is 32 bits wide. */
  newtype Int32 = x: int | -0x8000_0000 <= x < 0x8000_0000

  predicate InInt32(n: int) {
    INT_MIN <= n <= INT_MAX
  }

  /** C++ `n / d` for a positive divisor: the quotient truncated toward zero. */
  function TruncDiv(n: int, d: int): (q: int)
    requires d > 0
    ensures 0 <= n ==> 0 <= q && q * d <= n < q * d + d
    ensures n < 0 ==> q <= 0 && q * d - d < n <= q * d
  {
    if n >= 0 then n / d else -((-n) / d)
  }

  /** C++ `n % d` for a positive divisor: the remainder takes the sign of `n`. */
  function TruncRem(n: int, d: int): (r: int)
    requires d > 0
    ensures n == TruncDiv(n, d) * d + r
    ensures 0 <= n ==> 0 <= r < d
    ensures n < 0 ==> -d < r <= 0
  {
    n - TruncDiv(n, d) * d
  }

  /**
   * Truncating and Euclidean division by ten agree exactly on the
   * non-negative numerators and on the multiples of ten; everywhere else
   * truncation gives the Euclidean quotient plus one.
   */
  lemma {:induction false} TruncDivVersusEuclidean(n: int)
    ensures TruncDiv(n, 10) == n / 10 <==> (0 <= n || n % 10 == 0)
    ensures TruncDiv(n, 10) == n / 10 || TruncDiv(n, 10) == n / 10 + 1
  {
    var q, e := TruncDiv(n, 10), n / 10;
    assert e * 10 <= n < e * 10 + 10;
    if n < 0 {
      assert q * 10 - 10 < n <= q * 10;
      assert e <= q <= e + 1;
      assert q == e <==> n == e * 10;
    }
  }

  /** C++ `int(x)` for a floating-point `x`, idealised as an exact real: truncation toward zero. */
  function TruncReal(x: real): (n: int)
    ensures 0.0 <= x ==> 0 <= n && n as real <= x < n as real + 1.0
    ensures x < 0.0 ==> n <= 0 && n as real - 1.0 < x <= n as real
  {
    if x >= 0.0 then x.Floor else -((-x).Floor)
  }

  /** `abs` on a floating-point value, idealised as the real absolute value. */
  function RealAbs(x: real): (r: real)
    ensures 0.0 <= r && (r == x || r == -x)
  {
    if x < 0.0 then -x else x
  }

  /**
   * Converting an integer to a floating value, dividing by ten and
   * converting back with `int(...)` is the same as C++ integer division by ten.
   */
  lemma {:induction false} TruncRealOfTenth(n: int)
    ensures TruncReal(n as real / 10.0) == TruncDiv(n, 10)
  {
    var q := TruncDiv(n, 10);
    var t := TruncReal(n as real / 10.0);
    if n >= 0 {
      assert q as real * 10.0 <= n as real < q as real * 10.0 + 10.0;
      assert t as real <= n as real / 10.0 < t as real + 1.0;
      assert t as real * 10.0 <= n as real < t as real * 10.0 + 10.0;
      assert t * 10 <= n < t * 10 + 10;
    } else {
      assert q as real * 10.0 - 10.0 < n as real <= q as real * 10.0;
      assert t as real - 1.0 < n as real / 10.0 <= t as real;
      assert t as real * 10.0 - 10.0 < n as real <= t as real * 10.0;
      assert t * 10 - 10 < n <= t * 10;
    }
  }
}
