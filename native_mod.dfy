/**
 * The four `mod` overloads on native machine integers.
 *
 * C++ `%` truncates: the quotient is rounded toward zero and the remainder
 * takes the sign of the dividend.  Dafny's `%` is Euclidean (the remainder is
 * never negative), so the C++ operator is written out here and related to the
 * Euclidean one by lemmas.  Widths follow an LP64 platform: `int` and
 * `unsigned` are 32 bits, `long` and `unsigned long` are 64 bits.
 */
module NativeMod {

  newtype Int32 = x: int | -0x8000_0000 <= x < 0x8000_0000
  newtype Int64 = x: int | -0x8000_0000_0000_0000 <= x < 0x8000_0000_0000_0000
  newtype UInt32 = x: int | 0 <= x < 0x1_0000_0000
  newtype UInt64 = x: int | 0 <= x < 0x1_0000_0000_0000_0000

  function Abs(x: int): nat { if x < 0 then -x else x }

  /** Quotient of C++ `/` on integers: the exact quotient rounded toward zero. */
  function TruncDiv(n: int, m: int): (q: int)
    requires m != 0
    ensures Abs(q) == Abs(n) / Abs(m)
  {
    var a: int, b: int := Abs(n), Abs(m);
    DivNonNegative(a, b);
    if (n >= 0) == (m > 0) then a / b else -(a / b)
  }

  lemma DivNonNegative(a: int, b: int)
    requires a >= 0 && b > 0
    ensures a / b >= 0
  {
  }

  /**
   * Remainder of C++ `%` on integers.  Together with TruncDiv it satisfies
   * the division identity of the C++ standard; its magnitude is below |m| and
   * it is zero or has the sign of the dividend.
   */
  function TruncRem(n: int, m: int): (r: int)
    requires m != 0
    ensures n == TruncDiv(n, m) * m + r
    ensures Abs(r) < Abs(m)
    ensures r == 0 || ((r > 0) <==> (n > 0))
  {
    DivisionIdentity(n, m);
    if n >= 0 then Abs(n) % Abs(m) else -(Abs(n) % Abs(m))
  }

  lemma DivisionIdentity(n: int, m: int)
    requires m != 0
    ensures n >= 0 ==> n == TruncDiv(n, m) * m + Abs(n) % Abs(m)
    ensures n < 0 ==> n == TruncDiv(n, m) * m - Abs(n) % Abs(m)
  {
    var a: int, b: int := Abs(n), Abs(m);
    var q := a / b;
    assert a == q * b + a % b;
    var t := TruncDiv(n, m);
    NegatedProducts(q, b);
    if n >= 0 && m > 0 {
      assert t * m == q * b;
    } else if n >= 0 {
      assert t == -q && m == -b;
      assert t * m == q * b;
    } else if m > 0 {
      assert t == -q && m == b;
      assert t * m == -(q * b);
    } else {
      assert t == q && m == -b;
      assert t * m == -(q * b);
    }
  }

  lemma NegatedProducts(x: int, y: int)
    ensures (-x) * y == -(x * y) && x * (-y) == -(x * y) && (-x) * (-y) == x * y
  {
  }

  /** `long mod(const long&, const long&)`: `n % m` on 64-bit signed integers. */
  function ModLong(n: Int64, m: Int64): (r: Int64)
    requires m != 0
    requires !(n == -0x8000_0000_0000_0000 && m == -1)
    ensures n as int == TruncDiv(n as int, m as int) * m as int + r as int
    ensures Abs(r as int) < Abs(m as int)
    ensures r == 0 || ((r > 0) <==> (n > 0))
  {
    TruncRem(n as int, m as int) as Int64
  }

  /** `unsigned long mod(const unsigned long&, const unsigned long&)`. */
  function ModULong(n: UInt64, m: UInt64): (r: UInt64)
    requires m != 0
    ensures r < m
    ensures (n as int - r as int) % m as int == 0
  {
    MultipleOfModulus(n as int, m as int);
    n % m
  }

  /** `unsigned mod(const unsigned&, const unsigned&)`. */
  function ModUnsigned(n: UInt32, m: UInt32): (r: UInt32)
    requires m != 0
    ensures r < m
    ensures (n as int - r as int) % m as int == 0
  {
    MultipleOfModulus(n as int, m as int);
    n % m
  }

  /** `int mod(const int&, const int&)`: `n % m` on 32-bit signed integers. */
  function ModInt(n: Int32, m: Int32): (r: Int32)
    requires m != 0
    requires !(n == -0x8000_0000 && m == -1)
    ensures n as int == TruncDiv(n as int, m as int) * m as int + r as int
    ensures Abs(r as int) < Abs(m as int)
    ensures r == 0 || ((r > 0) <==> (n > 0))
  {
    TruncRem(n as int, m as int) as Int32
  }

  /** On a non-negative dividend and a positive divisor C++ and Euclidean `%` agree. */
  lemma AgreesWithEuclidean(n: int, m: int)
    requires n >= 0 && m > 0
    ensures TruncRem(n, m) == n % m
  {
  }

  /**
   * In general the truncated remainder is the Euclidean one, shifted down by
   * |m| when the dividend is negative and not a multiple of m.
   */
  lemma TruncRemFromEuclidean(n: int, m: int)
    requires m != 0
    ensures TruncRem(n, m) == if n >= 0 || n % m == 0 then n % m else n % m - Abs(m)
  {
    var r := TruncRem(n, m);
    var q := TruncDiv(n, m);
    if n < 0 {
      // r is in (-|m|, 0], and n == q*m + r; the Euclidean remainder is in [0, |m|).
      var e := n % m;
      assert n == (n / m) * m + e && 0 <= e < Abs(m);
      if r == 0 {
        EuclideanUnique(n, m, q, 0);
      } else {
        assert n == (q + (if m > 0 then -1 else 1)) * m + (r + Abs(m));
        EuclideanUnique(n, m, q + (if m > 0 then -1 else 1), r + Abs(m));
      }
    } else {
      EuclideanUnique(n, m, q, r);
    }
  }

  /** The Euclidean quotient and remainder are the only pair with remainder in [0, |m|). */
  lemma EuclideanUnique(n: int, m: int, q: int, r: int)
    requires m != 0 && n == q * m + r && 0 <= r < Abs(m)
    ensures r == n % m && q == n / m
  {
    var q', r' := n / m, n % m;
    assert n == q' * m + r' && 0 <= r' < Abs(m);
    var d := q - q';
    assert d * m == r' - r;
    if d > 0 {
      MultipleAtLeastModulus(d, m);
      assert false;
    } else if d < 0 {
      assert (-d) * m == -(d * m);
      MultipleAtLeastModulus(-d, m);
      assert false;
    }
  }

  lemma MultipleAtLeastModulus(d: int, m: int)
    requires d >= 1 && m != 0
    ensures Abs(d * m) >= Abs(m)
  {
    assert d * m == (d - 1) * m + m;
    if m > 0 { assert (d - 1) * m >= 0; } else { assert (d - 1) * m <= 0; }
  }

  /** Subtracting the Euclidean remainder leaves a multiple of the modulus. */
  lemma MultipleOfModulus(n: int, m: int)
    requires m > 0
    ensures (n - n % m) % m == 0
  {
    assert n - n % m == (n / m) * m;
    EuclideanUnique((n / m) * m, m, n / m, 0);
  }

  /** The unsigned overloads are the Euclidean remainder. */
  lemma UnsignedIsEuclidean(n: UInt64, m: UInt64)
    requires m != 0
    ensures ModULong(n, m) as int == TruncRem(n as int, m as int)
  {
  }
}
