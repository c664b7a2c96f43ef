/**
 * Integer arithmetic shared by the three rational-number variants:
 * C++ truncating division and remainder, a reference greatest common
 * divisor, and the two gcd routines the variants use (a Euclidean loop
 * and a downward brute-force scan).
 */
module Arith {

  function Abs(x: int): nat {
    if x < 0 then -x else x
  }

  function Max(a: int, b: int): int {
    if a < b then b else a
  }

  /** C++ `/` on integers: the quotient truncated toward zero. */
  function TDiv(n: int, d: int): int
    requires d != 0
  {
    if (n < 0) == (d < 0) then Abs(n) / Abs(d) else -(Abs(n) / Abs(d))
  }

  /** C++ `%` on integers: the remainder whose sign follows the dividend. */
  function TMod(n: int, d: int): int
    requires d != 0
  {
    n - d * TDiv(n, d)
  }

  /** `d` divides `n` (every integer divides 0; 0 divides only 0). */
  ghost predicate Divides(d: int, n: int) {
    exists k :: n == d * k
  }

  /** The mathematical gcd of two naturals, by Euclid's recurrence. */
  function Gcd(a: nat, b: nat): nat
    decreases b
  {
    if b == 0 then a else Gcd(b, a % b)
  }

  // ---------------------------------------------------------------------
  // Division facts

  lemma DivModUnique(n: int, d: int, q: int, r: int)
    requires d > 0 && 0 <= r < d && n == q * d + r
    ensures n / d == q && n % d == r
  {
    var q0, r0 := n / d, n % d;
    assert (q - q0) * d == r0 - r;
    SmallMultipleIsZero(q - q0, d);
  }

  lemma MulAtLeast(m: int, d: int)
    requires m >= 1 && d > 0
    ensures m * d >= d
  {
    assert m * d == (m - 1) * d + d;
  }

  lemma SmallMultipleIsZero(m: int, d: int)
    requires d > 0 && -d < m * d < d
    ensures m == 0
  {
    if m > 0 {
      MulAtLeast(m, d);
    } else if m < 0 {
      MulAtLeast(-m, d);
    }
  }

  lemma AbsMul(a: int, b: int)
    ensures Abs(a * b) == Abs(a) * Abs(b)
  {
    if a < 0 && b < 0 {
      assert a * b == (-a) * (-b);
    } else if a < 0 {
      assert a * b == -((-a) * b);
    } else if b < 0 {
      assert a * b == -(a * (-b));
    }
  }

  lemma MulAssoc(a: int, b: int, c: int)
    ensures a * (b * c) == (a * b) * c
  {
  }

  /** The magnitude of the C++ remainder is the remainder of the magnitudes,
      and a nonzero remainder carries the sign of the dividend. */
  lemma TModFacts(n: int, d: int)
    requires d != 0
    ensures Abs(TMod(n, d)) == Abs(n) % Abs(d) < Abs(d)
    ensures TMod(n, d) == 0 || ((TMod(n, d) < 0) <==> (n < 0))
    ensures Abs(TDiv(n, d)) == Abs(n) / Abs(d)
  {
    var q, r := Abs(n) / Abs(d), Abs(n) % Abs(d);
    TModSigned(n, d, q, r);
  }

  lemma TModSigned(n: int, d: int, q: int, r: int)
    requires d != 0 && q == Abs(n) / Abs(d) && r == Abs(n) % Abs(d)
    ensures TMod(n, d) == if n < 0 then -r else r
    ensures Abs(TDiv(n, d)) == q
  {
    var a := Abs(d);
    assert Abs(n) == a * q + r;
    var t := TDiv(n, d);
    assert t == if (n < 0) == (d < 0) then q else -q;
    RemainderFromParts(n, d, t, a, q, r);
    NonnegativeQuotient(Abs(n), a);
    assert Abs(t) == q;
  }

  lemma NonnegativeQuotient(m: nat, a: int)
    requires a > 0
    ensures m / a >= 0
  {
  }

  /** n − d·t from the magnitudes: |n| = a·q + r with |d| = a and |t| = q. */
  lemma RemainderFromParts(n: int, d: int, t: int, a: int, q: int, r: int)
    requires a == Abs(d) && Abs(n) == a * q + r
    requires t == if (n < 0) == (d < 0) then q else -q
    ensures n - d * t == if n < 0 then -r else r
  {
    if n >= 0 {
      SameSignProduct(d, t, a, q);
    } else {
      OppositeSignProduct(d, t, a, q);
    }
  }

  lemma SameSignProduct(d: int, t: int, a: int, q: int)
    requires (d == a && t == q) || (d == -a && t == -q)
    ensures d * t == a * q
  {
  }

  lemma OppositeSignProduct(d: int, t: int, a: int, q: int)
    requires (d == a && t == -q) || (d == -a && t == q)
    ensures d * t == -(a * q)
  {
  }

  /** A zero C++ remainder means exactly that the divisor divides the dividend. */
  lemma TModZeroIffDivides(n: int, d: int)
    requires d != 0
    ensures TMod(n, d) == 0 <==> Divides(d, n)
  {
    TModFacts(n, d);
    if TMod(n, d) == 0 {
      assert n == d * TDiv(n, d);
    }
    if Divides(d, n) {
      var k :| n == d * k;
      AbsMul(d, k);
      DivModUnique(Abs(n), Abs(d), Abs(k), 0);
    }
  }

  /** Division by an exact divisor: the C++ quotient is the cofactor. */
  lemma TDivExact(n: int, g: int, k: int)
    requires g != 0 && n == g * k
    ensures TDiv(n, g) == k
  {
    AbsMul(g, k);
    DivModUnique(Abs(n), Abs(g), Abs(k), 0);
    assert Abs(n) / Abs(g) == Abs(k);
    if k == 0 {
    } else if (n < 0) == (g < 0) {
      assert k > 0;
    } else {
      assert k < 0;
    }
  }

  lemma DividesAbs(d: int, n: int)
    ensures Divides(d, n) <==> Divides(Abs(d), Abs(n))
  {
    if Divides(d, n) {
      var k :| n == d * k;
      AbsMul(d, k);
      assert Abs(n) == Abs(d) * Abs(k);
    }
    if Divides(Abs(d), Abs(n)) {
      var k :| Abs(n) == Abs(d) * k;
      if (n < 0) == (d < 0) {
        assert n == d * k;
      } else {
        assert n == d * (-k);
      }
    }
  }

  /** A positive divisor of a positive number is at most that number. */
  lemma DividesLe(d: int, n: int)
    requires d > 0 && n > 0 && Divides(d, n)
    ensures d <= n
  {
    var k :| n == d * k;
    if k > 0 {
      assert d * k == d + d * (k - 1);
    }
  }

  // ---------------------------------------------------------------------
  // The reference gcd

  lemma {:induction false} GcdDivides(a: nat, b: nat)
    ensures Divides(Gcd(a, b), a) && Divides(Gcd(a, b), b)
    decreases b
  {
    var g := Gcd(a, b);
    if b == 0 {
      assert a == g * 1 && b == g * 0;
    } else {
      GcdDivides(b, a % b);
      var s :| b == g * s;
      var t :| a % b == g * t;
      var q := a / b;
      assert a == q * b + a % b;
      assert q * b == g * (q * s) by { MulAssoc(g, q, s); }
      assert a == g * (q * s + t);
    }
  }

  lemma {:induction false} GcdGreatest(a: nat, b: nat, d: int)
    requires Divides(d, a) && Divides(d, b)
    ensures Divides(d, Gcd(a, b))
    decreases b
  {
    if b != 0 {
      var s :| a == d * s;
      var t :| b == d * t;
      var q := a / b;
      assert a % b == a - q * b;
      assert q * b == d * (q * t) by { MulAssoc(d, q, t); }
      assert a % b == d * (s - q * t);
      GcdGreatest(b, a % b, d);
    }
  }

  lemma {:induction false} GcdZero(a: nat, b: nat)
    ensures Gcd(a, b) == 0 <==> a == 0 && b == 0
    decreases b
  {
    if b != 0 {
      GcdZero(b, a % b);
    }
  }

  /** Scaling both arguments scales the gcd. */
  lemma {:induction false} GcdScale(k: nat, a: nat, b: nat)
    requires k > 0
    ensures Gcd(k * a, k * b) == k * Gcd(a, b)
    decreases b
  {
    if b != 0 {
      var q, r := a / b, a % b;
      assert k * a == q * (k * b) + k * r;
      assert 0 <= k * r < k * b;
      DivModUnique(k * a, k * b, q, k * r);
      GcdScale(k, b, r);
    }
  }

  lemma GcdOne(a: nat)
    ensures Gcd(a, 1) == 1
  {
    assert a % 1 == 0;
  }

  /** Dividing two naturals by their gcd leaves coprime quotients. */
  lemma CoprimeQuotients(a: nat, b: nat, g: nat, x: nat, y: nat)
    requires g == Gcd(a, b) && g > 0
    requires a == g * x && b == g * y
    ensures Gcd(x, y) == 1
  {
    var h := Gcd(x, y);
    GcdScale(g, x, y);
    assert g * h == g * 1;
    MulCancel(g, h, 1);
  }

  lemma MulCancel(g: int, u: int, v: int)
    requires g != 0 && g * u == g * v
    ensures u == v
  {
    assert g * (u - v) == 0;
  }

  /** `d` divides `n` with `d >= 1` and `|n|, d` coprime only when `d == 1`. */
  lemma CoprimeDivisor(n: int, d: nat)
    requires d >= 1 && Gcd(Abs(n), d) == 1 && Divides(d, n)
    ensures d == 1
  {
    DividesAbs(d, n);
    var k :| Abs(n) == d * k;
    assert k >= 0;
    GcdScale(d, k, 1);
    GcdOne(k);
  }

  // ---------------------------------------------------------------------
  // Euclid's algorithm on signed integers with the C++ remainder

  /** What the `while (b != 0) { a = a % b; swap(a, b); }` loop returns. */
  function TruncEuclid(a: int, b: int): int
    decreases Abs(b)
  {
    if b == 0 then a
    else
      TModFacts(a, b);
      TruncEuclid(b, TMod(a, b))
  }

  /** The loop's result is the mathematical gcd up to sign. */
  lemma {:induction false} TruncEuclidMagnitude(a: int, b: int)
    ensures Abs(TruncEuclid(a, b)) == Gcd(Abs(a), Abs(b))
    decreases Abs(b)
  {
    if b != 0 {
      TModFacts(a, b);
      TruncEuclidMagnitude(b, TMod(a, b));
    }
  }

  /** The signed result divides both inputs and is 0 only for gcd(0, 0). */
  lemma TruncEuclidDivides(a: int, b: int)
    ensures Divides(TruncEuclid(a, b), a) && Divides(TruncEuclid(a, b), b)
    ensures TruncEuclid(a, b) == 0 <==> a == 0 && b == 0
  {
    var g := TruncEuclid(a, b);
    TruncEuclidMagnitude(a, b);
    GcdDivides(Abs(a), Abs(b));
    GcdZero(Abs(a), Abs(b));
    DividesAbs(g, a);
    DividesAbs(g, b);
  }

  /** The Euclidean gcd routine (`static Type gcd(Type a, Type b)`). */
  method EuclidGcd(a0: int, b0: int) returns (g: int)
    ensures g == TruncEuclid(a0, b0)
    ensures Abs(g) == Gcd(Abs(a0), Abs(b0))
    ensures Divides(g, a0) && Divides(g, b0)
    ensures b0 == 0 ==> g == a0
  {
    var a, b := a0, b0;
    while b != 0
      invariant TruncEuclid(a, b) == TruncEuclid(a0, b0)
      decreases Abs(b)
    {
      TModFacts(a, b);
      a := TMod(a, b);
      a, b := b, a;
    }
    g := a;
    TruncEuclidMagnitude(a0, b0);
    TruncEuclidDivides(a0, b0);
  }

  // ---------------------------------------------------------------------
  // The brute-force gcd: scan downward from max(a, b) to 1

  /** What the downward scan returns: the gcd of the magnitudes whenever
      the scan starts at 1 or above, and the fallback 1 otherwise. */
  function ScanGcdSpec(a: int, b: int): int {
    if Max(a, b) >= 1 then Gcd(Abs(a), Abs(b)) else 1
  }

  /** When the scan starts at or above 1, the gcd lies inside the scanned
      range and is a common divisor found by the `%` tests. */
  lemma ScanRangeHoldsGcd(a: int, b: int)
    requires Max(a, b) >= 1
    ensures 1 <= Gcd(Abs(a), Abs(b)) <= Max(a, b)
    ensures TMod(a, Gcd(Abs(a), Abs(b))) == 0 && TMod(b, Gcd(Abs(a), Abs(b))) == 0
  {
    var g := Gcd(Abs(a), Abs(b));
    GcdZero(Abs(a), Abs(b));
    GcdDivides(Abs(a), Abs(b));
    DividesAbs(g, a);
    DividesAbs(g, b);
    if a >= b {
      DividesLe(g, a);
    } else {
      DividesLe(g, b);
    }
    TModZeroIffDivides(a, g);
    TModZeroIffDivides(b, g);
  }

  /** A scanned candidate that divides both inputs is the gcd, provided
      nothing larger in the range divided both. */
  lemma ScanHitIsGcd(a: int, b: int, divisor: int)
    requires 1 <= divisor <= Max(a, b)
    requires TMod(a, divisor) == 0 && TMod(b, divisor) == 0
    requires forall d :: 1 <= d && divisor < d <= Max(a, b) ==> !(TMod(a, d) == 0 && TMod(b, d) == 0)
    ensures divisor == Gcd(Abs(a), Abs(b))
  {
    var g := Gcd(Abs(a), Abs(b));
    ScanRangeHoldsGcd(a, b);
    TModZeroIffDivides(a, divisor);
    TModZeroIffDivides(b, divisor);
    DividesAbs(divisor, a);
    DividesAbs(divisor, b);
    GcdGreatest(Abs(a), Abs(b), divisor);
    DividesLe(divisor, g);
  }

  /** The brute-force gcd routine (`for (divisor = max(a, b); divisor >= 1; divisor--)`). */
  method ScanGcd(a: int, b: int) returns (g: int)
    ensures g == ScanGcdSpec(a, b)
    ensures g >= 1 && Divides(g, a) && Divides(g, b)
  {
    var divisor := Max(a, b);
    while divisor >= 1
      invariant divisor <= Max(a, b)
      invariant forall d :: 1 <= d && divisor < d <= Max(a, b) ==> !(TMod(a, d) == 0 && TMod(b, d) == 0)
      decreases divisor
    {
      if TMod(a, divisor) == 0 && TMod(b, divisor) == 0 {
        ScanHitIsGcd(a, b, divisor);
        TModZeroIffDivides(a, divisor);
        TModZeroIffDivides(b, divisor);
        return divisor;
      }
      divisor := divisor - 1;
    }
    if Max(a, b) >= 1 {
      ScanRangeHoldsGcd(a, b);
      assert false;
    }
    g := 1;
    assert a == g * a && b == g * b;
  }
}
