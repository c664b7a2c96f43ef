/**
 * `Number_template::Rational<T>` (Rational_template.h). The generic class
 * divides by a gcd found by scanning downward from max(a, b); the
 * `Rational<mpz_class>` specialisation divides by Euclid's gcd. Both then
 * call `adjust`. The free operators build the raw fraction and pass it to the
 * constructor, so they are modelled once, parametrised by the gcd routine.
 * Rounding, mod and rem are shared templates.
 */
module NumberTemplate {
  import opened Arith
  import opened Fractions
  import Number

  /** The gcd routine behind `initialize`: the generic downward scan, or
      Euclid's loop in the `mpz_class` specialisation. */
  datatype GcdRoutine = Scan | Euclid

  // ---------------------------------------------------------------------
  // The two normalisers

  /** Dividing both parts by the gcd of their magnitudes leaves exact,
      coprime quotients with the value kept. */
  lemma DivideByGcd(num: int, den: int)
    requires num != 0 || den != 0
    ensures Gcd(Abs(num), Abs(den)) >= 1
    ensures var g := Gcd(Abs(num), Abs(den));
            var n, d := TDiv(num, g), TDiv(den, g);
            Gcd(Abs(n), Abs(d)) == 1 && n * den == num * d && (den != 0 <==> d != 0)
  {
    var g: int := Gcd(Abs(num), Abs(den));
    GcdZero(Abs(num), Abs(den));
    CommonDivisor(num, den);
    assert Divides(g, num) && Divides(g, den);
    var x :| num == g * x;
    var y :| den == g * y;
    Number.ExactQuotients(num, den, g, x, y);
  }

  /** The gcd of the magnitudes divides both signed parts. */
  lemma CommonDivisor(num: int, den: int)
    ensures Divides(Gcd(Abs(num), Abs(den)), num) && Divides(Gcd(Abs(num), Abs(den)), den)
  {
    var g := Gcd(Abs(num), Abs(den));
    GcdDivides(Abs(num), Abs(den));
    DividesAbs(g, num);
    DividesAbs(g, den);
  }

  /** `adjust` applied to a pair with the value of (num, den) keeps that value,
      the numerator's magnitude, and makes the denominator its magnitude. */
  lemma AdjustedQuotients(n: int, d: int, num: int, den: int)
    requires n * den == num * d && (den != 0 <==> d != 0)
    ensures SameValue(Adjusted(n, d), Frac(num, den))
    ensures Abs(Adjusted(n, d).num) == Abs(n) && Adjusted(n, d).den == Abs(d)
  {
    if d != 0 {
      AdjustedFlip(n, d);
      if d < 0 {
        assert (-n) * den == -(n * den);
        assert num * (-d) == -(num * d);
      }
    }
  }

  /** The scanned gcd is at least 1, and dividing by it leaves exact quotients:
      coprime ones when the scan starts at 1 or above, and the parts themselves
      when it falls back to 1. */
  lemma ScanQuotients(num: int, den: int)
    ensures ScanGcdSpec(num, den) >= 1
    ensures var g := ScanGcdSpec(num, den);
            var n, d := TDiv(num, g), TDiv(den, g);
            n * den == num * d && (den != 0 <==> d != 0) &&
            (Max(num, den) >= 1 ==> Gcd(Abs(n), Abs(d)) == 1) &&
            (Max(num, den) < 1 ==> n == num && d == den)
  {
    if Max(num, den) >= 1 {
      DivideByGcd(num, den);
    } else {
      TDivExact(num, 1, num);
      TDivExact(den, 1, den);
    }
  }

  /** What the generic `initialize(num, den)` stores: both parts divided by
      the scanned gcd, then `adjust`. It is total, since the scan never
      returns 0; but when max(num, den) < 1 the scan falls back to 1 and the
      pair is only adjusted, not reduced. */
  function NormalizeScan(num: int, den: int): (r: Frac)
    ensures r.den >= 0 && SameValue(r, Frac(num, den))
    ensures r.den == 0 <==> den == 0
    ensures Max(num, den) >= 1 ==> Reduced(r)
    ensures Max(num, den) < 1 ==> r == Adjusted(num, den)
  {
    ScanQuotients(num, den);
    var g := ScanGcdSpec(num, den);
    AdjustedQuotients(TDiv(num, g), TDiv(den, g), num, den);
    Adjusted(TDiv(num, g), TDiv(den, g))
  }

  /** Euclid's quotients, adjusted, are rational.h's quotients with both signs
      flipped when the denominator is negative. */
  lemma EuclidMatchesFlip(num: int, den: int)
    requires num != 0 || den != 0
    ensures TruncEuclid(num, den) != 0
    ensures var g := TruncEuclid(num, den);
            Adjusted(TDiv(num, g), TDiv(den, g)) == Number.Normalize(num, den)
  {
    Number.DivideByTruncEuclid(num, den);
    var g := TruncEuclid(num, den);
    var n, d := TDiv(num, g), TDiv(den, g);
    if d != 0 {
      AdjustedFlip(n, d);
    }
  }

  /** What the `mpz_class` `initialize(num, den)` stores: both parts divided by
      Euclid's signed gcd, then `adjust`. As in rational.h, 0/0 divides by
      zero. The result is rational.h's canonical form. */
  function NormalizeEuclid(num: int, den: int): (r: Frac)
    requires num != 0 || den != 0
    ensures r == Number.Normalize(num, den)
    ensures Reduced(r) && SameValue(r, Frac(num, den))
    ensures den == 0 ==> r == Frac(1, 0)
  {
    EuclidMatchesFlip(num, den);
    var g := TruncEuclid(num, den);
    Adjusted(TDiv(num, g), TDiv(den, g))
  }

  /** Wherever the scan starts at 1 or above, the two normalisers agree. */
  lemma ScanAgreesWithEuclid(num: int, den: int)
    requires Max(num, den) >= 1
    ensures NormalizeScan(num, den) == NormalizeEuclid(num, den)
  {
    var s, e := NormalizeScan(num, den), NormalizeEuclid(num, den);
    if den != 0 {
      SameValueThrough(s, e, Frac(num, den));
      Number.CanonicalUnique(s, e);
    } else {
      GcdOneOverZero(s);
    }
  }

  /** The only reduced pair over 0 with a positive numerator is 1/0. */
  lemma GcdOneOverZero(s: Frac)
    requires Reduced(s) && s.den == 0 && s.num > 0
    ensures s == Frac(1, 0)
  {
  }

  /** `Rational(num, den)`: the value the constructor stores. */
  function Make(g: GcdRoutine, num: int, den: int): (r: Frac)
    requires g == Euclid ==> num != 0 || den != 0
    ensures r.den >= 0 && SameValue(r, Frac(num, den))
    ensures r.den == 0 <==> den == 0
    ensures g == Euclid || Max(num, den) >= 1 ==> r == Number.Normalize(num, den)
    ensures g == Scan && Max(num, den) < 1 ==> r == Adjusted(num, den)
  {
    match g
    case Scan =>
      if Max(num, den) >= 1 then
        ScanAgreesWithEuclid(num, den);
        NormalizeScan(num, den)
      else NormalizeScan(num, den)
    case Euclid => NormalizeEuclid(num, den)
  }

  /** The scan as it was evidently meant: started at the larger magnitude,
      it finds the gcd for every pair but 0/0, and the result is reduced. */
  function NormalizeScanMagnitudes(num: int, den: int): (r: Frac)
    ensures r.den >= 0 && SameValue(r, Frac(num, den))
    ensures num != 0 || den != 0 ==> Reduced(r)
    ensures den != 0 ==> r == Number.Normalize(num, den)
  {
    var g := ScanGcdSpec(Abs(num), Abs(den));
    if num != 0 || den != 0 then
      assert Abs(Abs(num)) == Abs(num) && Abs(Abs(den)) == Abs(den);
      DivideByGcd(num, den);
      AdjustedQuotients(TDiv(num, g), TDiv(den, g), num, den);
      var r := Adjusted(TDiv(num, g), TDiv(den, g));
      if den != 0 then
        SameValueThrough(r, Number.Normalize(num, den), Frac(num, den));
        Number.CanonicalUnique(r, Number.Normalize(num, den));
        r
      else r
    else
      Frac(0, 0)
  }

  // ---------------------------------------------------------------------
  // The free operators: the raw fraction handed to the constructor

  /** `a + b`. Over finite operands the raw denominator is positive, so the
      scan finds the gcd and the sum is rational.h's: reduced and exact. */
  function Add(g: GcdRoutine, a: Frac, b: Frac): (r: Frac)
    requires g == Euclid ==> HasNonzeroPart(AddRaw(a, b))
    ensures r.den >= 0 && SameValue(r, AddRaw(a, b))
    ensures g == Euclid || (a.den > 0 && b.den > 0) ==> r == Number.Add(a, b)
  {
    if a.den > 0 && b.den > 0 then
      Number.PositiveProduct(a.den, b.den);
      Make(g, AddRaw(a, b).num, AddRaw(a, b).den)
    else
      Make(g, AddRaw(a, b).num, AddRaw(a, b).den)
  }

  /** `a - b`, as `a + b` with the difference formula. */
  function Sub(g: GcdRoutine, a: Frac, b: Frac): (r: Frac)
    requires g == Euclid ==> HasNonzeroPart(SubRaw(a, b))
    ensures r.den >= 0 && SameValue(r, SubRaw(a, b))
    ensures g == Euclid || (a.den > 0 && b.den > 0) ==> r == Number.Sub(a, b)
  {
    if a.den > 0 && b.den > 0 then
      Number.PositiveProduct(a.den, b.den);
      Make(g, SubRaw(a, b).num, SubRaw(a, b).den)
    else
      Make(g, SubRaw(a, b).num, SubRaw(a, b).den)
  }

  /** `a * b`. */
  function Mul(g: GcdRoutine, a: Frac, b: Frac): (r: Frac)
    requires g == Euclid ==> HasNonzeroPart(MulRaw(a, b))
    ensures r.den >= 0 && SameValue(r, MulRaw(a, b))
    ensures g == Euclid || (a.den > 0 && b.den > 0) ==> r == Number.Mul(a, b)
  {
    if a.den > 0 && b.den > 0 then
      Number.PositiveProduct(a.den, b.den);
      Make(g, MulRaw(a, b).num, MulRaw(a, b).den)
    else
      Make(g, MulRaw(a, b).num, MulRaw(a, b).den)
  }

  /** `a / b`. The raw denominator a.den·b.num is negative for a negative
      divisor and 0 for a zero one; when the raw numerator is not positive
      either, the scan falls back to 1 and the quotient is only adjusted, not
      reduced. For a nonzero divisor it still has the exact value. */
  function Div(g: GcdRoutine, a: Frac, b: Frac): (r: Frac)
    requires g == Euclid ==> HasNonzeroPart(DivRaw(a, b))
    ensures r.den >= 0 && SameValue(r, DivRaw(a, b))
    ensures g == Euclid || (a.den > 0 && b.den > 0 && (a.num > 0 || b.num > 0)) ==> r == Number.Div(a, b)
    ensures g == Scan && a.den > 0 && b.den > 0 && a.num <= 0 && b.num <= 0 ==> r == Adjusted(DivRaw(a, b).num, DivRaw(a, b).den)
    ensures a.den > 0 && b.den > 0 && b.num != 0 ==> r.den > 0 && RealValue(r) == RealValue(a) / RealValue(b)
  {
    var r := Make(g, DivRaw(a, b).num, DivRaw(a, b).den);
    if a.den > 0 && b.den > 0 then
      DivSigns(a, b);
      if b.num != 0 then
        DivRawValue(a, b);
        SameValueReal(r, DivRaw(a, b));
        r
      else r
    else r
  }

  /** The signs of the raw quotient's parts follow the operands' numerators. */
  lemma DivSigns(a: Frac, b: Frac)
    requires a.den > 0 && b.den > 0
    ensures a.num > 0 || b.num > 0 ==> Max(DivRaw(a, b).num, DivRaw(a, b).den) >= 1
    ensures a.num <= 0 && b.num <= 0 ==> Max(DivRaw(a, b).num, DivRaw(a, b).den) < 1
  {
    if a.num > 0 {
      MulAtLeast(a.num, b.den);
    } else if b.num > 0 {
      MulAtLeast(b.num, a.den);
    }
    if a.num <= 0 && b.num <= 0 {
      assert a.num * b.den <= 0;
      assert a.den * b.num <= 0;
    }
  }

  /** Dividing by zero: the generic variant keeps the sign of a negative
      dividend (−1/1 over 0/1 gives −1/0) and stores 0/0 for 0/1 over 0/1,
      where rational.h gives 1/0 and forbids 0/0. */
  lemma DivideByZeroExample()
    ensures Div(Scan, Frac(-1, 1), Frac(0, 1)) == Frac(-1, 0)
    ensures Number.Div(Frac(-1, 1), Frac(0, 1)) == Frac(1, 0)
    ensures Div(Scan, Frac(0, 1), Frac(0, 1)) == Frac(0, 0)
    ensures !HasNonzeroPart(DivRaw(Frac(0, 1), Frac(0, 1)))
  {
    assert DivRaw(Frac(-1, 1), Frac(0, 1)) == Frac(-1, 0);
    assert DivRaw(Frac(0, 1), Frac(0, 1)) == Frac(0, 0);
  }

  /** Unary `-`: `Rational(-a.getnum(), a.getden())`. */
  function Negate(g: GcdRoutine, a: Frac): (r: Frac)
    requires g == Euclid ==> HasNonzeroPart(a)
    ensures r.den >= 0 && SameValue(r, Frac(-a.num, a.den))
    ensures g == Euclid || a.den > 0 ==> r == Number.Neg(a)
    ensures g == Scan && a.den == 0 && a.num >= 0 ==> r == Frac(-a.num, 0)
    ensures a.den == 0 && a.num < 0 ==> r == Frac(1, 0)
  {
    Make(g, -a.num, a.den)
  }

  /** Unary `~`: `Rational(a.getden(), a.getnum())`. */
  function Invert(g: GcdRoutine, a: Frac): (r: Frac)
    requires g == Euclid ==> HasNonzeroPart(a)
    ensures r.den >= 0 && SameValue(r, Frac(a.den, a.num))
    ensures g == Euclid || a.den > 0 ==> r == Number.Recip(a)
  {
    Make(g, a.den, a.num)
  }

  /** The generic `abs(a)`: `Rational(std::abs(a.getnum()), a.getden())`. */
  function AbsValue(a: Frac): (r: Frac)
    ensures r.den >= 0 && SameValue(r, Frac(Abs(a.num), a.den))
    ensures a.den > 0 ==> r == Number.AbsValue(a)
  {
    Make(Scan, Abs(a.num), a.den)
  }

  /** Negating a value the scan cannot reduce keeps the sign of an infinity:
      -(1/0) is -1/0 here, where rational.h and the `mpz_class` variant give 1/0. */
  lemma NegateInfinity()
    ensures Negate(Scan, Frac(1, 0)) == Frac(-1, 0) && Frac(-1, 0).IsInf()
    ensures Negate(Euclid, Frac(1, 0)) == Frac(1, 0)
  {
  }

  /** Dividing two negatives: the generic variant leaves (-1/2) / (-1/4) as
      the unreduced 4/2, the `mpz_class` variant gives 2/1. */
  lemma DivideNegativesUnreduced()
    ensures Div(Scan, Frac(-1, 2), Frac(-1, 4)) == Frac(4, 2) && !Reduced(Frac(4, 2))
    ensures Div(Euclid, Frac(-1, 2), Frac(-1, 4)) == Frac(2, 1)
    ensures NormalizeScanMagnitudes(-4, -2) == Frac(2, 1)
  {
    assert Gcd(4, 2) == 2;
    Number.NormalizeIs(-4, -2, Frac(2, 1));
  }

  // ---------------------------------------------------------------------
  // Rounding

  /** `floor(a)`: IntMax for Inf, 0 for NaN, otherwise the truncated
      quotient, less one when the remainder is nonzero and the numerator
      negative. */
  function Floor(a: Frac): int {
    if a.IsInf() then IntMax
    else if a.IsNaN() then 0
    else if TMod(a.num, a.den) != 0 && a.num < 0 then TDiv(a.num, a.den) - 1
    else TDiv(a.num, a.den)
  }

  /** `ceil(a)`: as floor, but plus one when the remainder is nonzero and the
      numerator positive. */
  function Ceil(a: Frac): int {
    if a.IsInf() then IntMax
    else if a.IsNaN() then 0
    else if TMod(a.num, a.den) != 0 && a.num > 0 then TDiv(a.num, a.den) + 1
    else TDiv(a.num, a.den)
  }

  /** `fix(a)`: floor when the numerator is positive, otherwise ceil. */
  function Fix(a: Frac): int {
    if a.num > 0 then Floor(a) else Ceil(a)
  }

  lemma RoundingSentinels(a: Frac)
    ensures a.IsInf() ==> Floor(a) == IntMax && Ceil(a) == IntMax && Fix(a) == IntMax
    ensures a.IsNaN() ==> Floor(a) == 0 && Ceil(a) == 0 && Fix(a) == 0
  {
  }

  /** The truncated quotient q and remainder r of n by d > 0: n = q·d + r with
      |r| < d and r of the sign of n. */
  lemma TruncatedParts(n: int, d: int)
    requires d > 0
    ensures n == TDiv(n, d) * d + TMod(n, d)
    ensures -d < TMod(n, d) < d
    ensures TMod(n, d) > 0 ==> n > 0
    ensures TMod(n, d) < 0 ==> n < 0
  {
    TModFacts(n, d);
  }

  /** For every positive denominator, reduced or not, floor is the
      mathematical floor of num/den. */
  lemma FloorBounds(a: Frac)
    requires a.den > 0
    ensures Floor(a) * a.den <= a.num < (Floor(a) + 1) * a.den
  {
    var q, r := TDiv(a.num, a.den), TMod(a.num, a.den);
    TruncatedParts(a.num, a.den);
    if r != 0 && a.num < 0 {
      assert (q - 1) * a.den == q * a.den - a.den;
    } else {
      assert (q + 1) * a.den == q * a.den + a.den;
    }
  }

  /** For every positive denominator, ceil is the mathematical ceiling. */
  lemma CeilBounds(a: Frac)
    requires a.den > 0
    ensures (Ceil(a) - 1) * a.den < a.num <= Ceil(a) * a.den
  {
    var q, r := TDiv(a.num, a.den), TMod(a.num, a.den);
    TruncatedParts(a.num, a.den);
    if r != 0 && a.num > 0 {
      assert (q + 1) * a.den == q * a.den + a.den;
    } else {
      assert (q - 1) * a.den == q * a.den - a.den;
    }
  }

  /** fix truncates toward zero: it is C++ `/` on the two parts. */
  lemma FixTruncates(a: Frac)
    requires a.den > 0
    ensures Fix(a) == TDiv(a.num, a.den)
  {
    TruncatedParts(a.num, a.den);
  }

  /** Two integers that both satisfy the floor bounds of n/d are equal. */
  lemma {:induction false} FloorUnique(n: int, d: int, f1: int, f2: int)
    requires d > 0
    requires f1 * d <= n < (f1 + 1) * d && f2 * d <= n < (f2 + 1) * d
    ensures f1 == f2
  {
    if f1 < f2 {
      MulMonotone(f1 + 1, f2, d);
    } else if f2 < f1 {
      MulMonotone(f2 + 1, f1, d);
    }
  }

  lemma MulMonotone(x: int, y: int, d: int)
    requires x <= y && d > 0
    ensures x * d <= y * d
  {
    assert y * d - x * d == (y - x) * d;
  }

  /** Two integers that both satisfy the ceiling bounds of n/d are equal. */
  lemma {:induction false} CeilUnique(n: int, d: int, c1: int, c2: int)
    requires d > 0
    requires (c1 - 1) * d < n <= c1 * d && (c2 - 1) * d < n <= c2 * d
    ensures c1 == c2
  {
    if c1 < c2 {
      MulMonotone(c1, c2 - 1, d);
    } else if c2 < c1 {
      MulMonotone(c2, c1 - 1, d);
    }
  }

  /** On canonical values, the template's rounding and rational.h's agree. */
  lemma RoundingAgrees(a: Frac)
    requires Reduced(a)
    ensures Floor(a) == Number.Floor(a) && Ceil(a) == Number.Ceil(a) && Fix(a) == Number.Fix(a)
  {
    if a.den > 0 {
      FloorBounds(a);
      Number.FloorBounds(a);
      FloorUnique(a.num, a.den, Floor(a), Number.Floor(a));
      CeilBounds(a);
      Number.CeilBounds(a);
      CeilUnique(a.num, a.den, Ceil(a), Number.Ceil(a));
    }
  }

  /** Rounding depends only on the value: two finite pairs of the same value
      round alike, reduced or not. */
  lemma RoundingByValue(x: Frac, y: Frac)
    requires x.den > 0 && y.den > 0 && SameValue(x, y)
    ensures Floor(x) == Floor(y) && Ceil(x) == Ceil(y) && Fix(x) == Fix(y)
  {
    SameValueReal(x, y);
    FloorBounds(x);
    FloorBounds(y);
    Number.FloorReal(x, Floor(x));
    Number.FloorReal(y, Floor(y));
    CeilBounds(x);
    CeilBounds(y);
    Number.CeilReal(x, Ceil(x));
    Number.CeilReal(y, Ceil(y));
    SameSignNumerators(x, y);
  }

  lemma SameSignNumerators(x: Frac, y: Frac)
    requires x.den > 0 && y.den > 0 && SameValue(x, y)
    ensures x.num > 0 <==> y.num > 0
  {
    if x.num > 0 {
      Number.PositiveProduct(x.num, y.den);
    }
    if y.num > 0 {
      Number.PositiveProduct(y.num, x.den);
    }
  }

  // ---------------------------------------------------------------------
  // mod and rem

  /** `mod(a, b)`: a − b·floor(a/b), the integer converted by the
      single-argument constructor to k/1. */
  function Mod(g: GcdRoutine, a: Frac, b: Frac): Frac
    requires g == Euclid ==> HasNonzeroPart(DivRaw(a, b))
    requires g == Euclid ==> HasNonzeroPart(MulRaw(b, Frac(Floor(Div(g, a, b)), 1)))
    requires g == Euclid ==> HasNonzeroPart(SubRaw(a, Mul(g, b, Frac(Floor(Div(g, a, b)), 1))))
  {
    Sub(g, a, Mul(g, b, Frac(Floor(Div(g, a, b)), 1)))
  }

  /** `rem(a, b)`: a − b·fix(a/b). */
  function Rem(g: GcdRoutine, a: Frac, b: Frac): Frac
    requires g == Euclid ==> HasNonzeroPart(DivRaw(a, b))
    requires g == Euclid ==> HasNonzeroPart(MulRaw(b, Frac(Fix(Div(g, a, b)), 1)))
    requires g == Euclid ==> HasNonzeroPart(SubRaw(a, Mul(g, b, Frac(Fix(Div(g, a, b)), 1))))
  {
    Sub(g, a, Mul(g, b, Frac(Fix(Div(g, a, b)), 1)))
  }

  /** 0 mod 0 and 0 rem 0 in the generic variant: the quotient is the stored
      0/0, which floor and fix map to 0, so both give 0/1 back; rational.h
      cannot form that quotient at all. */
  lemma ModByZeroExample()
    ensures !HasNonzeroPart(DivRaw(Frac(0, 1), Frac(0, 1)))
    ensures Mod(Scan, Frac(0, 1), Frac(0, 1)) == Frac(0, 1)
    ensures Rem(Scan, Frac(0, 1), Frac(0, 1)) == Frac(0, 1)
  {
    DivideByZeroExample();
    assert Floor(Frac(0, 0)) == 0 && Fix(Frac(0, 0)) == 0;
    assert MulRaw(Frac(0, 1), Frac(0, 1)) == Frac(0, 1);
    assert Mul(Scan, Frac(0, 1), Frac(0, 1)) == Frac(0, 1);
    assert SubRaw(Frac(0, 1), Frac(0, 1)) == Frac(0, 1);
    assert Sub(Scan, Frac(0, 1), Frac(0, 1)) == Frac(0, 1);
  }

  /** Over finite operands and a nonzero divisor, the quotient is finite and
      rounds as rational.h's canonical quotient does, in both variants. */
  lemma QuotientRoundsAlike(g: GcdRoutine, a: Frac, b: Frac)
    requires a.den > 0 && b.den > 0 && b.num != 0
    ensures HasNonzeroPart(DivRaw(a, b))
    ensures Div(g, a, b).den > 0
    ensures Floor(Div(g, a, b)) == Number.Floor(Number.Div(a, b))
    ensures Fix(Div(g, a, b)) == Number.Fix(Number.Div(a, b))
  {
    var q, c := Div(g, a, b), Number.Div(a, b);
    SameValueThrough(q, c, DivRaw(a, b));
    RoundingByValue(q, c);
    RoundingAgrees(c);
  }

  /** a − b·k through the template's operators is rational.h's, for finite
      operands and any integer k. */
  lemma SubMultipleAlike(g: GcdRoutine, a: Frac, b: Frac, k: int)
    requires a.den > 0 && b.den > 0
    ensures HasNonzeroPart(MulRaw(b, Frac(k, 1)))
    ensures Mul(g, b, Frac(k, 1)) == Number.Mul(b, Frac(k, 1)) && Number.Mul(b, Frac(k, 1)).den > 0
    ensures HasNonzeroPart(SubRaw(a, Mul(g, b, Frac(k, 1))))
    ensures Sub(g, a, Mul(g, b, Frac(k, 1))) == Number.Sub(a, Number.Mul(b, Frac(k, 1)))
  {
    var m := Mul(g, b, Frac(k, 1));
    assert m.den > 0;
    Number.PositiveProduct(a.den, m.den);
  }

  /** On finite operands with a nonzero divisor, `mod` is rational.h's in
      both variants, whatever the form of the quotient. */
  lemma ModAgrees(g: GcdRoutine, a: Frac, b: Frac)
    requires a.den > 0 && b.den > 0 && b.num != 0
    ensures HasNonzeroPart(DivRaw(a, b))
    ensures HasNonzeroPart(MulRaw(b, Frac(Floor(Div(g, a, b)), 1)))
    ensures HasNonzeroPart(SubRaw(a, Mul(g, b, Frac(Floor(Div(g, a, b)), 1))))
    ensures HasNonzeroPart(MulRaw(b, Frac(Number.Floor(Number.Div(a, b)), 1)))
    ensures HasNonzeroPart(SubRaw(a, Number.Mul(b, Frac(Number.Floor(Number.Div(a, b)), 1))))
    ensures Mod(g, a, b) == Number.Mod(a, b)
  {
    QuotientRoundsAlike(g, a, b);
    SubMultipleAlike(g, a, b, Number.Floor(Number.Div(a, b)));
  }

  /** On finite operands with a nonzero divisor, `rem` is rational.h's in
      both variants. */
  lemma RemAgrees(g: GcdRoutine, a: Frac, b: Frac)
    requires a.den > 0 && b.den > 0 && b.num != 0
    ensures HasNonzeroPart(DivRaw(a, b))
    ensures HasNonzeroPart(MulRaw(b, Frac(Fix(Div(g, a, b)), 1)))
    ensures HasNonzeroPart(SubRaw(a, Mul(g, b, Frac(Fix(Div(g, a, b)), 1))))
    ensures HasNonzeroPart(MulRaw(b, Frac(Number.Fix(Number.Div(a, b)), 1)))
    ensures HasNonzeroPart(SubRaw(a, Number.Mul(b, Frac(Number.Fix(Number.Div(a, b)), 1))))
    ensures Rem(g, a, b) == Number.Rem(a, b)
  {
    QuotientRoundsAlike(g, a, b);
    SubMultipleAlike(g, a, b, Number.Fix(Number.Div(a, b)));
  }

  /** `mod` takes the divisor's sign and lies below it in magnitude; `rem`
      takes the dividend's sign and lies strictly within the divisor's
      magnitude. */
  lemma ModRemBounds(g: GcdRoutine, a: Frac, b: Frac)
    requires a.den > 0 && b.den > 0 && b.num != 0
    ensures HasNonzeroPart(DivRaw(a, b))
    ensures HasNonzeroPart(MulRaw(b, Frac(Floor(Div(g, a, b)), 1)))
    ensures HasNonzeroPart(SubRaw(a, Mul(g, b, Frac(Floor(Div(g, a, b)), 1))))
    ensures HasNonzeroPart(MulRaw(b, Frac(Fix(Div(g, a, b)), 1)))
    ensures HasNonzeroPart(SubRaw(a, Mul(g, b, Frac(Fix(Div(g, a, b)), 1))))
    ensures Mod(g, a, b).den > 0 && Rem(g, a, b).den > 0
    ensures b.num > 0 ==> 0.0 <= RealValue(Mod(g, a, b)) < RealValue(b)
    ensures b.num < 0 ==> RealValue(b) < RealValue(Mod(g, a, b)) <= 0.0
    ensures a.num >= 0 ==> 0.0 <= RealValue(Rem(g, a, b))
    ensures a.num < 0 ==> RealValue(Rem(g, a, b)) <= 0.0
    ensures b.num > 0 ==> -RealValue(b) < RealValue(Rem(g, a, b)) < RealValue(b)
    ensures b.num < 0 ==> RealValue(b) < RealValue(Rem(g, a, b)) < -RealValue(b)
  {
    ModAgrees(g, a, b);
    RemAgrees(g, a, b);
    Number.ModBounds(a, b);
    Number.RemBounds(a, b);
  }

  /** mod and rem of 7/3 by 3 are both 7/3: the quotient 7/9 rounds to 0. */
  lemma ModRemExample()
    ensures Mod(Scan, Frac(7, 3), Frac(3, 1)) == Frac(7, 3) && Rem(Scan, Frac(7, 3), Frac(3, 1)) == Frac(7, 3)
    ensures Mod(Euclid, Frac(7, 3), Frac(3, 1)) == Frac(7, 3) && Rem(Euclid, Frac(7, 3), Frac(3, 1)) == Frac(7, 3)
  {
    ModAgrees(Scan, Frac(7, 3), Frac(3, 1));
    RemAgrees(Scan, Frac(7, 3), Frac(3, 1));
    ModAgrees(Euclid, Frac(7, 3), Frac(3, 1));
    RemAgrees(Euclid, Frac(7, 3), Frac(3, 1));
    Number.ModRemPositiveExample();
  }

  // ---------------------------------------------------------------------
  // The classes

  /** The generic `Rational<T>`, whose `gcd` scans downward from max(a, b). */
  class Rational {
    var numerator: int
    var denominator: int

    function Value(): Frac
      reads this
    {
      Frac(numerator, denominator)
    }

    /** `Rational()`: 1/1, without calling `initialize`. */
    constructor Default()
      ensures Value() == Frac(1, 1)
    {
      numerator, denominator := 1, 1;
    }

    /** `Rational(num)`: the integer stored over 1, without calling `initialize`. */
    constructor FromInteger(n: int)
      ensures Value() == Frac(n, 1)
    {
      numerator, denominator := n, 1;
    }

    /** `Rational(num, den)`: runs `initialize`. */
    constructor (num: int, den: int)
      ensures Value() == Make(Scan, num, den)
    {
      new;
      Initialize(num, den);
    }

    /** `initialize`: divide both parts by the gcd, then `adjust` the two fields. */
    method Initialize(num: int, den: int)
      modifies this
      ensures Value() == Make(Scan, num, den)
    {
      var g := ScanGcd(num, den);
      ScanQuotients(num, den);
      numerator := TDiv(num, g);
      denominator := TDiv(den, g);
      numerator, denominator := Adjust(numerator, denominator);
    }

    method AddAssign(r: Rational)
      modifies this
      ensures Value() == Add(Scan, old(Value()), old(r.Value()))
    {
      Initialize(numerator * r.denominator + r.numerator * denominator, denominator * r.denominator);
    }

    method SubAssign(r: Rational)
      modifies this
      ensures Value() == Sub(Scan, old(Value()), old(r.Value()))
    {
      Initialize(numerator * r.denominator - r.numerator * denominator, denominator * r.denominator);
    }

    method MulAssign(r: Rational)
      modifies this
      ensures Value() == Mul(Scan, old(Value()), old(r.Value()))
    {
      Initialize(numerator * r.numerator, denominator * r.denominator);
    }

    method DivAssign(r: Rational)
      modifies this
      ensures Value() == Div(Scan, old(Value()), old(r.Value()))
    {
      Initialize(numerator * r.denominator, denominator * r.numerator);
    }
  }

  /** `Rational<mpz_class>`, whose `gcd` is Euclid's loop; 0/0 divides by zero. */
  class RationalMpz {
    var numerator: int
    var denominator: int

    function Value(): Frac
      reads this
    {
      Frac(numerator, denominator)
    }

    /** `Rational()`: 1/1, without calling `initialize`. */
    constructor Default()
      ensures Value() == Frac(1, 1)
    {
      numerator, denominator := 1, 1;
    }

    /** `Rational(num)`: the integer stored over 1, without calling `initialize`. */
    constructor FromInteger(n: int)
      ensures Value() == Frac(n, 1)
    {
      numerator, denominator := n, 1;
    }

    /** `Rational(num, den)`: runs `initialize`. */
    constructor (num: int, den: int)
      requires num != 0 || den != 0
      ensures Value() == Make(Euclid, num, den)
    {
      new;
      Initialize(num, den);
    }

    /** `initialize`: divide both parts by the gcd, then `adjust` the two fields. */
    method Initialize(num: int, den: int)
      requires num != 0 || den != 0
      modifies this
      ensures Value() == Make(Euclid, num, den)
    {
      var g := EuclidGcd(num, den);
      EuclidMatchesFlip(num, den);
      numerator := TDiv(num, g);
      denominator := TDiv(den, g);
      numerator, denominator := Adjust(numerator, denominator);
    }

    method AddAssign(r: RationalMpz)
      requires HasNonzeroPart(AddRaw(Value(), r.Value()))
      modifies this
      ensures Value() == Add(Euclid, old(Value()), old(r.Value()))
    {
      Initialize(numerator * r.denominator + r.numerator * denominator, denominator * r.denominator);
    }

    method SubAssign(r: RationalMpz)
      requires HasNonzeroPart(SubRaw(Value(), r.Value()))
      modifies this
      ensures Value() == Sub(Euclid, old(Value()), old(r.Value()))
    {
      Initialize(numerator * r.denominator - r.numerator * denominator, denominator * r.denominator);
    }

    method MulAssign(r: RationalMpz)
      requires HasNonzeroPart(MulRaw(Value(), r.Value()))
      modifies this
      ensures Value() == Mul(Euclid, old(Value()), old(r.Value()))
    {
      Initialize(numerator * r.numerator, denominator * r.denominator);
    }

    method DivAssign(r: RationalMpz)
      requires HasNonzeroPart(DivRaw(Value(), r.Value()))
      modifies this
      ensures Value() == Div(Euclid, old(Value()), old(r.Value()))
    {
      Initialize(numerator * r.denominator, denominator * r.numerator);
    }
  }
}
