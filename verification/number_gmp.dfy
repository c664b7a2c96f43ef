/**
 * `Number_GMP::Rational` (Rational_GMP.h): a non-template copy of the
 * generic template class over `mpz_class`, with the brute-force scanning gcd
 * and `adjust`. Its free arithmetic and relational operators are the same
 * expressions as the template's (`NumberTemplate` with `Scan`, and the
 * comparisons of `Fractions`). floor and ceil differ: outside the two
 * sentinels they are computed in `mpf_class` floating point, modelled here
 * by the exact floor and ceiling of num/den.
 */
module NumberGmp {
  import opened Arith
  import opened Fractions
  import NumberTemplate

  /** `Number_GMP::Rational`. */
  class Rational {
    var numerator: int
    var denominator: int

    function Value(): Frac
      reads this
    {
      Frac(numerator, denominator)
    }

    /** `Rational()`: 1/1. */
    constructor Default()
      ensures Value() == Frac(1, 1)
    {
      numerator, denominator := 1, 1;
    }

    /** `Rational(num)`: the integer stored over 1, unnormalised. */
    constructor FromInteger(n: int)
      ensures Value() == Frac(n, 1)
    {
      numerator, denominator := n, 1;
    }

    /** `Rational(num, den)`: runs `initialize`. */
    constructor (num: int, den: int)
      ensures Value() == NumberTemplate.Make(NumberTemplate.Scan, num, den)
    {
      new;
      Initialize(num, den);
    }

    /** `initialize`: divide by the scanned gcd, which is never 0, then
        `adjust` the two fields. */
    method Initialize(num: int, den: int)
      modifies this
      ensures Value() == NumberTemplate.Make(NumberTemplate.Scan, num, den)
      ensures denominator >= 0 && SameValue(Value(), Frac(num, den))
    {
      var g := ScanGcd(num, den);
      NumberTemplate.ScanQuotients(num, den);
      numerator := TDiv(num, g);
      denominator := TDiv(den, g);
      numerator, denominator := Adjust(numerator, denominator);
    }

    method AddAssign(r: Rational)
      modifies this
      ensures Value() == NumberTemplate.Add(NumberTemplate.Scan, old(Value()), old(r.Value()))
    {
      Initialize(numerator * r.denominator + r.numerator * denominator, denominator * r.denominator);
    }

    method SubAssign(r: Rational)
      modifies this
      ensures Value() == NumberTemplate.Sub(NumberTemplate.Scan, old(Value()), old(r.Value()))
    {
      Initialize(numerator * r.denominator - r.numerator * denominator, denominator * r.denominator);
    }

    method MulAssign(r: Rational)
      modifies this
      ensures Value() == NumberTemplate.Mul(NumberTemplate.Scan, old(Value()), old(r.Value()))
    {
      Initialize(numerator * r.numerator, denominator * r.denominator);
    }

    method DivAssign(r: Rational)
      modifies this
      ensures Value() == NumberTemplate.Div(NumberTemplate.Scan, old(Value()), old(r.Value()))
    {
      Initialize(numerator * r.denominator, denominator * r.numerator);
    }
  }

  // ---------------------------------------------------------------------
  // Rounding

  /** `floor(a)`: IntMax for Inf and 0 for NaN, checked before anything else;
      otherwise the floor of num/den (Dafny's `/` rounds down for a positive
      divisor). */
  function Floor(a: Frac): int {
    if a.IsInf() then IntMax
    else if a.IsNaN() then 0
    else a.num / a.den
  }

  /** `ceil(a)`: the sentinels, then the ceiling of num/den. */
  function Ceil(a: Frac): int {
    if a.IsInf() then IntMax
    else if a.IsNaN() then 0
    else -((-a.num) / a.den)
  }

  /** `fix(a)`: floor when the numerator is positive, otherwise ceil. */
  function Fix(a: Frac): int {
    if a.num > 0 then Floor(a) else Ceil(a)
  }

  lemma RoundingSentinels(a: Frac)
    ensures a.IsInf() ==> Floor(a) == IntMax && Ceil(a) == IntMax && Fix(a) == IntMax
    ensures a.IsNaN() ==> Floor(a) == 0 && Ceil(a) == 0 && Fix(a) == 0
  {
  }

  /** The floor and ceiling of n/d for d > 0, by Euclidean division. */
  lemma DivisionBounds(n: int, d: int)
    requires d > 0
    ensures (n / d) * d <= n < (n / d + 1) * d
    ensures (-((-n) / d) - 1) * d < n <= -((-n) / d) * d
  {
    var q, r := n / d, n % d;
    assert n == q * d + r && 0 <= r < d;
    assert (q + 1) * d == q * d + d;
    var p, s := (-n) / d, (-n) % d;
    assert -n == p * d + s && 0 <= s < d;
    assert (-p - 1) * d == -(p * d) - d;
    assert (-p) * d == -(p * d);
  }

  /** On every input, these floor, ceil and fix are the template's, which
      compute the same integers with truncating division. */
  lemma RoundingMatchesTemplate(a: Frac)
    ensures Floor(a) == NumberTemplate.Floor(a)
    ensures Ceil(a) == NumberTemplate.Ceil(a)
    ensures Fix(a) == NumberTemplate.Fix(a)
  {
    if a.den > 0 {
      DivisionBounds(a.num, a.den);
      NumberTemplate.FloorBounds(a);
      NumberTemplate.CeilBounds(a);
      NumberTemplate.FloorUnique(a.num, a.den, Floor(a), NumberTemplate.Floor(a));
      NumberTemplate.CeilUnique(a.num, a.den, Ceil(a), NumberTemplate.Ceil(a));
    }
  }

  // ---------------------------------------------------------------------
  // mod and rem

  /** `mod(a, b)`: a − b·floor(a/b), the integer converted by `Rational(num)`
      to k/1. */
  function Mod(a: Frac, b: Frac): Frac {
    var s := NumberTemplate.Scan;
    NumberTemplate.Sub(s, a, NumberTemplate.Mul(s, b, Frac(Floor(NumberTemplate.Div(s, a, b)), 1)))
  }

  /** `rem(a, b)`: a − b·fix(a/b). */
  function Rem(a: Frac, b: Frac): Frac {
    var s := NumberTemplate.Scan;
    NumberTemplate.Sub(s, a, NumberTemplate.Mul(s, b, Frac(Fix(NumberTemplate.Div(s, a, b)), 1)))
  }

  /** mod and rem are the generic template's on every input, so they inherit
      its bounds: mod on the divisor's side, rem on the dividend's. */
  lemma ModRemBounds(a: Frac, b: Frac)
    requires a.den > 0 && b.den > 0 && b.num != 0
    ensures Mod(a, b) == NumberTemplate.Mod(NumberTemplate.Scan, a, b)
    ensures Rem(a, b) == NumberTemplate.Rem(NumberTemplate.Scan, a, b)
    ensures Mod(a, b).den > 0 && Rem(a, b).den > 0
    ensures b.num > 0 ==> 0.0 <= RealValue(Mod(a, b)) < RealValue(b)
    ensures b.num < 0 ==> RealValue(b) < RealValue(Mod(a, b)) <= 0.0
    ensures a.num >= 0 ==> 0.0 <= RealValue(Rem(a, b))
    ensures a.num < 0 ==> RealValue(Rem(a, b)) <= 0.0
  {
    var q := NumberTemplate.Div(NumberTemplate.Scan, a, b);
    RoundingMatchesTemplate(q);
    NumberTemplate.ModRemBounds(NumberTemplate.Scan, a, b);
  }
}
