/**
 * The numerator/denominator pair every variant stores, the sentinel
 * predicates, the raw fraction formulas the operators feed to their
 * normalisers, the sign fix-up `adjust`, and the text rendering.
 */
module Fractions {
  import opened Arith

  /** `std::numeric_limits<Type>::max()`: what floor and ceil return for Inf.
      It is left abstract, since it depends on the integer type. */
  const IntMax: int

  /** The two fields of a `Rational`: `numerator` and `denominator`. */
  datatype Frac = Frac(num: int, den: int) {
    /** `isNaN`: 0/0, or a negative denominator. */
    predicate IsNaN() {
      (den == 0 && num == 0) || den < 0
    }
    /** `isInf`: a nonzero numerator over 0. */
    predicate IsInf() {
      den == 0 && num != 0
    }
    predicate IsInt() {
      den == 1
    }
    predicate IsPositive() {
      num > 0
    }
    predicate IsZero() {
      num == 0
    }
    predicate IsNegative() {
      num < 0
    }
  }

  /** The pair is neither sentinel, which is the same as a positive denominator. */
  function IsFinite(f: Frac): (b: bool)
    ensures b <==> !f.IsNaN() && !f.IsInf()
    ensures b <==> f.den > 0
  {
    f.den > 0
  }

  /** The predicates sort every pair: NaN, Inf and finite are exclusive and
      cover all pairs, an integer is finite, and zero, positive and negative
      split the pairs by the numerator's sign. */
  lemma SentinelCases(f: Frac)
    ensures f.IsNaN() || f.IsInf() || IsFinite(f)
    ensures !(f.IsNaN() && f.IsInf()) && !(IsFinite(f) && (f.IsNaN() || f.IsInf()))
    ensures f.IsInt() ==> IsFinite(f)
    ensures f.IsZero() <==> !f.IsPositive() && !f.IsNegative()
    ensures !(f.IsPositive() && f.IsNegative())
  {
  }

  /** Canonical form: a nonnegative denominator coprime with the numerator's magnitude.
      Zero is then 0/1, and the only pairs over 0 are 1/0 and -1/0. */
  ghost predicate Reduced(f: Frac) {
    f.den >= 0 && Gcd(Abs(f.num), f.den) == 1
  }

  /** Equality of the two fractions' values, by cross-multiplication. */
  ghost predicate SameValue(a: Frac, b: Frac) {
    a.num * b.den == b.num * a.den
  }

  ghost function RealValue(f: Frac): real
    requires f.den != 0
  {
    f.num as real / f.den as real
  }

  /** A pair the Euclidean normalisers can take: gcd(0, 0) would be 0 and
      the division by it undefined. */
  predicate HasNonzeroPart(f: Frac) {
    f.num != 0 || f.den != 0
  }

  // ---------------------------------------------------------------------
  // The raw pairs the operators hand to the normaliser

  function AddRaw(a: Frac, b: Frac): Frac {
    Frac(a.num * b.den + b.num * a.den, a.den * b.den)
  }

  function SubRaw(a: Frac, b: Frac): Frac {
    Frac(a.num * b.den - b.num * a.den, a.den * b.den)
  }

  function MulRaw(a: Frac, b: Frac): Frac {
    Frac(a.num * b.num, a.den * b.den)
  }

  function DivRaw(a: Frac, b: Frac): Frac {
    Frac(a.num * b.den, a.den * b.num)
  }

  lemma SameValueReal(r: Frac, p: Frac)
    requires r.den != 0 && p.den != 0 && SameValue(r, p)
    ensures RealValue(r) == RealValue(p)
  {
    var rn, rd, pn, pd := r.num as real, r.den as real, p.num as real, p.den as real;
    assert rn * pd == pn * rd;
    calc {
      rn / rd;
      (rn * pd) / (rd * pd);
      (pn * rd) / (rd * pd);
      pn / pd;
    }
  }

  /** Two pairs with the value of a third pair with a nonzero denominator
      have the same value. */
  lemma SameValueThrough(r: Frac, c: Frac, p: Frac)
    requires p.den != 0 && SameValue(r, p) && SameValue(c, p)
    ensures SameValue(r, c)
  {
    var x, y := r.num * c.den, c.num * r.den;
    calc {
      x * p.den;
      (r.num * p.den) * c.den;
      (p.num * r.den) * c.den;
      (p.num * c.den) * r.den;
      (c.num * p.den) * r.den;
      y * p.den;
    }
    assert (x - y) * p.den == 0;
  }

  lemma RealQuotient(p: real, q: real, x: real)
    requires q != 0.0 && x * q == p
    ensures p / q == x
  {
  }

  /** The raw sum of two finite values is their exact sum. */
  lemma AddRawValue(a: Frac, b: Frac)
    requires a.den != 0 && b.den != 0
    ensures AddRaw(a, b).den != 0
    ensures RealValue(AddRaw(a, b)) == RealValue(a) + RealValue(b)
  {
    var an, ad, bn, bd := a.num as real, a.den as real, b.num as real, b.den as real;
    var x, y := an / ad, bn / bd;
    assert x * ad == an && y * bd == bn;
    assert (x + y) * (ad * bd) == (x * ad) * bd + (y * bd) * ad;
    RealQuotient(an * bd + bn * ad, ad * bd, x + y);
  }

  lemma SubRawValue(a: Frac, b: Frac)
    requires a.den != 0 && b.den != 0
    ensures SubRaw(a, b).den != 0
    ensures RealValue(SubRaw(a, b)) == RealValue(a) - RealValue(b)
  {
    var an, ad, bn, bd := a.num as real, a.den as real, b.num as real, b.den as real;
    var x, y := an / ad, bn / bd;
    assert x * ad == an && y * bd == bn;
    assert (x - y) * (ad * bd) == (x * ad) * bd - (y * bd) * ad;
    RealQuotient(an * bd - bn * ad, ad * bd, x - y);
  }

  lemma MulRawValue(a: Frac, b: Frac)
    requires a.den != 0 && b.den != 0
    ensures MulRaw(a, b).den != 0
    ensures RealValue(MulRaw(a, b)) == RealValue(a) * RealValue(b)
  {
    var an, ad, bn, bd := a.num as real, a.den as real, b.num as real, b.den as real;
    var x, y := an / ad, bn / bd;
    assert x * ad == an && y * bd == bn;
    assert (x * y) * (ad * bd) == (x * ad) * (y * bd);
    RealQuotient(an * bn, ad * bd, x * y);
  }

  lemma DivRawValue(a: Frac, b: Frac)
    requires a.den != 0 && b.den != 0 && b.num != 0
    ensures DivRaw(a, b).den != 0
    ensures RealValue(DivRaw(a, b)) == RealValue(a) / RealValue(b)
  {
    var an, ad, bn, bd := a.num as real, a.den as real, b.num as real, b.den as real;
    var x, y := an / ad, bn / bd;
    assert x * ad == an && y * bd == bn;
    assert y != 0.0;
    var z := x / y;
    assert z * y == x;
    assert z * (ad * bn) == (z * y) * ad * bd;
    RealQuotient(an * bd, ad * bn, z);
  }

  // ---------------------------------------------------------------------
  // adjust: move the sign onto the numerator

  /** What `adjust(num, den)` leaves in its two reference parameters: the
      denominator made nonnegative, the magnitude of the numerator kept, and
      the value and the sign of num·den unchanged. */
  function Adjusted(num: int, den: int): (r: Frac)
    ensures r.den == Abs(den) && Abs(r.num) == Abs(num)
    ensures SameValue(r, Frac(num, den))
    ensures (r.num * r.den < 0 <==> num * den < 0) && (r.num * r.den > 0 <==> num * den > 0)
  {
    AdjustedSign(num, den);
    if (num < 0) != (den < 0) then Frac(-(Abs(num) as int), Abs(den)) else Frac(Abs(num), Abs(den))
  }

  lemma AdjustedSign(num: int, den: int)
    ensures var r := if (num < 0) != (den < 0) then Frac(-(Abs(num) as int), Abs(den)) else Frac(Abs(num), Abs(den));
            SameValue(r, Frac(num, den)) &&
            (r.num * r.den < 0 <==> num * den < 0) && (r.num * r.den > 0 <==> num * den > 0)
  {
    if num < 0 && den < 0 {
      assert (-num) * (-den) == num * den;
    } else if num < 0 {
      assert num * den <= 0;
    } else if den < 0 {
      assert (-num) * (-den) == num * den;
      assert num * den <= 0;
    }
  }

  /** Over a nonzero denominator, `adjust` is the flip of both signs when the
      denominator is negative. */
  lemma AdjustedFlip(num: int, den: int)
    requires den != 0
    ensures Adjusted(num, den) == if den < 0 then Frac(-num, -den) else Frac(num, den)
  {
  }

  /** Negating both fields does not change the adjusted pair. */
  lemma AdjustedNegateBoth(num: int, den: int)
    requires den != 0
    ensures Adjusted(-num, -den) == Adjusted(num, den)
  {
  }

  /** `static void adjust(Type &num, Type &den)`: the two reference
      parameters are modelled as an input pair and an output pair. */
  method Adjust(num0: int, den0: int) returns (num: int, den: int)
    ensures Frac(num, den) == Adjusted(num0, den0)
  {
    num, den := num0, den0;
    var isNegative := false;
    if num < 0 {
      num := -num;
      isNegative := !isNegative;
    }
    if den < 0 {
      den := -den;
      isNegative := !isNegative;
    }
    if isNegative {
      num := -num;
    }
  }

  // ---------------------------------------------------------------------
  // The cross-multiplication order the comparisons were meant to compute

  /** a.num·b.den − b.num·a.den: its sign is the order of the two values
      when both denominators are positive. */
  function CrossCompare(a: Frac, b: Frac): int {
    a.num * b.den - b.num * a.den
  }

  lemma CrossCompareIsOrder(a: Frac, b: Frac)
    requires a.den > 0 && b.den > 0
    ensures CrossCompare(a, b) > 0 <==> RealValue(a) > RealValue(b)
    ensures CrossCompare(a, b) == 0 <==> RealValue(a) == RealValue(b)
    ensures CrossCompare(a, b) < 0 <==> RealValue(a) < RealValue(b)
  {
    var an, ad, bn, bd := a.num as real, a.den as real, b.num as real, b.den as real;
    var c := CrossCompare(a, b);
    assert c as real == an * bd - bn * ad;
    assert an / ad - bn / bd == (an * bd - bn * ad) / (ad * bd);
    assert ad * bd > 0.0;
  }

  /** Cross-multiplied equality is equality of values, and is reflexive. */
  lemma SameValueIsValueEquality(a: Frac, b: Frac)
    requires a.den > 0 && b.den > 0
    ensures SameValue(a, b) <==> RealValue(a) == RealValue(b)
    ensures SameValue(a, a)
  {
    CrossCompareIsOrder(a, b);
  }

  // ---------------------------------------------------------------------
  // Ordering and equality as written in every variant: the second product
  // multiplies b.num by a.num

  /** `compare(a, b)` and the shared expression of the relational operators:
      a.num·b.den − b.num·a.num, which is a.num·(b.den − b.num). */
  function Compare(a: Frac, b: Frac): (c: int)
    ensures c == a.num * (b.den - b.num)
  {
    a.num * b.den - b.num * a.num
  }

  /** `>` as written: decided by a's sign and by b.den against b.num; a's
      denominator plays no part. */
  function Greater(a: Frac, b: Frac): (r: bool)
    ensures r <==> (a.num > 0 && b.den > b.num) || (a.num < 0 && b.den < b.num)
  {
    Compare(a, b) > 0
  }

  function GreaterOrEqual(a: Frac, b: Frac): (r: bool)
    ensures r <==> !Less(a, b)
  {
    Compare(a, b) >= 0
  }

  /** `<` as written, decided the same way with the inequality on b reversed. */
  function Less(a: Frac, b: Frac): (r: bool)
    ensures r <==> (a.num > 0 && b.den < b.num) || (a.num < 0 && b.den > b.num)
  {
    Compare(a, b) < 0
  }

  function LessOrEqual(a: Frac, b: Frac): (r: bool)
    ensures r <==> !Greater(a, b)
  {
    Compare(a, b) <= 0
  }

  /** `operator==` of the template and GMP variants: the shared expression is zero. */
  function CrossEqual(a: Frac, b: Frac): (r: bool)
    ensures r <==> Compare(a, b) == 0
    ensures r <==> a.num == 0 || b.den == b.num
  {
    a.num * b.den == b.num * a.num
  }

  /** `operator!=` of the template and GMP variants. */
  function CrossNotEqual(a: Frac, b: Frac): (r: bool)
    ensures r <==> !CrossEqual(a, b)
  {
    a.num * b.den != b.num * a.num
  }

  /** The ordering as written ranks 1/3 above 1/2 and 1/2 above itself,
      where the cross-multiplication order ranks them correctly. */
  lemma CompareMisorders()
    ensures Greater(Frac(1, 3), Frac(1, 2)) && RealValue(Frac(1, 3)) < RealValue(Frac(1, 2))
    ensures Greater(Frac(1, 2), Frac(1, 2))
    ensures CrossCompare(Frac(1, 3), Frac(1, 2)) < 0 && CrossCompare(Frac(1, 2), Frac(1, 2)) == 0
  {
  }

  /** The equality as written finds 1/2 unequal to itself and 1/2 equal to
      1/1, where equality of values is reflexive. */
  lemma CrossEqualMisjudges()
    ensures !CrossEqual(Frac(1, 2), Frac(1, 2)) && SameValue(Frac(1, 2), Frac(1, 2))
    ensures CrossEqual(Frac(1, 2), Frac(1, 1)) && !SameValue(Frac(1, 2), Frac(1, 1))
  {
  }

  // ---------------------------------------------------------------------
  // Text

  function DigitChar(d: nat): char
    requires d < 10
  {
    "0123456789"[d]
  }

  function Digits(n: nat): (s: string)
    ensures |s| > 0 && forall i :: 0 <= i < |s| ==> '0' <= s[i] <= '9'
  {
    if n < 10 then [DigitChar(n)] else Digits(n / 10) + [DigitChar(n % 10)]
  }

  /** Decimal rendering of an integer (`std::to_string`, `mpz_class::get_str`):
      an optional minus sign followed by digits. */
  function IntToString(n: int): (s: string)
    ensures |s| > 0
    ensures forall i :: 0 < i < |s| ==> '0' <= s[i] <= '9'
    ensures (s[0] == '-') <==> n < 0
    ensures s[0] == '-' || '0' <= s[0] <= '9'
    ensures n < 0 ==> |s| >= 2
  {
    if n < 0 then
      var d := Digits(-n);
      assert forall i :: 0 < i < |d| + 1 ==> ("-" + d)[i] == d[i - 1];
      "-" + d
    else Digits(n)
  }

  /** `to_string`: the integer text when the denominator is 1, then "Inf",
      then "NaN", and otherwise "num/den". */
  function ToString(a: Frac): (s: string)
    ensures a.IsInt() ==> s == IntToString(a.num)
    ensures s == "Inf" <==> a.IsInf()
    ensures s == "NaN" <==> a.IsNaN()
    ensures '/' in s <==> !a.IsInt() && !a.IsInf() && !a.IsNaN()
    ensures '/' in s ==> s == IntToString(a.num) + "/" + IntToString(a.den)
  {
    if a.IsInt() then
      assert IntToString(a.num)[0] != 'I' && IntToString(a.num)[0] != 'N';
      IntToString(a.num)
    else if a.IsInf() then "Inf"
    else if a.IsNaN() then "NaN"
    else
      var s := IntToString(a.num) + "/" + IntToString(a.den);
      assert s[|IntToString(a.num)|] == '/';
      s
  }
}
