/**
 * `Number::Rational<T>` (rational.h): the variant whose normaliser divides
 * by the Euclidean gcd and then flips both signs when the denominator came
 * out negative. The integer type T is modelled as `int`.
 */
module Number {
  import opened Arith
  import opened Fractions

  // ---------------------------------------------------------------------
  // The normaliser

  /** Dividing both parts by the Euclidean gcd leaves exact, coprime quotients
      with the value kept; over 0 the gcd is the numerator itself. */
  lemma DivideByTruncEuclid(num: int, den: int)
    requires num != 0 || den != 0
    ensures TruncEuclid(num, den) != 0
    ensures var g := TruncEuclid(num, den);
            var n, d := TDiv(num, g), TDiv(den, g);
            Gcd(Abs(n), Abs(d)) == 1 && n * den == num * d &&
            (den == 0 ==> n == 1 && d == 0) && (den != 0 ==> d != 0)
  {
    var g := TruncEuclid(num, den);
    TruncEuclidDivides(num, den);
    TruncEuclidMagnitude(num, den);
    var x :| num == g * x;
    var y :| den == g * y;
    ExactQuotients(num, den, g, x, y);
    if den == 0 {
      assert g == num;
      assert y == 0;
      assert x == 1;
    }
  }

  /** Dividing by a signed common divisor whose magnitude is the gcd. */
  lemma ExactQuotients(num: int, den: int, g: int, x: int, y: int)
    requires g != 0 && num == g * x && den == g * y
    requires Abs(g) == Gcd(Abs(num), Abs(den))
    ensures TDiv(num, g) == x && TDiv(den, g) == y
    ensures Gcd(Abs(x), Abs(y)) == 1
    ensures x * den == num * y
    ensures den != 0 <==> y != 0
  {
    TDivExact(num, g, x);
    TDivExact(den, g, y);
    AbsMul(g, x);
    AbsMul(g, y);
    CoprimeQuotients(Abs(num), Abs(den), Abs(g), Abs(x), Abs(y));
    calc {
      x * den;
      x * (g * y);
      { MulAssoc(x, g, y); }
      (x * g) * y;
      num * y;
    }
  }

  /** Flipping both signs keeps a coprime pair coprime and its cross-products. */
  lemma FlipBoth(n: int, d: int, num: int, den: int)
    requires Gcd(Abs(n), Abs(d)) == 1 && n * den == num * d
    ensures Gcd(Abs(-n), Abs(-d)) == 1 && (-n) * den == num * (-d)
  {
    assert Abs(-n) == Abs(n) && Abs(-d) == Abs(d);
  }

  /** What `initialize(num, den)` stores. The pair must not be 0/0: gcd(0, 0)
      is 0 and the division by it is undefined. Over 0 the result is 1/0
      whatever the numerator's sign. */
  function Normalize(num: int, den: int): (r: Frac)
    requires num != 0 || den != 0
    ensures Reduced(r) && SameValue(r, Frac(num, den))
    ensures den == 0 ==> r == Frac(1, 0)
    ensures den != 0 ==> r.den > 0
  {
    DivideByTruncEuclid(num, den);
    var g := TruncEuclid(num, den);
    var n, d := TDiv(num, g), TDiv(den, g);
    FlipBoth(n, d, num, den);
    if d < 0 then Frac(-n, -d) else Frac(n, d)
  }

  /** Normalising a pair already in canonical form gives it back (1/0 is the
      only pair over 0 the normaliser can produce). */
  lemma NormalizeIdempotent(c: Frac)
    requires Reduced(c) && (c.den > 0 || c.num == 1)
    ensures Normalize(c.num, c.den) == c
  {
    var g := TruncEuclid(c.num, c.den);
    TruncEuclidMagnitude(c.num, c.den);
    assert Abs(g) == 1;
    if g == 1 {
      TDivExact(c.num, g, c.num);
      TDivExact(c.den, g, c.den);
    } else {
      TDivExact(c.num, g, -c.num);
      TDivExact(c.den, g, -c.den);
    }
  }

  lemma GcdZeroLeft(x: nat)
    ensures Gcd(0, x) == x
  {
    if x != 0 {
      assert 0 % x == 0;
    }
  }

  /** `Rational()`, which delegates to `Rational(0, 1)`: canonical zero. */
  function Zero(): (r: Frac)
    ensures r == Frac(0, 1) && r.IsZero() && r.IsInt()
  {
    GcdZeroLeft(1);
    NormalizeIdempotent(Frac(0, 1));
    Normalize(0, 1)
  }

  /** `Rational(num)`, which delegates to `Rational(num, 1)`: the integer over 1. */
  function FromInt(n: int): (r: Frac)
    ensures r == Frac(n, 1) && r.IsInt()
  {
    GcdOne(Abs(n));
    NormalizeIdempotent(Frac(n, 1));
    Normalize(n, 1)
  }

  // ---------------------------------------------------------------------
  // Arithmetic (operators +, -, *, / copy the left operand and apply +=, -=, *=, /=)

  function Add(a: Frac, b: Frac): (r: Frac)
    requires HasNonzeroPart(AddRaw(a, b))
    ensures Reduced(r)
    ensures a.den > 0 && b.den > 0 ==> r.den > 0 && RealValue(r) == RealValue(a) + RealValue(b)
  {
    var r := Normalize(AddRaw(a, b).num, AddRaw(a, b).den);
    if a.den > 0 && b.den > 0 then
      AddRawValue(a, b);
      SameValueReal(r, AddRaw(a, b));
      r
    else
      r
  }

  function Sub(a: Frac, b: Frac): (r: Frac)
    requires HasNonzeroPart(SubRaw(a, b))
    ensures Reduced(r)
    ensures a.den > 0 && b.den > 0 ==> r.den > 0 && RealValue(r) == RealValue(a) - RealValue(b)
  {
    var r := Normalize(SubRaw(a, b).num, SubRaw(a, b).den);
    if a.den > 0 && b.den > 0 then
      SubRawValue(a, b);
      SameValueReal(r, SubRaw(a, b));
      r
    else
      r
  }

  function Mul(a: Frac, b: Frac): (r: Frac)
    requires HasNonzeroPart(MulRaw(a, b))
    ensures Reduced(r)
    ensures a.den > 0 && b.den > 0 ==> r.den > 0 && RealValue(r) == RealValue(a) * RealValue(b)
  {
    var r := Normalize(MulRaw(a, b).num, MulRaw(a, b).den);
    if a.den > 0 && b.den > 0 then
      MulRawValue(a, b);
      SameValueReal(r, MulRaw(a, b));
      r
    else
      r
  }

  /** Division; by a zero divisor the raw denominator is 0 and the result is 1/0. */
  function Div(a: Frac, b: Frac): (r: Frac)
    requires HasNonzeroPart(DivRaw(a, b))
    ensures Reduced(r)
    ensures a.den > 0 && b.den > 0 && b.num != 0 ==> r.den > 0 && RealValue(r) == RealValue(a) / RealValue(b)
    ensures a.den > 0 && b.num == 0 ==> r == Frac(1, 0)
  {
    var r := Normalize(DivRaw(a, b).num, DivRaw(a, b).den);
    if a.den > 0 && b.den > 0 && b.num != 0 then
      DivRawValue(a, b);
      SameValueReal(r, DivRaw(a, b));
      r
    else
      r
  }

  /** Unary `-`: `Rational(-numerator, denominator)`. Exact on finite values;
      both infinities become 1/0. */
  function Neg(a: Frac): (r: Frac)
    requires HasNonzeroPart(a)
    ensures Reduced(r)
    ensures Reduced(a) && a.den > 0 ==> r == Frac(-a.num, a.den)
    ensures a.den == 0 ==> r == Frac(1, 0)
  {
    NegateCanonical(a);
    Normalize(-a.num, a.den)
  }

  lemma NegateCanonical(a: Frac)
    ensures Reduced(a) && a.den > 0 ==> Normalize(-a.num, a.den) == Frac(-a.num, a.den)
  {
    if Reduced(a) && a.den > 0 {
      assert Abs(-a.num) == Abs(a.num);
      NormalizeIdempotent(Frac(-a.num, a.den));
    }
  }

  /** Unary `~` (reciprocal): `Rational(denominator, numerator)`. */
  function Recip(a: Frac): (r: Frac)
    requires HasNonzeroPart(a)
    ensures Reduced(r)
    ensures a.den > 0 && a.num != 0 ==> r.den > 0 && RealValue(r) == 1.0 / RealValue(a)
    ensures a.num == 0 ==> r == Frac(1, 0)
  {
    var r := Normalize(a.den, a.num);
    if a.den > 0 && a.num != 0 then
      SameValueReal(r, Frac(a.den, a.num));
      RealReciprocal(a.num as real, a.den as real);
      r
    else
      r
  }

  lemma RealReciprocal(n: real, d: real)
    requires n != 0.0 && d != 0.0
    ensures d / n == 1.0 / (n / d)
  {
    var q, x := n / d, d / n;
    assert q * d == n && x * n == d;
    assert (x * q) * d == x * n;
    assert x * q == 1.0;
  }

  /** `a + (-a)` is canonical zero for every finite canonical `a`. */
  lemma AddNegIsZero(a: Frac)
    requires Reduced(a) && a.den > 0
    ensures Add(a, Neg(a)) == Frac(0, 1)
  {
    var n := Neg(a);
    assert n == Frac(-a.num, a.den);
    assert AddRaw(a, n) == Frac(0, a.den * a.den);
    var r := Add(a, n);
    assert r.num * (a.den * a.den) == 0;
    assert r.num == 0;
    GcdZeroLeft(r.den);
  }

  /** `a * ~a` is one for every finite nonzero canonical `a`. */
  lemma MulRecipIsOne(a: Frac)
    requires Reduced(a) && a.den > 0 && a.num != 0
    ensures Mul(a, Recip(a)) == Frac(1, 1)
  {
    var q := Recip(a);
    assert q.num * a.num == a.den * q.den;
    var m := a.num * q.num;
    assert MulRaw(a, q) == Frac(m, m);
    var r := Mul(a, q);
    assert r.num * m == m * r.den;
    assert r.num == r.den;
    assert Gcd(r.den, r.den) == Gcd(r.den, 0) by {
      assert r.den % r.den == 0;
    }
  }

  // ---------------------------------------------------------------------
  // The class and its in-place operations

  class Rational {
    var numerator: int
    var denominator: int

    function Value(): Frac
      reads this
    {
      Frac(numerator, denominator)
    }

    /** `Rational()`: delegates to `Rational(0, 1)`. */
    constructor Default()
      ensures Value() == Zero()
    {
      new;
      Initialize(0, 1);
    }

    /** `Rational(num)`: delegates to `Rational(num, 1)`. */
    constructor FromInteger(n: int)
      ensures Value() == FromInt(n)
    {
      new;
      Initialize(n, 1);
    }

    /** `Rational(num, den)`: runs `initialize`. */
    constructor (num: int, den: int)
      requires num != 0 || den != 0
      ensures Value() == Normalize(num, den)
    {
      new;
      Initialize(num, den);
    }

    /** The implicit copy constructor, used by the binary operators. */
    constructor Copy(r: Rational)
      ensures Value() == r.Value()
    {
      numerator := r.numerator;
      denominator := r.denominator;
    }

    method Initialize(num: int, den: int)
      requires num != 0 || den != 0
      modifies this
      ensures Value() == Normalize(num, den)
    {
      var g := EuclidGcd(num, den);
      DivideByTruncEuclid(num, den);
      numerator := TDiv(num, g);
      denominator := TDiv(den, g);
      if denominator < 0 {
        denominator := -denominator;
        numerator := -numerator;
      }
    }

    method AddAssign(r: Rational)
      requires HasNonzeroPart(AddRaw(Value(), r.Value()))
      modifies this
      ensures Value() == Add(old(Value()), old(r.Value()))
    {
      Initialize(numerator * r.denominator + r.numerator * denominator, denominator * r.denominator);
    }

    method SubAssign(r: Rational)
      requires HasNonzeroPart(SubRaw(Value(), r.Value()))
      modifies this
      ensures Value() == Sub(old(Value()), old(r.Value()))
    {
      Initialize(numerator * r.denominator - r.numerator * denominator, denominator * r.denominator);
    }

    method MulAssign(r: Rational)
      requires HasNonzeroPart(MulRaw(Value(), r.Value()))
      modifies this
      ensures Value() == Mul(old(Value()), old(r.Value()))
    {
      Initialize(numerator * r.numerator, denominator * r.denominator);
    }

    method DivAssign(r: Rational)
      requires HasNonzeroPart(DivRaw(Value(), r.Value()))
      modifies this
      ensures Value() == Div(old(Value()), old(r.Value()))
    {
      Initialize(numerator * r.denominator, denominator * r.numerator);
    }
  }

  /** `operator+`: `Rational<T>(a) += b` on a fresh copy; neither operand changes. */
  method Plus(a: Rational, b: Rational) returns (r: Rational)
    requires HasNonzeroPart(AddRaw(a.Value(), b.Value()))
    ensures fresh(r) && r.Value() == Add(a.Value(), b.Value())
    ensures a.Value() == old(a.Value()) && b.Value() == old(b.Value())
  {
    r := new Rational.Copy(a);
    r.AddAssign(b);
  }

  method Minus(a: Rational, b: Rational) returns (r: Rational)
    requires HasNonzeroPart(SubRaw(a.Value(), b.Value()))
    ensures fresh(r) && r.Value() == Sub(a.Value(), b.Value())
    ensures a.Value() == old(a.Value()) && b.Value() == old(b.Value())
  {
    r := new Rational.Copy(a);
    r.SubAssign(b);
  }

  method Times(a: Rational, b: Rational) returns (r: Rational)
    requires HasNonzeroPart(MulRaw(a.Value(), b.Value()))
    ensures fresh(r) && r.Value() == Mul(a.Value(), b.Value())
    ensures a.Value() == old(a.Value()) && b.Value() == old(b.Value())
  {
    r := new Rational.Copy(a);
    r.MulAssign(b);
  }

  method Over(a: Rational, b: Rational) returns (r: Rational)
    requires HasNonzeroPart(DivRaw(a.Value(), b.Value()))
    ensures fresh(r) && r.Value() == Div(a.Value(), b.Value())
    ensures a.Value() == old(a.Value()) && b.Value() == old(b.Value())
  {
    r := new Rational.Copy(a);
    r.DivAssign(b);
  }

  // ---------------------------------------------------------------------
  // Equality and ordering

  /** `equal`: field-by-field comparison; `==` is `equal`, `!=` its negation. */
  function Equal(a: Frac, b: Frac): (r: bool)
    ensures r <==> a == b
    ensures Reduced(a) && Reduced(b) && a.den > 0 && b.den > 0 ==> (r <==> RealValue(a) == RealValue(b))
  {
    CanonicalEquality(a, b);
    a.num == b.num && a.den == b.den
  }

  /** On canonical finite pairs, equal fields and equal values coincide. */
  lemma CanonicalEquality(a: Frac, b: Frac)
    ensures Reduced(a) && Reduced(b) && a.den > 0 && b.den > 0 ==> (a == b <==> RealValue(a) == RealValue(b))
  {
    if Reduced(a) && Reduced(b) && a.den > 0 && b.den > 0 {
      SameValueIsValueEquality(a, b);
      if SameValue(a, b) {
        CanonicalUnique(a, b);
      }
    }
  }

  function NotEqual(a: Frac, b: Frac): (r: bool)
    ensures r <==> !Equal(a, b)
  {
    !(a.num == b.num && a.den == b.den)
  }

  /** Euclid's lemma: a denominator coprime with p that divides p·s divides s. */
  lemma CoprimeFactor(p: int, q: nat, s: nat, t: int)
    requires q > 0 && s > 0 && Gcd(Abs(p), q) == 1 && p * s == t * q
    ensures Divides(q, s)
  {
    var pa, ta := Abs(p), Abs(t);
    assert pa * s == ta * q by {
      AbsMul(p, s);
      AbsMul(t, q);
    }
    var m1, m2 := s * pa, s * q;
    assert m1 == q * ta;
    assert m2 == q * s;
    assert Gcd(m1, m2) == s by {
      GcdScale(s, pa, q);
    }
    GcdGreatest(m1, m2, q);
  }

  /** Two canonical finite pairs with the same value are the same pair. */
  lemma CanonicalUnique(a: Frac, b: Frac)
    requires Reduced(a) && Reduced(b) && a.den > 0 && b.den > 0 && SameValue(a, b)
    ensures a == b
  {
    CoprimeFactor(a.num, a.den, b.den, b.num);
    CoprimeFactor(b.num, b.den, a.den, a.num);
    DividesLe(a.den, b.den);
    DividesLe(b.den, a.den);
    assert a.num * a.den == b.num * a.den;
  }

  // ---------------------------------------------------------------------
  // abs

  /** `abs(a)`: `Rational<T>(abs(a.getnum()), a.getden())`. */
  function AbsValue(a: Frac): (r: Frac)
    requires HasNonzeroPart(a)
    ensures Reduced(r)
    ensures Reduced(a) ==> r == Frac(Abs(a.num), a.den)
  {
    AbsCanonical(a);
    Normalize(Abs(a.num), a.den)
  }

  lemma AbsCanonical(a: Frac)
    ensures Reduced(a) ==> Normalize(Abs(a.num), a.den) == Frac(Abs(a.num), a.den)
  {
    if Reduced(a) {
      assert Abs(Abs(a.num)) == Abs(a.num);
      NormalizeIdempotent(Frac(Abs(a.num), a.den));
    }
  }

  // ---------------------------------------------------------------------
  // Rounding

  /** `floor()`: IntMax for Inf, 0 for NaN and zero, the numerator for an
      integer, else the truncated quotient, less one when negative. */
  function Floor(a: Frac): int {
    if a.IsInf() then IntMax
    else if a.IsNaN() then 0
    else if a.IsZero() then 0
    else if a.IsInt() then a.num
    else if a.IsPositive() then TDiv(a.num, a.den) else TDiv(a.num, a.den) - 1
  }

  /** `ceil()`: as floor, but the truncated quotient plus one when positive. */
  function Ceil(a: Frac): int {
    if a.IsInf() then IntMax
    else if a.IsNaN() then 0
    else if a.IsZero() then 0
    else if a.IsInt() then a.num
    else if a.IsPositive() then TDiv(a.num, a.den) + 1 else TDiv(a.num, a.den)
  }

  /** `fix()`: floor for a positive value, ceil otherwise. */
  function Fix(a: Frac): int {
    if a.IsPositive() then Floor(a) else Ceil(a)
  }

  /** A canonical pair over 2 or more is never an integer: the denominator
      does not divide the numerator. */
  lemma NotDivisible(a: Frac)
    requires Reduced(a) && a.den >= 2
    ensures Abs(a.num) % a.den != 0
  {
    TModFacts(a.num, a.den);
    TModZeroIffDivides(a.num, a.den);
    if Divides(a.den, a.num) {
      CoprimeDivisor(a.num, a.den);
    }
  }

  /** When d does not divide n, the truncated quotient t lies strictly
      between the two neighbouring multiples of d. */
  lemma InexactQuotient(n: int, d: int)
    requires d >= 2 && Abs(n) % d != 0
    ensures n > 0 ==> TDiv(n, d) * d < n < (TDiv(n, d) + 1) * d
    ensures n < 0 ==> (TDiv(n, d) - 1) * d < n < TDiv(n, d) * d
  {
    var q := Abs(n) / d;
    InexactPositive(Abs(n), d);
    if n < 0 {
      assert TDiv(n, d) == -q;
      NegateProduct(q + 1, d);
      NegateProduct(q, d);
    }
  }

  lemma InexactPositive(m: int, d: int)
    requires m > 0 && d >= 2 && m % d != 0
    ensures (m / d) * d < m < (m / d + 1) * d
  {
    var q, r := m / d, m % d;
    assert m == q * d + r;
    assert (q + 1) * d == q * d + d;
  }

  lemma NegateProduct(x: int, d: int)
    ensures (-x) * d == -(x * d)
  {
  }

  lemma RoundingSentinels(a: Frac)
    ensures a.IsInf() ==> Floor(a) == IntMax && Ceil(a) == IntMax && Fix(a) == IntMax
    ensures a.IsNaN() || a.IsZero() ==> Floor(a) == 0 && Ceil(a) == 0 && Fix(a) == 0
  {
  }

  /** On a finite canonical value, floor is the mathematical floor. */
  lemma FloorBounds(a: Frac)
    requires Reduced(a) && a.den > 0
    ensures Floor(a) * a.den <= a.num < (Floor(a) + 1) * a.den
  {
    if a.num != 0 && a.den != 1 {
      NotDivisible(a);
      InexactQuotient(a.num, a.den);
    }
  }

  /** On a finite canonical value, ceil is the mathematical ceiling. */
  lemma CeilBounds(a: Frac)
    requires Reduced(a) && a.den > 0
    ensures (Ceil(a) - 1) * a.den < a.num <= Ceil(a) * a.den
  {
    if a.num != 0 && a.den != 1 {
      NotDivisible(a);
      InexactQuotient(a.num, a.den);
    }
  }

  /** On a finite canonical value, fix rounds toward zero: it is the C++
      truncating quotient, whose magnitude is that of the value's integer part. */
  lemma FixTruncates(a: Frac)
    requires Reduced(a) && a.den > 0
    ensures Fix(a) == TDiv(a.num, a.den)
    ensures Abs(Fix(a)) == Abs(a.num) / a.den
    ensures Fix(a) == 0 || ((Fix(a) < 0) <==> (a.num < 0))
  {
    TModFacts(a.num, a.den);
  }

  /** The rounding examples: 7/3 and -7/3. */
  lemma RoundingExamples()
    ensures Floor(Frac(7, 3)) == 2 && Ceil(Frac(7, 3)) == 3 && Fix(Frac(7, 3)) == 2
    ensures Floor(Frac(-7, 3)) == -3 && Ceil(Frac(-7, 3)) == -2 && Fix(Frac(-7, 3)) == -2
  {
  }

  // ---------------------------------------------------------------------
  // mod and rem

  /** `mod(a, b) = a - (b * floor(a / b))`; the integer floor is converted
      back with the single-integer constructor, which gives f/1 (FromInt).
      Each of the three operators must not hand 0/0 to the normaliser. */
  function Mod(a: Frac, b: Frac): Frac
    requires HasNonzeroPart(DivRaw(a, b))
    requires HasNonzeroPart(MulRaw(b, Frac(Floor(Div(a, b)), 1)))
    requires HasNonzeroPart(SubRaw(a, Mul(b, Frac(Floor(Div(a, b)), 1))))
  {
    Sub(a, Mul(b, Frac(Floor(Div(a, b)), 1)))
  }

  /** `rem(a, b) = a - (b * fix(a / b))`. */
  function Rem(a: Frac, b: Frac): Frac
    requires HasNonzeroPart(DivRaw(a, b))
    requires HasNonzeroPart(MulRaw(b, Frac(Fix(Div(a, b)), 1)))
    requires HasNonzeroPart(SubRaw(a, Mul(b, Frac(Fix(Div(a, b)), 1))))
  {
    Sub(a, Mul(b, Frac(Fix(Div(a, b)), 1)))
  }

  lemma PositiveProduct(x: int, y: int)
    requires x > 0 && y > 0
    ensures x * y > 0
  {
  }

  lemma IntegerValue(c: Frac)
    requires c.den == 1
    ensures RealValue(c) == c.num as real
  {
    RealQuotient(c.num as real, 1.0, c.num as real);
  }

  lemma MulFinite(x: Frac, y: Frac)
    requires x.den > 0 && y.den > 0
    ensures HasNonzeroPart(MulRaw(x, y))
    ensures Mul(x, y).den > 0 && RealValue(Mul(x, y)) == RealValue(x) * RealValue(y)
  {
    PositiveProduct(x.den, y.den);
  }

  lemma SubFinite(a: Frac, m: Frac)
    requires a.den > 0 && m.den > 0
    ensures HasNonzeroPart(SubRaw(a, m))
    ensures Sub(a, m).den > 0 && RealValue(Sub(a, m)) == RealValue(a) - RealValue(m)
  {
    PositiveProduct(a.den, m.den);
  }

  /** a - b·k for finite a, b and an integer k, through the operators. */
  lemma SubMultiple(a: Frac, b: Frac, k: int)
    requires a.den > 0 && b.den > 0
    ensures HasNonzeroPart(MulRaw(b, Frac(k, 1)))
    ensures HasNonzeroPart(SubRaw(a, Mul(b, Frac(k, 1))))
    ensures Sub(a, Mul(b, Frac(k, 1))).den > 0
    ensures RealValue(Sub(a, Mul(b, Frac(k, 1)))) == RealValue(a) - RealValue(b) * (k as real)
  {
    IntegerValue(Frac(k, 1));
    MulFinite(b, Frac(k, 1));
    SubFinite(a, Mul(b, Frac(k, 1)));
  }

  // Small facts of ordered-field arithmetic, one step each

  /** 0 ≤ B·F < B when B > 0 and 0 ≤ F < 1. */
  lemma UnitBand(B: real, F: real, R: real)
    requires B > 0.0 && 0.0 <= F < 1.0 && R == B * F
    ensures 0.0 <= R < B
  {
  }

  /** −B < B·F < B when B > 0 and −1 < F < 1. */
  lemma OpenBand(B: real, F: real, R: real)
    requires B > 0.0 && -1.0 < F < 1.0 && R == B * F
    ensures -B < R < B
  {
  }

  lemma Flip(B: real, F: real, R: real)
    requires R == B * F
    ensures -R == (-B) * F
  {
  }

  lemma SameSign(B: real, F: real, R: real)
    requires R == B * F && ((B > 0.0 && F >= 0.0) || (B < 0.0 && F <= 0.0))
    ensures R >= 0.0
  {
  }

  lemma OppositeSign(B: real, F: real, R: real)
    requires R == B * F && ((B > 0.0 && F <= 0.0) || (B < 0.0 && F >= 0.0))
    ensures R <= 0.0
  {
  }

  /** Multiplying by d > 0 keeps ≤. */
  lemma ScaleLe(d: real, u: real, w: real)
    requires d > 0.0 && u <= w
    ensures u * d <= w * d
  {
  }

  /** Multiplying by d > 0 keeps <. */
  lemma ScaleLt(d: real, u: real, w: real)
    requires d > 0.0 && u < w
    ensures u * d < w * d
  {
  }

  lemma CastProduct(a: int, b: int)
    ensures (a * b) as real == (a as real) * (b as real)
  {
  }

  /** Integer bounds on the numerator turned into real bounds on the value:
      f·den ≤ num < (f+1)·den gives f ≤ num/den < f + 1. */
  lemma FloorReal(q: Frac, f: int)
    requires q.den > 0 && f * q.den <= q.num < (f + 1) * q.den
    ensures f as real <= RealValue(q) < f as real + 1.0
  {
    var n, d, x := q.num as real, q.den as real, f as real;
    CastProduct(f, q.den);
    CastProduct(f + 1, q.den);
    assert x * d <= n;
    assert n < (x + 1.0) * d;
    FloorBracket(n, d, x);
  }

  lemma FloorBracket(n: real, d: real, x: real)
    requires d > 0.0 && x * d <= n < (x + 1.0) * d
    ensures x <= n / d < x + 1.0
  {
    var v := n / d;
    assert v * d == n;
    if v < x {
      ScaleLt(d, v, x);
    }
    if v >= x + 1.0 {
      ScaleLe(d, x + 1.0, v);
    }
  }

  /** (c−1)·den < num ≤ c·den gives c − 1 < num/den ≤ c. */
  lemma CeilReal(q: Frac, c: int)
    requires q.den > 0 && (c - 1) * q.den < q.num <= c * q.den
    ensures c as real - 1.0 < RealValue(q) <= c as real
  {
    var n, d, x := q.num as real, q.den as real, c as real;
    CastProduct(c, q.den);
    CastProduct(c - 1, q.den);
    assert (x - 1.0) * d < n;
    assert n <= x * d;
    CeilBracket(n, d, x);
  }

  lemma CeilBracket(n: real, d: real, x: real)
    requires d > 0.0 && (x - 1.0) * d < n <= x * d
    ensures x - 1.0 < n / d <= x
  {
    var v := n / d;
    assert v * d == n;
    if v > x {
      ScaleLt(d, x, v);
    }
    if v <= x - 1.0 {
      ScaleLe(d, v, x - 1.0);
    }
  }

  /** The real-number core of ModBounds: with A = B·Q and f ≤ Q < f + 1,
      A − B·f lies between 0 and B, on the side of B. */
  lemma ModArithmetic(A: real, B: real, Q: real, f: real)
    requires B != 0.0 && B * Q == A && f <= Q < f + 1.0
    ensures B > 0.0 ==> 0.0 <= A - B * f < B
    ensures B < 0.0 ==> B < A - B * f <= 0.0
  {
    var F := Q - f;
    var R := A - B * f;
    assert R == B * F;
    if B > 0.0 {
      UnitBand(B, F, R);
    } else {
      Flip(B, F, R);
      UnitBand(-B, F, -R);
    }
  }

  /** A value r = a − b·k, for an integer k with k ≤ Q < k + 1 where Q is
      the exact quotient a/b, lies between 0 and b, on the side of b. */
  lemma FloorRemainder(r: Frac, a: Frac, b: Frac, k: int, Q: real)
    requires r.den > 0 && a.den > 0 && b.den > 0 && b.num != 0
    requires RealValue(b) * Q == RealValue(a) && k as real <= Q < k as real + 1.0
    requires RealValue(r) == RealValue(a) - RealValue(b) * (k as real)
    ensures b.num > 0 ==> 0.0 <= RealValue(r) < RealValue(b)
    ensures b.num < 0 ==> RealValue(b) < RealValue(r) <= 0.0
  {
    var A, B, K, R := RealValue(a), RealValue(b), k as real, RealValue(r);
    assert B > 0.0 <==> b.num > 0;
    ModArithmetic(A, B, Q, K);
    if B > 0.0 {
      assert 0.0 <= R;
      assert R < B;
    } else {
      assert B < R;
      assert R <= 0.0;
    }
  }

  /** a − b·k for an integer k with k ≤ Q < k + 1, where Q is the exact
      quotient a/b, lies between 0 and b, on the side of b. */
  lemma SubFloorMultiple(a: Frac, b: Frac, k: int, Q: real)
    requires a.den > 0 && b.den > 0 && b.num != 0
    requires RealValue(b) * Q == RealValue(a) && k as real <= Q < k as real + 1.0
    ensures HasNonzeroPart(MulRaw(b, Frac(k, 1)))
    ensures HasNonzeroPart(SubRaw(a, Mul(b, Frac(k, 1))))
    ensures var r := Sub(a, Mul(b, Frac(k, 1)));
            r.den > 0 &&
            (b.num > 0 ==> 0.0 <= RealValue(r) < RealValue(b)) &&
            (b.num < 0 ==> RealValue(b) < RealValue(r) <= 0.0)
  {
    SubMultiple(a, b, k);
    FloorRemainder(Sub(a, Mul(b, Frac(k, 1))), a, b, k, Q);
  }

  /** For finite a and nonzero finite b, mod(a, b) is finite and lies
      between 0 and b (0 included, b excluded), on the side of b. */
  lemma ModBounds(a: Frac, b: Frac)
    requires a.den > 0 && b.den > 0 && b.num != 0
    ensures HasNonzeroPart(DivRaw(a, b))
    ensures HasNonzeroPart(MulRaw(b, Frac(Floor(Div(a, b)), 1)))
    ensures HasNonzeroPart(SubRaw(a, Mul(b, Frac(Floor(Div(a, b)), 1))))
    ensures Mod(a, b).den > 0
    ensures b.num > 0 ==> 0.0 <= RealValue(Mod(a, b)) < RealValue(b)
    ensures b.num < 0 ==> RealValue(b) < RealValue(Mod(a, b)) <= 0.0
  {
    ExactQuotient(a, b);
    FlooredRemainder(a, b, Div(a, b));
  }

  /** a − b·floor(q) for the exact quotient q = a/b. */
  lemma FlooredRemainder(a: Frac, b: Frac, q: Frac)
    requires a.den > 0 && b.den > 0 && b.num != 0
    requires Reduced(q) && q.den > 0 && RealValue(b) * RealValue(q) == RealValue(a)
    ensures HasNonzeroPart(MulRaw(b, Frac(Floor(q), 1)))
    ensures HasNonzeroPart(SubRaw(a, Mul(b, Frac(Floor(q), 1))))
    ensures var r := Sub(a, Mul(b, Frac(Floor(q), 1)));
            r.den > 0 &&
            (b.num > 0 ==> 0.0 <= RealValue(r) < RealValue(b)) &&
            (b.num < 0 ==> RealValue(b) < RealValue(r) <= 0.0)
  {
    FloorBounds(q);
    FloorReal(q, Floor(q));
    SubFloorMultiple(a, b, Floor(q), RealValue(q));
  }

  lemma QuotientTimesDivisor(a: Frac, b: Frac, q: Frac)
    requires a.den > 0 && b.den > 0 && b.num != 0 && q.den > 0
    requires RealValue(q) == RealValue(a) / RealValue(b)
    ensures RealValue(b) * RealValue(q) == RealValue(a)
    ensures RealValue(b) > 0.0 <==> b.num > 0
  {
    assert RealValue(b) != 0.0;
  }

  /** The real-number core of RemBounds: with A = B·Q and T the truncation
      of Q toward zero, A − B·T has the sign of A and is below |B|. */
  lemma RemArithmetic(A: real, B: real, Q: real, T: real)
    requires B != 0.0 && B * Q == A
    requires (Q >= 0.0 && T <= Q < T + 1.0) || (Q < 0.0 && T - 1.0 < Q <= T)
    requires Q == 0.0 ==> T == 0.0
    ensures A >= 0.0 ==> 0.0 <= A - B * T
    ensures A < 0.0 ==> A - B * T <= 0.0
    ensures B > 0.0 ==> -B < A - B * T < B
    ensures B < 0.0 ==> B < A - B * T < -B
  {
    var F := Q - T;
    var R := A - B * T;
    assert R == B * F;
    if B > 0.0 {
      OpenBand(B, F, R);
    } else {
      Flip(B, F, R);
      OpenBand(-B, F, -R);
    }
    if Q > 0.0 {
      if B > 0.0 { SameSign(B, F, R); SameSign(B, Q, A); } else { OppositeSign(B, F, R); OppositeSign(B, Q, A); }
    } else if Q < 0.0 {
      if B > 0.0 { OppositeSign(B, F, R); OppositeSign(B, Q, A); } else { SameSign(B, F, R); SameSign(B, Q, A); }
    }
  }

  /** fix(q) is ⌊q⌋ for q ≥ 0 and ⌈q⌉ for q < 0. */
  lemma TruncationBounds(q: Frac)
    requires Reduced(q) && q.den > 0
    ensures var Q, T := RealValue(q), Fix(q) as real;
            ((Q >= 0.0 && T <= Q < T + 1.0) || (Q < 0.0 && T - 1.0 < Q <= T)) && (Q == 0.0 ==> T == 0.0)
  {
    if q.num > 0 {
      FloorBounds(q);
      FloorReal(q, Fix(q));
    } else if q.num == 0 {
      assert Fix(q) == 0;
    } else {
      CeilBounds(q);
      CeilReal(q, Fix(q));
    }
  }

  /** A value r = a − b·t, for the truncation t of the exact quotient
      Q = a/b, has the sign of a (or is zero) and is smaller than b in
      magnitude. */
  lemma TruncRemainder(r: Frac, a: Frac, b: Frac, t: int, Q: real)
    requires r.den > 0 && a.den > 0 && b.den > 0 && b.num != 0 && RealValue(b) * Q == RealValue(a)
    requires var T := t as real; (Q >= 0.0 && T <= Q < T + 1.0) || (Q < 0.0 && T - 1.0 < Q <= T)
    requires Q == 0.0 ==> t == 0
    requires RealValue(r) == RealValue(a) - RealValue(b) * (t as real)
    ensures a.num >= 0 ==> 0.0 <= RealValue(r)
    ensures a.num < 0 ==> RealValue(r) <= 0.0
    ensures b.num > 0 ==> -RealValue(b) < RealValue(r) < RealValue(b)
    ensures b.num < 0 ==> RealValue(b) < RealValue(r) < -RealValue(b)
  {
    var A, B, T, R := RealValue(a), RealValue(b), t as real, RealValue(r);
    assert B > 0.0 <==> b.num > 0;
    assert A >= 0.0 <==> a.num >= 0;
    RemArithmetic(A, B, Q, T);
    if A >= 0.0 { assert 0.0 <= R; } else { assert R <= 0.0; }
    if B > 0.0 {
      assert -B < R;
      assert R < B;
    } else {
      assert B < R;
      assert R < -B;
    }
  }

  /** The exact quotient a/b through the operator, for finite a and
      nonzero finite b: canonical, finite, and b times it is a. */
  lemma ExactQuotient(a: Frac, b: Frac)
    requires a.den > 0 && b.den > 0 && b.num != 0
    ensures HasNonzeroPart(DivRaw(a, b))
    ensures Reduced(Div(a, b)) && Div(a, b).den > 0
    ensures RealValue(b) * RealValue(Div(a, b)) == RealValue(a)
  {
    assert DivRaw(a, b).den == a.den * b.num;
    QuotientTimesDivisor(a, b, Div(a, b));
  }

  /** a − b·t, for the truncation t toward zero of the exact quotient
      Q = a/b: finite, with the sign of a (or zero), and smaller than b in
      magnitude. */
  lemma SubTruncMultiple(a: Frac, b: Frac, t: int, Q: real)
    requires a.den > 0 && b.den > 0 && b.num != 0 && RealValue(b) * Q == RealValue(a)
    requires var T := t as real; (Q >= 0.0 && T <= Q < T + 1.0) || (Q < 0.0 && T - 1.0 < Q <= T)
    requires Q == 0.0 ==> t == 0
    ensures HasNonzeroPart(MulRaw(b, Frac(t, 1)))
    ensures HasNonzeroPart(SubRaw(a, Mul(b, Frac(t, 1))))
    ensures var r := Sub(a, Mul(b, Frac(t, 1)));
            r.den > 0 &&
            (a.num >= 0 ==> 0.0 <= RealValue(r)) && (a.num < 0 ==> RealValue(r) <= 0.0) &&
            (b.num > 0 ==> -RealValue(b) < RealValue(r) < RealValue(b)) &&
            (b.num < 0 ==> RealValue(b) < RealValue(r) < -RealValue(b))
  {
    SubMultiple(a, b, t);
    TruncRemainder(Sub(a, Mul(b, Frac(t, 1))), a, b, t, Q);
  }

  /** a − b·fix(q) for the exact quotient q = a/b. */
  lemma TruncatedRemainder(a: Frac, b: Frac, q: Frac)
    requires a.den > 0 && b.den > 0 && b.num != 0
    requires Reduced(q) && q.den > 0 && RealValue(b) * RealValue(q) == RealValue(a)
    ensures HasNonzeroPart(MulRaw(b, Frac(Fix(q), 1)))
    ensures HasNonzeroPart(SubRaw(a, Mul(b, Frac(Fix(q), 1))))
    ensures var r := Sub(a, Mul(b, Frac(Fix(q), 1)));
            r.den > 0 &&
            (a.num >= 0 ==> 0.0 <= RealValue(r)) && (a.num < 0 ==> RealValue(r) <= 0.0) &&
            (b.num > 0 ==> -RealValue(b) < RealValue(r) < RealValue(b)) &&
            (b.num < 0 ==> RealValue(b) < RealValue(r) < -RealValue(b))
  {
    TruncationBounds(q);
    SubTruncMultiple(a, b, Fix(q), RealValue(q));
  }

  /** For finite a and nonzero finite b, rem(a, b) is finite, has the sign
      of a (or is zero), and is smaller than b in magnitude. */
  lemma RemBounds(a: Frac, b: Frac)
    requires a.den > 0 && b.den > 0 && b.num != 0
    ensures HasNonzeroPart(DivRaw(a, b))
    ensures HasNonzeroPart(MulRaw(b, Frac(Fix(Div(a, b)), 1)))
    ensures HasNonzeroPart(SubRaw(a, Mul(b, Frac(Fix(Div(a, b)), 1))))
    ensures var r := Rem(a, b);
            r.den > 0 &&
            (a.num >= 0 ==> 0.0 <= RealValue(r)) && (a.num < 0 ==> RealValue(r) <= 0.0) &&
            (b.num > 0 ==> -RealValue(b) < RealValue(r) < RealValue(b)) &&
            (b.num < 0 ==> RealValue(b) < RealValue(r) < -RealValue(b))
  {
    ExactQuotient(a, b);
    TruncatedRemainder(a, b, Div(a, b));
  }

  /** A pair's canonical form, identified by its properties. */
  lemma NormalizeIs(n: int, d: int, c: Frac)
    requires d != 0 && Reduced(c) && c.den > 0 && SameValue(c, Frac(n, d))
    ensures Normalize(n, d) == c
  {
    var r := Normalize(n, d);
    SameValueThrough(r, c, Frac(n, d));
    CanonicalUnique(r, c);
  }

  // ---------------------------------------------------------------------
  // Worked examples

  /** Construction reduces 6/4 to 3/2. */
  lemma ReductionExample()
    ensures Normalize(6, 4) == Frac(3, 2)
  {
    NormalizeIs(6, 4, Frac(3, 2));
  }

  /** 4/2 becomes the integer 2, printed "2". */
  lemma IntegerExample()
    ensures Normalize(4, 2) == Frac(2, 1) && ToString(Normalize(4, 2)) == "2"
  {
    FourHalves();
    TwoPrints();
  }

  lemma FourHalves()
    ensures Normalize(4, 2) == Frac(2, 1)
  {
    NormalizeIs(4, 2, Frac(2, 1));
  }

  lemma TwoPrints()
    ensures ToString(Frac(2, 1)) == "2"
  {
  }

  /** 1/3 + 1/6 is 1/2: the raw sum 9/18 is reduced. */
  lemma SumExample()
    ensures HasNonzeroPart(AddRaw(Frac(1, 3), Frac(1, 6)))
    ensures Add(Frac(1, 3), Frac(1, 6)) == Frac(1, 2)
  {
    NormalizeIs(9, 18, Frac(1, 2));
  }

  /** Both 5/0 and -5/0 become 1/0, printed "Inf": the sign is lost. */
  lemma InfinityExamples()
    ensures Normalize(5, 0) == Frac(1, 0) && Normalize(-5, 0) == Frac(1, 0)
    ensures ToString(Normalize(-5, 0)) == "Inf"
  {
  }

  /** 7/3 against 3 is already below 3, so mod and rem both give 7/3 back. */
  lemma ModRemPositiveExample()
    ensures Mod(Frac(7, 3), Frac(3, 1)) == Frac(7, 3)
    ensures Rem(Frac(7, 3), Frac(3, 1)) == Frac(7, 3)
  {
    PositiveQuotientExample();
    ModOfSmallDividend(Frac(7, 3), Frac(3, 1));
    RemOfSmallDividend(Frac(7, 3), Frac(3, 1));
  }

  /** 7/3 divided by 3 is 7/9, already canonical. */
  lemma PositiveQuotientExample()
    ensures HasNonzeroPart(DivRaw(Frac(7, 3), Frac(3, 1)))
    ensures Div(Frac(7, 3), Frac(3, 1)) == Frac(7, 9)
    ensures Floor(Frac(7, 9)) == 0 && Fix(Frac(7, 9)) == 0
  {
    NormalizeIs(7, 9, Frac(7, 9));
  }

  /** -7/3 divided by 3 is -7/9, already canonical. */
  lemma NegativeQuotientExample()
    ensures HasNonzeroPart(DivRaw(Frac(-7, 3), Frac(3, 1)))
    ensures Div(Frac(-7, 3), Frac(3, 1)) == Frac(-7, 9)
  {
    NormalizeIs(-7, 9, Frac(-7, 9));
  }

  /** -7/9 rounds down to -1 and truncates to 0. */
  lemma NegativeRoundingExample()
    ensures Floor(Frac(-7, 9)) == -1 && Fix(Frac(-7, 9)) == 0
  {
  }

  /** -7/3 against 3: the quotient is -7/9; mod rounds it down to -1 and
      gives -7/3 + 3 = 2/3. */
  lemma ModNegativeExample()
    ensures Mod(Frac(-7, 3), Frac(3, 1)) == Frac(2, 3)
  {
    NegativeQuotientExample();
    NegativeRoundingExample();
    ProductExample(3, -1);
    DifferenceExample(Frac(-7, 3), Frac(-3, 1), Frac(2, 3));
    ModFromParts(Frac(-7, 3), Frac(3, 1), Frac(-7, 9), Frac(-3, 1));
  }

  /** rem truncates the same quotient -7/9 to 0 and gives -7/3 back. */
  lemma RemNegativeExample()
    ensures Rem(Frac(-7, 3), Frac(3, 1)) == Frac(-7, 3)
  {
    NegativeQuotientExample();
    NegativeRoundingExample();
    RemOfSmallDividend(Frac(-7, 3), Frac(3, 1));
  }

  /** When the exact quotient truncates to 0 (a is smaller than b in
      magnitude), rem gives the canonical dividend back unchanged. */
  lemma RemOfSmallDividend(a: Frac, b: Frac)
    requires Reduced(a) && a.den > 0 && b.den > 0 && b.num != 0
    requires HasNonzeroPart(DivRaw(a, b)) && Fix(Div(a, b)) == 0
    ensures HasNonzeroPart(MulRaw(b, Frac(Fix(Div(a, b)), 1)))
    ensures HasNonzeroPart(SubRaw(a, Mul(b, Frac(Fix(Div(a, b)), 1))))
    ensures Rem(a, b) == a
  {
    NormalizeIs(0, b.den, Frac(0, 1));
    assert Mul(b, Frac(0, 1)) == Frac(0, 1);
    assert SubRaw(a, Frac(0, 1)) == a;
    NormalizeIs(a.num, a.den, a);
  }

  /** The same for mod when the exact quotient rounds down to 0. */
  lemma ModOfSmallDividend(a: Frac, b: Frac)
    requires Reduced(a) && a.den > 0 && b.den > 0 && b.num != 0
    requires HasNonzeroPart(DivRaw(a, b)) && Floor(Div(a, b)) == 0
    ensures HasNonzeroPart(MulRaw(b, Frac(Floor(Div(a, b)), 1)))
    ensures HasNonzeroPart(SubRaw(a, Mul(b, Frac(Floor(Div(a, b)), 1))))
    ensures Mod(a, b) == a
  {
    NormalizeIs(0, b.den, Frac(0, 1));
    assert Mul(b, Frac(0, 1)) == Frac(0, 1);
    assert SubRaw(a, Frac(0, 1)) == a;
    NormalizeIs(a.num, a.den, a);
  }

  /** mod(a, b) assembled from its quotient q and product m. */
  lemma ModFromParts(a: Frac, b: Frac, q: Frac, m: Frac)
    requires HasNonzeroPart(DivRaw(a, b)) && Div(a, b) == q
    requires HasNonzeroPart(MulRaw(b, Frac(Floor(q), 1))) && Mul(b, Frac(Floor(q), 1)) == m
    requires HasNonzeroPart(SubRaw(a, m))
    ensures Mod(a, b) == Sub(a, m)
  {
  }

  /** The product of two integers over 1. */
  lemma ProductExample(x: int, y: int)
    ensures HasNonzeroPart(MulRaw(Frac(x, 1), Frac(y, 1)))
    ensures Mul(Frac(x, 1), Frac(y, 1)) == Frac(x * y, 1)
  {
    NormalizeIs(x * y, 1, Frac(x * y, 1));
  }

  /** A difference whose raw pair is already the canonical c. */
  lemma DifferenceExample(a: Frac, b: Frac, c: Frac)
    requires Reduced(c) && c.den > 0 && SubRaw(a, b) == c
    ensures HasNonzeroPart(SubRaw(a, b)) && Sub(a, b) == c
  {
    NormalizeIs(c.num, c.den, c);
  }
}
