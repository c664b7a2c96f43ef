# Rational numbers over an integer type, three ways

The repository implements one component three times: an exact rational
number stored as a numerator and a denominator. The three headers are:

- `rational.h` (`Number::Rational<T>`);
- `Rational_template.h` (`Number_template::Rational<T>`, with a
  `Rational<mpz_class>` specialisation);
- `Rational_GMP.h` (`Number_GMP::Rational` over `mpz_class`).

Each header has the same parts:

- a normaliser (`initialize`, and `adjust` where present) that divides both
  fields by a gcd and moves the sign onto the numerator;
- a gcd routine;
- the sentinel predicates (`isNaN`, `isInf`, `isInt`);
- compound assignments that re-normalise in place;
- binary operators, negation and reciprocal;
- cross-multiplication comparisons;
- `floor`, `ceil`, `fix`, `mod` and `rem`;
- `to_string`.

This Dafny project models all three. The integer type is Dafny's unbounded
`int`. C++ `/` and `%` truncate toward zero, and that is written out as
`Arith.TDiv` and `Arith.TMod`.

The files are:

- `arith.dfy` (module `Arith`) holds the integer parts:
  - truncating division;
  - a reference gcd on naturals;
  - Euclid's loop over the signed truncating remainder (`EuclidGcd`, the gcd of
    `rational.h` and of the `mpz_class` specialisation);
  - the brute-force downward scan (`ScanGcd`, the gcd of the generic template
    and of `Rational_GMP.h`).

  Each loop is proved against a reference function.
- `fractions.dfy` (module `Fractions`) holds what all three variants share:
  - the pair `Frac(num, den)` and its sentinel predicates;
  - the raw fraction formulas the operators hand to the normaliser;
  - `adjust`;
  - the comparison expression and the relational operators. All three headers
    write the same expression, `a.num*b.den - b.num*a.num`;
  - `to_string`.
- `number.dfy` (module `Number`) models `rational.h`:
  - `Normalize` is what `initialize` stores;
  - the class `Rational` has its constructors, `initialize` and the compound
    assignments;
  - the binary operators copy the left operand and apply a compound assignment;
  - field-by-field `equal`;
  - `floor`/`ceil`/`fix`, `abs`, `mod` and `rem`.
- `number_template.dfy` (module `NumberTemplate`) models `Rational_template.h`:
  - two normalisers: `NormalizeScan` for the generic class and `NormalizeEuclid`
    for the `mpz_class` specialisation;
  - the two classes `Rational` and `RationalMpz`;
  - the free operators, parametrised by the gcd routine (`Scan` or `Euclid`),
    because each of them hands a raw pair to the constructor;
  - the template `floor`/`ceil`/`fix`, `abs`, `mod` and `rem`.
- `number_gmp.dfy` (module `NumberGmp`) models `Rational_GMP.h`:
  - its class;
  - its `floor`, `ceil`, `fix`, `mod` and `rem`.

  The free arithmetic operators of `Rational_GMP.h` (lines 96-118) are the same
  expressions as the generic template's, and so are its relational operators
  (lines 120-142) and `to_string` (lines 190-202). They are modelled by the same
  members: `NumberTemplate.Add`, `Sub`, `Mul`, `Div`, `Negate` and `Invert` with
  `Scan`; `Fractions.Greater` and the other comparisons; `Fractions.ToString`.

The main results are:

- Every normaliser keeps the value.
  - `rational.h` and the `mpz_class` variant always yield the canonical form
    (reduced, denominator ≥ 0, n/0 becoming 1/0), and the two are proved equal.
  - The scanning normaliser yields the canonical form whenever max(num, den) ≥ 1.
- On finite operands the template's `+`, `-`, `*`, unary `-`, `~` and `abs`
  agree with `rational.h`'s, and so do `mod` and `rem` when the divisor is
  nonzero. With a zero divisor the generic `mod(0, 0)` and `rem(0, 0)` are
  0/1, since the quotient 0/0 rounds to 0 (`NumberTemplate.ModByZeroExample`),
  while `rational.h` divides by a gcd of 0 there. `/` agrees except in the generic
  variant when neither numerator is positive: there the scan can leave an
  unreduced pair, such as 4/2 for (−1/2)/(−1/4) (see Findings), and a zero
  divisor gives −1/0 for (−1)/0 and 0/0 for 0/0. So `mod` and
  `rem` in every variant inherit the proved bounds:
  - `mod` lies on the divisor's side, below it in magnitude;
  - `rem` has the dividend's sign and lies strictly within the divisor's magnitude.
- The template's `floor`/`ceil` formula is the mathematical floor/ceiling for
  every positive denominator. `rational.h`'s formula is proved so for canonical
  values, and the two agree there.

Behaviour of the code worth knowing, as the model records it:

- `mod(7/3, 3)` and `rem(7/3, 3)` are both 7/3, because the quotient 7/9
  rounds and truncates to 0 (`Number.ModRemPositiveExample`,
  `NumberTemplate.ModRemExample`).
- `mod(−7/3, 3)` is 2/3 and `rem(−7/3, 3)` is −7/3 (`Number.ModNegativeExample`,
  `Number.RemNegativeExample`).
- `rational.h` divides by gcd(0, 0) = 0 for 0/0, so the model makes that a
  precondition. `rational.h` turns every n/0 into 1/0, so infinity loses its
  sign.
- The gcd routines are a signed Euclid loop and a downward scan from
  max(num, den), and the comparisons use `a.num` where `a.den` belongs. The
  model keeps both as written (see Findings).
- The template and GMP default constructors give 1/1, while `rational.h`'s
  gives 0/1.

## Model

| member | source | states |
|---|---|---|
| Arith.EuclidGcd | rational.h:82-88 | the loop terminates and returns the signed Euclidean gcd: a common divisor of both inputs whose magnitude is the mathematical gcd of the magnitudes, and gcd(x, 0) = x |
| Arith.TruncEuclidMagnitude | Rational_template.h:179-185 | the `mpz_class` gcd loop's result has the mathematical gcd of the magnitudes as its magnitude |
| Arith.ScanGcd | Rational_template.h:91-98 | the downward scan returns a value ≥ 1 that divides both inputs: the gcd of the magnitudes when max(a, b) ≥ 1, and the fallback 1 otherwise |
| Arith.ScanHitIsGcd | Rational_GMP.h:79-86 | the first candidate of the scan that divides both arguments is their gcd |
| Arith.ScanRangeHoldsGcd | Rational_GMP.h:81 | when max(a, b) ≥ 1, the gcd lies inside the scanned range and passes both `%` tests, so the scan never reaches its fallback |
| Fractions.IsFinite | rational.h:60-65 | a pair is neither NaN nor Inf exactly when its denominator is positive |
| Fractions.Frac.IsNaN | rational.h:60-62 | `isNaN`: 0/0 or a negative denominator; Fractions.SentinelCases shows it excludes Inf and finiteness |
| Fractions.Frac.IsInf | rational.h:63-65 | `isInf`: a nonzero numerator over 0; with NaN and finiteness it covers every pair (Fractions.SentinelCases) |
| Fractions.Frac.IsInt | rational.h:66-68 | `isInt`: denominator 1, which makes the pair finite (Fractions.SentinelCases) |
| Fractions.Frac.IsPositive | rational.h:69-71 | `isPositive`: numerator > 0; one of the three sign cases of Fractions.SentinelCases |
| Fractions.Frac.IsZero | rational.h:72-74 | `isZero`: numerator 0, exactly when neither positive nor negative (Fractions.SentinelCases) |
| Fractions.Frac.IsNegative | rational.h:75-77 | `isNegative`: numerator < 0, never together with positive (Fractions.SentinelCases) |
| Fractions.SentinelCases | rational.h:60-77 | every pair is exactly one of NaN, Inf and finite; an integer is finite; zero, positive and negative are exclusive and cover every pair |
| Fractions.Adjusted | Rational_template.h:36-50 | `adjust` leaves the denominator's magnitude, keeps the numerator's magnitude, keeps the value, and keeps the sign of num·den |
| Fractions.Adjust | Rational_GMP.h:24-38 | the in-place sign fix-up computes exactly `Adjusted` of its two reference parameters |
| Fractions.AdjustedFlip | Rational_template.h:124-138 | over a nonzero denominator, `adjust` flips both signs when the denominator is negative and changes nothing otherwise |
| Fractions.AddRawValue | Rational_template.h:195-198 | the raw sum pair of two finite values has the exact sum as its value |
| Fractions.SubRawValue | Rational_template.h:199-202 | the raw difference pair has the exact difference as its value |
| Fractions.MulRawValue | Rational_template.h:204-207 | the raw product pair has the exact product as its value |
| Fractions.DivRawValue | Rational_template.h:209-212 | the raw quotient pair, by a nonzero finite divisor, has the exact quotient as its value |
| Fractions.Compare | rational.h:162-165 | `compare` as written equals a.num·(b.den − b.num): it ignores a's denominator |
| Fractions.Greater | rational.h:167-170 | `>` as written holds exactly when a.num > 0 and b.den > b.num, or a.num < 0 and b.den < b.num; a.den plays no part |
| Fractions.GreaterOrEqual | Rational_template.h:229-232 | `>=` is the exact complement of `<` |
| Fractions.Less | rational.h:177-180 | `<` as written holds exactly when a.num > 0 and b.den < b.num, or a.num < 0 and b.den > b.num |
| Fractions.LessOrEqual | Rational_GMP.h:140-142 | `<=` is the exact complement of `>` |
| Fractions.CrossEqual | Rational_template.h:234-237 | `==` as written holds exactly when the shared expression is zero, i.e. when a.num = 0 or b.den = b.num |
| Fractions.CrossNotEqual | Rational_GMP.h:132-134 | `!=` is the exact complement of `==` |
| Fractions.CompareMisorders | rational.h:163-165 | the ordering as written ranks 1/3 above 1/2 and 1/2 above itself, against the real values |
| Fractions.CrossEqualMisjudges | Rational_GMP.h:128-130 | `==` as written finds 1/2 unequal to itself and equal to 1/1 |
| Fractions.CrossCompareIsOrder | Rational_template.h:224-227 | the intended cross-multiplication a.num·b.den − b.num·a.den has the sign of the difference of the real values, for positive denominators |
| Fractions.SameValueIsValueEquality | Rational_template.h:235-236 | intended cross-multiplied equality is equality of real values and is reflexive |
| Fractions.IntToString | Rational_GMP.h:186-188 | the decimal text of an integer is nonempty; every character after the first is a digit, and the first is a minus sign exactly for negatives (followed by at least one digit) and a digit otherwise |
| Fractions.ToString | rational.h:204-216 | `to_string` tests `isInt` first (integer text), then Inf ("Inf"), then NaN ("NaN"), and otherwise gives "num/den"; a slash appears exactly in the last case |
| Number.DivideByTruncEuclid | rational.h:21-23 | for a pair not 0/0, the signed Euclidean gcd is nonzero and the quotients are coprime, keep the value, and are 1/0 over a zero denominator |
| Number.Normalize | rational.h:20-29 | `initialize` (requires not 0/0) stores a reduced pair with denominator ≥ 0 and the same value; n/0 becomes 1/0 whatever the sign |
| Number.NormalizeIdempotent | rational.h:18 | constructing from a canonical pair gives it back |
| Number.Zero | rational.h:16 | the default value is canonical zero 0/1 |
| Number.FromInt | rational.h:17 | the single-integer constructor gives n/1 |
| Number.Rational.Default | rational.h:16 | the default constructor stores 0/1 |
| Number.Rational.FromInteger | rational.h:17 | the single-integer constructor stores n/1 |
| Number.Rational.constructor | rational.h:18 | the pair constructor stores the normalised pair |
| Number.Rational.Copy | rational.h:145 | the copy made by a binary operator has the operand's fields |
| Number.Rational.Initialize | rational.h:20-29 | the in-place normaliser leaves exactly `Normalize(num, den)` in the two fields |
| Number.Rational.AddAssign | rational.h:37-39 | `+=` replaces both fields with the normalised raw sum |
| Number.Rational.SubAssign | rational.h:41-43 | `-=` replaces both fields with the normalised raw difference |
| Number.Rational.MulAssign | rational.h:45-47 | `*=` replaces both fields with the normalised raw product |
| Number.Rational.DivAssign | rational.h:49-51 | `/=` replaces both fields with the normalised raw quotient |
| Number.Add | rational.h:143-146 | the sum is reduced and, for finite operands, finite with the exact real sum |
| Number.Sub | rational.h:147-150 | the difference is reduced and, for finite operands, exact |
| Number.Mul | rational.h:152-155 | the product is reduced and, for finite operands, exact |
| Number.Div | rational.h:157-160 | the quotient is reduced, exact for a finite nonzero divisor, and 1/0 for a zero divisor |
| Number.Plus | rational.h:144-145 | `a + b` returns a fresh object holding the sum and leaves both operands unchanged |
| Number.Minus | rational.h:148-149 | `a - b` returns a fresh difference and leaves both operands unchanged |
| Number.Times | rational.h:153-154 | `a * b` returns a fresh product and leaves both operands unchanged |
| Number.Over | rational.h:158-159 | `a / b` returns a fresh quotient and leaves both operands unchanged |
| Number.Neg | rational.h:53-55 | negation is reduced, is (−n, d) on canonical finite values, and turns both infinities into 1/0 |
| Number.Recip | rational.h:56-58 | the reciprocal is reduced, has value 1/x for finite nonzero x, and is 1/0 for zero |
| Number.AddNegIsZero | rational.h:37-39 | a + (−a) is canonical zero for every canonical finite a |
| Number.MulRecipIsOne | rational.h:45-47 | a · ~a is 1/1 for every canonical finite nonzero a |
| Number.Equal | rational.h:107-110 | `equal` holds exactly for identical fields, which on canonical finite values is equality of real values |
| Number.NotEqual | rational.h:103-105 | `!=` is the exact complement of `==` |
| Number.CanonicalEquality | rational.h:100-102 | on canonical values, `==` holds exactly when the values are the same |
| Number.CanonicalUnique | rational.h:108-109 | two canonical finite pairs with the same value are the same pair |
| Number.AbsValue | rational.h:187-192 | `abs` is reduced and, on canonical input, is (abs(n), d) |
| Number.RoundingSentinels | rational.h:112-118 | floor, ceil and fix give the integer maximum for Inf and 0 for NaN and for zero |
| Number.FloorBounds | rational.h:112-123 | on canonical finite values floor·den ≤ num < (floor+1)·den |
| Number.CeilBounds | rational.h:125-136 | on canonical finite values (ceil−1)·den < num ≤ ceil·den |
| Number.FixTruncates | rational.h:138-140 | fix is the quotient truncated toward zero, with the numerator's sign |
| Number.RoundingExamples | rational.h:112-140 | 7/3 rounds to 2, 3, 2 and −7/3 to −3, −2, −2 |
| Number.Floor | rational.h:112-123 | `floor()`: its sentinels are stated by Number.RoundingSentinels and its bounds by Number.FloorBounds |
| Number.Ceil | rational.h:125-136 | `ceil()`: sentinels by Number.RoundingSentinels, bounds by Number.CeilBounds |
| Number.Fix | rational.h:138-140 | `fix()`: floor for a positive value and ceil otherwise, the truncated quotient by Number.FixTruncates |
| Number.Mod | rational.h:194-197 | `mod`: a − b·floor(a/b) through the normalising operators; bounds by Number.ModBounds |
| Number.Rem | rational.h:199-202 | `rem`: a − b·fix(a/b); sign and bounds by Number.RemBounds |
| Number.SubMultiple | rational.h:196 | a − b·k through the normalising operators has the real value a − b·k |
| Number.ModBounds | rational.h:194-197 | for finite a and nonzero finite b, mod is defined and finite, in [0, b) for b > 0 and in (b, 0] for b < 0 |
| Number.RemBounds | rational.h:199-202 | rem is defined and finite, has the dividend's sign and lies strictly between −abs(b) and abs(b) |
| Number.ModOfSmallDividend | rational.h:194-197 | when the exact quotient a/b rounds down to 0, mod gives the canonical dividend back unchanged |
| Number.RemOfSmallDividend | rational.h:199-202 | when the exact quotient a/b truncates to 0, rem gives the canonical dividend back unchanged |
| Number.ReductionExample | rational.h:20-27 | construction reduces 6/4 to 3/2 |
| Number.IntegerExample | rational.h:20-27 | 4/2 becomes the integer 2 and prints "2" |
| Number.SumExample | rational.h:143-146 | 1/3 + 1/6 is 1/2: the raw sum 9/18 is reduced |
| Number.InfinityExamples | rational.h:21-23 | 5/0 and −5/0 both become 1/0 and print "Inf" |
| Number.ModRemPositiveExample | rational.h:195-201 | mod and rem of 7/3 by 3 are both 7/3 |
| Number.ModNegativeExample | rational.h:194-197 | mod of −7/3 by 3 is 2/3: the quotient −7/9 is rounded down to −1 |
| Number.RemNegativeExample | rational.h:199-202 | rem of −7/3 by 3 is −7/3: the quotient −7/9 is truncated to 0 |
| NumberTemplate.NormalizeScan | Rational_template.h:29-34 | the generic normaliser never divides by zero and keeps the value with denominator ≥ 0; it reduces when max(num, den) ≥ 1 and only adjusts otherwise, so 0/0 stays 0/0 |
| NumberTemplate.ScanQuotients | Rational_template.h:30-32 | the scanned gcd is ≥ 1 and the quotients keep the value, coprime when the scan starts at 1 or above |
| NumberTemplate.NormalizeEuclid | Rational_template.h:117-122 | the `mpz_class` normaliser equals rational.h's: reduced, same value, n/0 becomes 1/0 |
| NumberTemplate.EuclidMatchesFlip | Rational_template.h:121 | `adjust` after Euclid's quotients equals rational.h's flip of both signs |
| NumberTemplate.ScanAgreesWithEuclid | Rational_template.h:93 | wherever the scan starts at 1 or above, the two normalisers give the same pair |
| NumberTemplate.NormalizeScanMagnitudes | Rational_template.h:91-97 | a scan started at the larger magnitude reduces every pair but 0/0 and equals rational.h's normaliser over a nonzero denominator |
| NumberTemplate.Make | Rational_template.h:25 | the pair constructor keeps the value with denominator ≥ 0 and gives the canonical form in the `mpz_class` variant or when max(num, den) ≥ 1 |
| NumberTemplate.Rational.Default | Rational_template.h:26 | the generic default constructor stores 1/1 |
| NumberTemplate.Rational.FromInteger | Rational_template.h:27 | the generic single-integer constructor stores (n, 1) unnormalised |
| NumberTemplate.Rational.constructor | Rational_template.h:25 | the pair constructor stores the scanned normal form |
| NumberTemplate.Rational.Initialize | Rational_template.h:29-34 | scan gcd, truncating divisions and `adjust` leave exactly `Make(Scan, num, den)` |
| NumberTemplate.Rational.AddAssign | Rational_template.h:58-61 | `+=` stores the template sum of the old values |
| NumberTemplate.Rational.SubAssign | Rational_template.h:63-66 | `-=` stores the template difference of the old values |
| NumberTemplate.Rational.MulAssign | Rational_template.h:68-71 | `*=` stores the template product of the old values |
| NumberTemplate.Rational.DivAssign | Rational_template.h:73-76 | `/=` stores the template quotient of the old values |
| NumberTemplate.RationalMpz.Default | Rational_template.h:114 | the `mpz_class` default constructor stores 1/1 |
| NumberTemplate.RationalMpz.FromInteger | Rational_template.h:115 | the `mpz_class` single-integer constructor stores (n, 1) |
| NumberTemplate.RationalMpz.constructor | Rational_template.h:113 | the pair constructor, not for 0/0, stores the canonical form |
| NumberTemplate.RationalMpz.Initialize | Rational_template.h:117-122 | Euclid's gcd, truncating divisions and `adjust` leave exactly `Make(Euclid, num, den)` |
| NumberTemplate.RationalMpz.AddAssign | Rational_template.h:146-149 | `+=` stores the canonical sum |
| NumberTemplate.RationalMpz.SubAssign | Rational_template.h:151-154 | `-=` stores the canonical difference |
| NumberTemplate.RationalMpz.MulAssign | Rational_template.h:156-159 | `*=` stores the canonical product |
| NumberTemplate.RationalMpz.DivAssign | Rational_template.h:161-164 | `/=` stores the canonical quotient |
| NumberTemplate.Add | Rational_template.h:196-197 | `a + b` keeps the value of the raw sum and, for finite operands or Euclid's gcd, is rational.h's reduced exact sum |
| NumberTemplate.Sub | Rational_template.h:200-201 | `a - b` likewise for the difference |
| NumberTemplate.Mul | Rational_template.h:205-206 | `a * b` likewise for the product |
| NumberTemplate.Div | Rational_template.h:210-211 | `a / b` keeps the raw quotient's value, is exact for finite operands and a nonzero divisor, and is rational.h's quotient always in the `mpz_class` variant and, for finite operands, in the generic one when some numerator is positive; when both numerators are ≤ 0 (a zero divisor included) the generic scan leaves the adjusted raw pair, so (−1)/0 stays −1/0 and 0/0 is stored |
| NumberTemplate.DivSigns | Rational_template.h:211 | over finite operands, the raw quotient's scan starts at 1 or above exactly when some numerator is positive, and below 1 when both are ≤ 0, a zero divisor included |
| NumberTemplate.DivideByZeroExample | Rational_template.h:210-211 | the generic variant gives −1/0 for (−1)/0, where rational.h gives 1/0, and stores 0/0 for 0/0, which rational.h forbids |
| NumberTemplate.Negate | Rational_template.h:214-217 | unary `-` keeps the value (−n)/d, is rational.h's on finite values, gives −n/0 for a nonnegative infinity in the generic variant and 1/0 for a negative one |
| NumberTemplate.Invert | Rational_template.h:219-222 | `~` keeps the value d/n and is rational.h's reciprocal on finite values |
| NumberTemplate.AbsValue | Rational_template.h:254-257 | the generic `abs` has the value abs(n)/d and is rational.h's `abs` on finite values |
| NumberTemplate.NegateInfinity | Rational_template.h:215-216 | in the generic variant −(1/0) is −1/0, in the `mpz_class` variant 1/0 |
| NumberTemplate.DivideNegativesUnreduced | Rational_template.h:209-212 | the generic variant leaves (−1/2)/(−1/4) as the unreduced 4/2; the `mpz_class` variant and the magnitude scan give 2/1 |
| NumberTemplate.RoundingSentinels | Rational_template.h:264-269 | floor, ceil and fix give the integer maximum for Inf and 0 for NaN |
| NumberTemplate.FloorBounds | Rational_template.h:264-272 | for every positive denominator, reduced or not, floor·den ≤ num < (floor+1)·den |
| NumberTemplate.CeilBounds | Rational_template.h:274-282 | for every positive denominator, (ceil−1)·den < num ≤ ceil·den |
| NumberTemplate.FixTruncates | Rational_template.h:284-290 | fix is C++ truncating `/` of the two parts |
| NumberTemplate.Floor | Rational_template.h:264-272 | the template `floor`: sentinels by NumberTemplate.RoundingSentinels, bounds by NumberTemplate.FloorBounds |
| NumberTemplate.Ceil | Rational_template.h:274-282 | the template `ceil`: sentinels by NumberTemplate.RoundingSentinels, bounds by NumberTemplate.CeilBounds |
| NumberTemplate.Fix | Rational_template.h:284-290 | the template `fix`: truncating `/` of the parts by NumberTemplate.FixTruncates |
| NumberTemplate.Mod | Rational_template.h:292-295 | the template `mod` in either variant: equal to rational.h's by NumberTemplate.ModAgrees, bounded by NumberTemplate.ModRemBounds |
| NumberTemplate.Rem | Rational_template.h:297-300 | the template `rem` in either variant: equal to rational.h's by NumberTemplate.RemAgrees, bounded by NumberTemplate.ModRemBounds |
| NumberTemplate.TruncatedParts | Rational_template.h:271 | n = (n/d)·d + n%d with abs(n%d) < d and the remainder carrying the dividend's sign |
| NumberTemplate.RoundingAgrees | Rational_template.h:264-290 | on canonical values the template's floor, ceil and fix equal rational.h's |
| NumberTemplate.RoundingByValue | Rational_template.h:270-271 | floor, ceil and fix of finite pairs depend only on the value |
| NumberTemplate.QuotientRoundsAlike | Rational_template.h:294 | the quotient a/b of finite operands is finite and rounds as rational.h's canonical quotient, in both variants |
| NumberTemplate.SubMultipleAlike | Rational_template.h:299 | a − b·k through the template operators equals rational.h's for finite operands |
| NumberTemplate.ModAgrees | Rational_template.h:292-295 | on finite operands with a nonzero divisor, `mod` is defined and equals rational.h's in both variants |
| NumberTemplate.RemAgrees | Rational_template.h:297-300 | on finite operands with a nonzero divisor, `rem` is defined and equals rational.h's in both variants |
| NumberTemplate.ModRemBounds | Rational_template.h:292-300 | mod lies in [0, b) or (b, 0] by the divisor's sign; rem has the dividend's sign and lies strictly within ±abs(b) |
| NumberTemplate.ModRemExample | Rational_template.h:293-299 | mod and rem of 7/3 by 3 are 7/3 in both variants |
| NumberTemplate.ModByZeroExample | Rational_template.h:292-300 | in the generic variant 0 mod 0 and 0 rem 0 are 0/1, because the stored quotient 0/0 rounds to 0; rational.h has no such quotient |
| NumberGmp.Rational.Default | Rational_GMP.h:14 | the default constructor stores 1/1 |
| NumberGmp.Rational.FromInteger | Rational_GMP.h:15 | the single-integer constructor stores (n, 1) |
| NumberGmp.Rational.constructor | Rational_GMP.h:13 | the pair constructor stores the scanned normal form |
| NumberGmp.Rational.Initialize | Rational_GMP.h:17-22 | `initialize` then `adjust` leaves denominator ≥ 0 and the value num/den, and never divides by zero |
| NumberGmp.Rational.AddAssign | Rational_GMP.h:46-49 | `+=` stores the scanned sum of the old values |
| NumberGmp.Rational.SubAssign | Rational_GMP.h:51-54 | `-=` stores the scanned difference |
| NumberGmp.Rational.MulAssign | Rational_GMP.h:56-59 | `*=` stores the scanned product |
| NumberGmp.Rational.DivAssign | Rational_GMP.h:61-64 | `/=` stores the scanned quotient |
| NumberGmp.RoundingSentinels | Rational_GMP.h:149-171 | floor, ceil and fix return the integer maximum for Inf and 0 for NaN before any other computation |
| NumberGmp.DivisionBounds | Rational_GMP.h:158 | the floor and ceiling of n/d, used in place of the floating-point ones, satisfy the floor and ceiling bounds |
| NumberGmp.RoundingMatchesTemplate | Rational_GMP.h:172-177 | floor, ceil and fix equal the template's on every input |
| NumberGmp.Floor | Rational_GMP.h:149-159 | GMP `floor`: sentinels by NumberGmp.RoundingSentinels, equal to the template's by NumberGmp.RoundingMatchesTemplate |
| NumberGmp.Ceil | Rational_GMP.h:160-171 | GMP `ceil`: sentinels by NumberGmp.RoundingSentinels, equal to the template's by NumberGmp.RoundingMatchesTemplate |
| NumberGmp.Fix | Rational_GMP.h:172-177 | GMP `fix`: equal to the template's by NumberGmp.RoundingMatchesTemplate |
| NumberGmp.Mod | Rational_GMP.h:179-181 | GMP `mod`: the generic template's by NumberGmp.ModRemBounds, on the divisor's side |
| NumberGmp.Rem | Rational_GMP.h:182-184 | GMP `rem`: the generic template's by NumberGmp.ModRemBounds, with the dividend's sign |
| NumberGmp.ModRemBounds | Rational_GMP.h:179-184 | mod and rem are the generic template's, so mod takes the divisor's side and rem the dividend's sign |

## Left out

- `abs` for `Rational<mpz_class>` (Rational_template.h:259-262) and `abs` in
  Rational_GMP.h:144-146 call themselves with the same argument and never return.
  They have no terminating model.
- The non-sentinel branches of floor and ceil in Rational_GMP.h (lines 158 and
  169) divide in `mpf_class` floating point. `NumberGmp.Floor` and
  `NumberGmp.Ceil` use the exact integer floor and ceiling instead. Rounding
  errors of a finite-precision float are not modelled.
- `std::numeric_limits<T>::max()`, which floor and ceil return for Inf, is the
  abstract constant `Fractions.IntMax`. Its value depends on the integer type.
- `std::to_string` and `mpz_class::get_str` are library calls. They are modelled
  by a decimal rendering, `Fractions.IntToString`.
- The integer type is unbounded. Overflow or wrap-around of a built-in `T` in
  the cross products is not modelled.
- `mod` and `rem` multiply a `Rational` by the integer that floor or fix
  returns. The model converts that integer to k/1, as the single-integer
  constructor does. The templated `operator*` of rational.h and
  Rational_template.h would not deduce its argument from a plain integer.
- `operator=`, `getnum`/`getden`, the friend wrappers that forward `floor`,
  `ceil` and `fix`, and template, namespace and `#include` mechanics carry no
  behaviour of their own. `isPositive`, `isZero` and `isNegative` exist only in
  rational.h and are the predicates of `Fractions.Frac`.
- Number.ModBounds: does not repeat the identity mod(a, b) = a − b·floor(a/b)
  on real values. That identity is stated for every integer multiple by
  `Number.SubMultiple`.

## Findings

| source | as written | input that shows it | evidently intended | confidence | as-written member | corrected member |
|---|---|---|---|---|---|---|
| rational.h:163-165 | `compare` and every relational operator of the three headers use a.num·b.den − b.num·a.num | a = 1/3, b = 1/2: 1·2 − 1·1 = 1 > 0, so 1/3 > 1/2 holds; also 1/2 > 1/2 holds | a.num·b.den − b.num·a.den | not executed | Fractions.CompareMisorders | Fractions.CrossCompareIsOrder |
| Rational_template.h:235-237 | `==` in Rational_template.h and Rational_GMP.h compares a.num·b.den with b.num·a.num | a = b = 1/2: 1·2 ≠ 1·1, so 1/2 == 1/2 is false; 1/2 == 1/1 is true | a.num·b.den == b.num·a.den | not executed | Fractions.CrossEqualMisjudges | Fractions.SameValueIsValueEquality |
| Rational_template.h:93 | the scanning gcd starts at max(a, b) and falls back to 1 when both are ≤ 0 | (−1/2) / (−1/4) builds (−4, −2); the scan returns 1 and `adjust` stores 4/2, not reduced | start the scan at max(abs(a), abs(b)) | not executed | NumberTemplate.DivideNegativesUnreduced | NumberTemplate.NormalizeScanMagnitudes |
