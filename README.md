# Rational points on y² = x³ + ax + b over F_49, in Dafny

This project models the algebra of a small Rust program. The program lists
the points of an elliptic curve y² = x³ + ax + b over the field with 49
elements and adds two of them. The field is built as F_7[i]/(i² + 1). The
program has three parts, and the model has one module per part:

- `Complexification` (`complexification.dfy`) covers `Complex<ModInt<7>>`,
  an element re + im·i of F_49.
  - Addition, subtraction and negation work component-wise.
  - Multiplication uses (a + bi)(c + di) = (ac − bd) + (bc + ad)i.
  - `ComplexCell` is the class for the compound assignments `+=`, `-=` and
    `*=`, which overwrite `*self`.
  - `ModPow` is the `modpow` loop, statement for statement.
  - `Inverse` is `inverse`, defined as `modpow(P·P − 2)`.
- `RationalPoints` (`rational_point.dfy`) covers `RationalPoint`, which is
  either an affine `Point(x, y)` or the point at infinity `O`. It holds
  chord-and-tangent addition (`add_rational_points` and the `+` operator)
  and negation.
- `Solver` (`solver.dfy`) covers the two loops of `main.rs`: the primality
  test `is_prime` (a `for` loop with early `return` and `break`) and
  `solve_equation` (four nested loops that insert into a set). It also
  holds the curve instance that `main` builds.

These modules rest on two supporting ones:

- `ModInt` (`modint.dfy`) is the base ring: canonical residues modulo
  P = 7, with each operation reduced at once. The Rust module `modint` is
  not part of this model.
- `Polynomials` (`polynomial.dfy`) represents a polynomial as its list of
  coefficients, constant term first. The Rust module `polynomial` is not part
  of this model. `solve_equation` takes the evaluation function as a
  parameter. The curve instance uses `Evaluate(c, x) = Σ cᵢ·xⁱ`.

`Pow` is repeated multiplication. It is the reference meaning of a power,
and `ModPowFixed` is proved equal to it.

The doc comment at src/complexification.rs:130 calls `modpow`
exponentiation by repeated squaring. The code is
not that: in two places the loop body reads a variable it has just
overwritten. This model follows the code and records the difference under
"## Findings". Where the source's `unwrap` would panic, the
model has the precondition `Addable`, whose contract says exactly when that
precondition holds.

## Model

| member | source | states |
|---|---|---|
| Complexification.Add | src/complexification.rs:42-50 | The component-wise sum: subtracting y from each component of the result gives back x. |
| Complexification.AddCommutative | src/complexification.rs:42-50 | Component-wise addition is commutative. |
| Complexification.AddAssociative | src/complexification.rs:42-50 | Component-wise addition is associative. |
| Complexification.ComplexCell.AddAssign | src/complexification.rs:52-59 | `*self += other` leaves exactly `old *self + other`. |
| Complexification.Sub | src/complexification.rs:61-69 | The component-wise difference: adding y back to each component of the result gives x. |
| Complexification.SubUndoesAdd | src/complexification.rs:61-69 | (x + y) − y == x, and x − y == x + (−y). |
| Complexification.ComplexCell.SubAssign | src/complexification.rs:71-78 | `*self -= other` leaves exactly `old *self − other`. |
| Complexification.Mul | src/complexification.rs:80-88 | Multiplying by 1 + 0i leaves x unchanged. On real operands (r, 0)·(s, 0) the result is (r·s, 0), the product of F_P. i·i == −1. |
| Complexification.MulCommutative | src/complexification.rs:80-88 | The product is commutative. |
| Complexification.MulAssociative | src/complexification.rs:80-88 | The product is associative. |
| Complexification.TwoITimesTwoI | src/main.rs:257-261 | (2i)·(2i) == (P − 4) + 0i, the assertion of `mod_pow_test1`. |
| Complexification.ComplexCell.MulAssign | src/complexification.rs:90-97 | `*self *= other` leaves exactly `old *self · other`; both new components are computed from the old value. |
| Complexification.Neg | src/complexification.rs:99-107 | Each component plus the corresponding component of the result is 0. |
| Complexification.AddNegIsZero | src/complexification.rs:99-107 | x + (−x) == 0 == (−x) + x. |
| Complexification.NegInvolution | src/complexification.rs:99-107 | −(−x) == x. |
| Complexification.Zero | src/complexification.rs:109-116 | For every x, x + 0 == x and x·0 == 0. |
| Complexification.AddZeroIdentity | src/complexification.rs:109-116 | (0, 0) is a two-sided additive identity. |
| Complexification.MulZero | src/complexification.rs:109-116 | Zero absorbs products on both sides. |
| Complexification.Identity | src/complexification.rs:118-125 | For every x, x·1 == x == 1·x. |
| Complexification.MulIdentityUnit | src/complexification.rs:118-125 | (1, 0) is a two-sided multiplicative unit. |
| Complexification.Characteristic | src/complexification.rs:156-160 | The result is positive, and that many copies of the identity sum to 0. |
| Complexification.CharacteristicIsAdditiveOrder | src/complexification.rs:156-160 | `characteristic()` is the base ring's P: P copies of the identity sum to 0, and no fewer do. |
| Complexification.ModPowStep | src/complexification.rs:137-147 | One pass of the loop body halves m. Zero accumulators stay zero. On a real state (res_i == b == 0) the pass is square-and-multiply in F_P: a becomes a², and res_r becomes res_r·a when m is odd. |
| Complexification.ModPowAsWritten | src/complexification.rs:131-153 | The value `modpow` returns: `ModPowRun` iterates `ModPowStep`, as the `loop` of lines 137-148 does, from (1, 0, re, im, n). The result is the identity for n == 0, and (rⁿ, 0) for a real x = (r, 0). |
| Complexification.ModPow | src/complexification.rs:131-153 | The loop's result is the as-written iteration `ModPowAsWritten`. It is the identity for n == 0. For a real x = (r, 0) it is (rⁿ, 0) == xⁿ. |
| Complexification.ModPowOnReals | src/complexification.rs:131-153 | On a real state the imaginary accumulator stays 0, and the real one becomes res·aᵐ. |
| Complexification.ModPowStaysZero | src/complexification.rs:141-146 | Once both accumulators are 0, every later pass keeps them 0. |
| Complexification.ModPowCounterexample | src/complexification.rs:142-146 | modpow(i, 1) == 0, although i¹ == i. |
| Complexification.FermatTestFailsAsWritten | src/main.rs:264-275 | modpow(i, 48) == 4 + 2i ≠ 1, so `inv_test` fails at r = 0, i = 1. |
| Complexification.Inverse | src/complexification.rs:173-179 | The result is None exactly for zero; otherwise it is Some(modpow(P·P − 2)). For a nonzero real x it is a true inverse. |
| Complexification.RealInverse | src/complexification.rs:173-179 | For a nonzero real x, x · modpow(x, 47) == 1. |
| Complexification.InverseOfIAsWritten | src/complexification.rs:173-179 | modpow(i, n) == 0 for every odd n, so inverse(i) == Some(0), while i·(−i) == 1. |
| Complexification.ModPowFixed | src/complexification.rs:131-153 | Square-and-multiply that keeps the old values in temporaries. It returns exactly xⁿ. |
| Complexification.InverseFixed | src/complexification.rs:173-179 | The result is None exactly for zero; otherwise it is x^(P·P − 2), a two-sided inverse. |
| Complexification.FermatExtension | src/main.rs:264-275 | Every nonzero x of F_49 has x^48 == 1 and x·x^47 == 1. This is the property `inv_test` checks. |
| RationalPoints.Addable | src/rational_point.rs:78-90 | No `inverse().unwrap()` meets `None` exactly unless a point with y == 0 is doubled. Distinct x coordinates always have an invertible difference. |
| RationalPoints.TangentSlope | src/rational_point.rs:82-84 | The tangent slope (3·x1² + a)·(2·y1)⁻¹ with the as-written inverse. `Two` and `Three` are `id + id` and `id + id + id`. When y1 is real, m·(2·y1) == 3·x1² + a. |
| RationalPoints.SecantSlope | src/rational_point.rs:88 | The secant slope (y2 − y1)·(x2 − x1)⁻¹ with the as-written inverse. When x2 − x1 is real, m·(x2 − x1) == y2 − y1. |
| RationalPoints.Chord | src/rational_point.rs:85-89 | The point both branches build: x3 == m² − x1 − x2, and it lies on the line of slope m through (x1, y1), reflected: y3 == m·(x1 − x3) − y1. |
| RationalPoints.AddRationalPoints | src/rational_point.rs:72-94 | O is a left and a right identity. The sum is O exactly when both inputs are O, or the x coordinates are equal and the y coordinates differ. |
| RationalPoints.OperatorAdd | src/rational_point.rs:28-56 | The `+` operator with `T::a()` as curveA gives the same point as `add_rational_points` on every addable pair. |
| RationalPoints.SecantRule | src/rational_point.rs:87-90 | For distinct x, with m the secant slope: x3 == m² − x1 − x2 and y3 == m·(x1 − x3) − y1. |
| RationalPoints.TangentRule | src/rational_point.rs:81-86 | When doubling with y ≠ 0, with m the tangent slope: x3 == m² − 2·x1 and y3 == m·(x1 − x3) − y1. |
| RationalPoints.Neg | src/rational_point.rs:58-66 | −O == O. −Point(x, y) is Point(x, y′) with y′ + y == 0. |
| RationalPoints.NegInvolution | src/rational_point.rs:58-66 | −(−p) == p. |
| RationalPoints.AddNegIsO | src/rational_point.rs:78-80 | If y ≠ 0 (P is odd), p + (−p) is defined and is O. |
| RationalPoints.SumLeavesCurveAsWritten | src/rational_point.rs:88-89 | On y² = x³ + 1, (0, 1) + (i, 3 + i) is (−i, −1), which is off the curve. With the true inverse the sum is (4 + 2i, 5 + 6i), which is on it. |
| RationalPoints.TangentSlopeFixed | src/rational_point.rs:83-84 | With a true inverse, m·(2·y1) == 3·x1² + a. |
| RationalPoints.SecantSlopeFixed | src/rational_point.rs:88 | With a true inverse, m·(x2 − x1) == y2 − y1. |
| RationalPoints.AddRationalPointsFixed | src/rational_point.rs:72-94 | The same case analysis and identities as `AddRationalPoints`, with slopes that satisfy their defining equations. |
| Polynomials.EvaluateCubic | src/main.rs:53-60 | The coefficients [b, a, 0, 1] evaluate to x³ + ax + b. |
| Polynomials.EvaluateSquare | src/main.rs:62-68 | The coefficients [0, 0, 1] evaluate to y·y. |
| Solver.IsPrime | src/main.rs:177-196 | The result is true exactly when n is prime. |
| Solver.PrimeByTrialDivision | src/main.rs:187-194 | Suppose n is odd and no odd d with 3 ≤ d ≤ bound and d ≠ n divides it. If bound² ≥ n, then n is prime. |
| Solver.ModulusRequirements | src/main.rs:1 | P is prime, differs from 2 and 3, and is 3 mod 4. −1 is not a square mod P. |
| Solver.SolveEquation | src/main.rs:199-225 | (x, y) is in the result exactly when evaluate(f, x) == evaluate(g, y), so the result does not depend on visiting order. It has at most P⁴ elements. |
| Solver.CollectStep | src/main.rs:208-218 | The set holds exactly the solutions among the first k quadruples in loop order. One visit extends that to the first k + 1. |
| Solver.IndexInjective | src/main.rs:204-207 | Distinct quadruples have distinct positions in the loop order, so each is examined once. |
| Solver.IndexRange | src/main.rs:204-207 | Every quadruple of residues has a position below P⁴, so every one is visited. |
| Solver.CurveF | src/main.rs:53-60 | The polynomial [b, a, 0, 1] that `main` builds: for every x, f(x) == x³ + ax + b. |
| Solver.CurveG | src/main.rs:62-68 | The polynomial [0, 0, 1]: for every y, g(y) == y·y. |
| Solver.CurveEquation | src/main.rs:53-70 | f(x) == g(y) for the instance `main` builds exactly when y² == x³ + ax + b. |
| Solver.SolveCurve | src/main.rs:53-70 | `solve_equation(&f, &g)` as `main` calls it returns exactly the affine points of the curve. |

## Left out

- The `Display` impls (src/complexification.rs:27-37, src/rational_point.rs:18-25) and `print_solutions` (src/main.rs:227-246) only format text for printing.
- The console input and parsing in `main` are I/O (src/main.rs:37-51, 93-117, 130-154).
- The `println!` warnings in `main` only print (src/main.rs:22-35, 81-89). Their conditions on P are stated by `Solver.ModulusRequirements`.
- The orchestration in `main` (src/main.rs:119-173) is glue. That includes adding P + Q before checking that Q is on the curve.
- The discriminant warning (src/main.rs:72-79) only prints. It also relies on `ModInt::modpow`, and the `modint` module is not part of this model.
- These Rust modules are not part of this model: `modint`, `polynomial`, `solution_set`, `identities`, `inverse` and `characteristic`. The model uses only what the shown code needs from them:
  - residues kept in [0, P);
  - `evaluate` as a parameter of `SolveEquation`, read as Σ cᵢ·xⁱ only for the curve instance;
  - `SolutionSet` as a set whose size is its cardinality.
- The element type T of `Complex<T>` is fixed to `ModInt<7>`, residues modulo P = 7, and the element type T of `RationalPoint<T>` is fixed to `Complex<ModInt<7>>`. The generic trait bounds and the trait `A` (src/rational_point.rs:97-99) become the parameter `curveA` of `OperatorAdd`.
- `Hash`/`HashSet` internals: the model uses mathematical sets.
- IsPrime: does not model u64 overflow of (3 + 2i)² or of 3 + 2i for n near 2⁶⁴. The integers here are unbounded. The model also does not model `P·P − 2` as a u64.
- AddRationalPoints: a panic of `unwrap` is the precondition `Addable`, not an error result, because the source aborts there.
- AddRationalPointsFixed: closure of the curve under the group law is not proved, because it needs a large polynomial identity over F_49. The slope equations are proved for every input. Closure is shown on the example in `SumLeavesCurveAsWritten`.
- Associativity and commutativity of point addition are not stated; the source does not claim them.

## Findings

| source | as written | input that shows it | evidently intended | confidence | as-written member | corrected member |
|---|---|---|---|---|---|---|
| src/complexification.rs:142-146 | Line 143 computes res_i from the res_r that line 142 has just overwritten, and subtracts a·res_i. Line 146 computes b from the a that line 145 has just overwritten. | modpow(i, 1) == 0 | Square-and-multiply on the old pair: res_i = res_i·a + res_r·b and b = 2·a·b. This gives xⁿ, as the doc comment at line 130 says. | high, not executed | Complexification.ModPowCounterexample | Complexification.ModPowFixed |
| src/complexification.rs:177 | `inverse` returns modpow(P·P − 2) with the loop above. | inverse(i) == Some(0), while the inverse of i is −i | x^(P·P − 2), a two-sided inverse for every nonzero x | high, not executed | Complexification.InverseOfIAsWritten | Complexification.InverseFixed |
| src/main.rs:264-275 | `inv_test` asserts modpow(x, 48) == 1 for all 48 nonzero x. | x = i: modpow(i, 48) == 4 + 2i | x^48 == 1 for every nonzero x of F_49 | high, not executed | Complexification.FermatTestFailsAsWritten | Complexification.FermatExtension |
| src/rational_point.rs:88-89 | The secant slope divides by the as-written inverse. | y² = x³ + 1, (0, 1) + (i, 3 + i) == (−i, −1), which is off the curve | The slope m with m·(x2 − x1) == y2 − y1, which gives (4 + 2i, 5 + 6i) on the curve | high, not executed | RationalPoints.SumLeavesCurveAsWritten | RationalPoints.AddRationalPointsFixed |

`AddRationalPoints` and `OperatorAdd` keep the source's `inverse`, as the code
does. `AddRationalPointsFixed` is the same law with the corrected inverse. On
real inputs the two inverses agree, by `Complexification.ModPow` and
`Complexification.RealInverse`.
