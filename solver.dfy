/**
  The two algorithms of src/main.rs: the primality test `is_prime`, trial
  division by odd numbers, and `solve_equation`, the exhaustive search for the
  pairs (x, y) of F_49 x F_49 with f(x) == g(y). The `SolutionSet` it returns
  is modelled as a set of pairs; its `size` is the cardinality.
*/
module Solver {
  import M = ModInt
  import C = Complexification
  import Poly = Polynomials
  import RP = RationalPoints

  // ---------------------------------------------------------------------------
  // is_prime (src/main.rs:177-196)
  // ---------------------------------------------------------------------------

  predicate Prime(n: nat) {
    n >= 2 && forall d :: 2 <= d < n ==> n % d != 0
  }

  /**
    Trial division: 2 is prime, other even numbers, 0 and 1 are not, and an
    odd n is tried against d = 3, 5, 7, ... until d*d >= n. The result is
    true exactly for the primes.
  */
  method IsPrime(n: nat) returns (b: bool)
    ensures b <==> Prime(n)
  {
    if n == 2 {
      return true;
    }
    if n % 2 == 0 {
      return false;
    }
    if n == 0 || n == 1 {
      return false;
    }
    ghost var bound := 2 * n + 1;
    MulMonotone(1, bound);
    for i := 0 to n
      invariant forall e :: 3 <= e < 3 + 2 * i && e % 2 == 1 && e != n ==> n % e != 0
    {
      var d := 3 + 2 * i;
      if n != d && n % d == 0 {
        NotPrimeByDivisor(n, d);
        return false;
      }
      if d * d >= n {
        bound := d;
        break;
      }
      assert (d + 1) % 2 == 0;
    }
    assert bound * bound >= n;
    PrimeByTrialDivision(n, bound);
    return true;
  }

  lemma NotPrimeByDivisor(n: nat, d: nat)
    requires n > 0 && d >= 2 && d != n && n % d == 0
    ensures !Prime(n)
  {
  }

  /** An odd n with no odd divisor e, 3 <= e <= bound, e != n, and with
      bound*bound >= n is prime. */
  lemma PrimeByTrialDivision(n: nat, bound: nat)
    requires n >= 3 && n % 2 == 1
    requires bound * bound >= n
    requires forall e :: 3 <= e <= bound && e % 2 == 1 && e != n ==> n % e != 0
    ensures Prime(n)
  {
    if !Prime(n) {
      var d :| 2 <= d < n && n % d == 0;
      var e := OddSmallDivisor(n, d);
      SquareMonotone(bound, e);
    }
  }

  /** An odd number with a proper divisor has an odd one, other than itself,
      whose square is at most the number. */
  lemma OddSmallDivisor(n: nat, d: nat) returns (e: nat)
    requires n % 2 == 1 && 2 <= d < n && n % d == 0
    ensures 3 <= e && e * e <= n && e % 2 == 1 && e != n && n % e == 0
  {
    e := SmallDivisor(n, d);
    OddDivisor(n, e);
    MulCancel(e, 1, e);
  }

  /** A number with a proper divisor has one whose square is at most the number. */
  lemma SmallDivisor(n: nat, d: nat) returns (e: nat)
    requires 2 <= d < n && n % d == 0
    ensures 2 <= e && e * e <= n && n % e == 0
  {
    var f := n / d;
    assert n == d * f == f * d;
    if d * d <= n {
      e := d;
    } else {
      MulCancel(d, f, d);
      MulCancel(d, 1, f);
      MulMonotone(f, d);
      ModOfMultiple(f, d);
      e := f;
    }
  }

  /** Multiplying by a positive number keeps strict order, both ways. */
  lemma MulCancel(a: nat, b: int, c: int)
    requires a > 0
    ensures a * b < a * c <==> b < c
  {
    if b < c {
      MulNonneg(a, c - b - 1);
      assert a * c - a * b == a * (c - b - 1) + a;
    } else {
      MulNonneg(a, b - c);
      assert a * b - a * c == a * (b - c);
    }
  }

  lemma SquareMonotone(a: nat, b: nat)
    ensures a * a < b * b <==> a < b
  {
    if a < b {
      MulMonotone(a, b);
    } else if b < a {
      MulMonotone(b, a);
    }
  }

  lemma MulNonneg(a: int, b: int)
    requires a >= 0 && b >= 0
    ensures a * b >= 0
  {
  }

  lemma MulMonotone(a: nat, b: nat)
    requires a < b
    ensures a * a < b * b && a * a <= a * b <= b * b
  {
    MulNonneg(a, b - a);
    MulNonneg(b, b - a - 1);
    assert a * b - a * a == a * (b - a);
    assert b * b - a * b == b * (b - a - 1) + b;
  }

  /** A multiple of f lying in [0, f) is zero. */
  lemma SmallMultipleIsZero(f: int, t: int)
    requires f > 0 && 0 <= f * t < f
    ensures t == 0
  {
    if t >= 1 {
      MulNonneg(f, t - 1);
    } else if t <= -1 {
      MulNonneg(f, -t - 1);
    }
  }

  lemma ModOfMultiple(f: int, q: int)
    requires f > 0
    ensures (f * q) % f == 0
  {
    var n := f * q;
    var r, t := n % f, n / f;
    assert n == f * t + r;
    assert f * (q - t) == r;
    SmallMultipleIsZero(f, q - t);
  }

  /** Divisors of an odd number are odd. */
  lemma OddDivisor(n: nat, e: nat)
    requires n % 2 == 1 && e > 0 && n % e == 0
    ensures e % 2 == 1
  {
    var q := n / e;
    assert n == e * q;
    if e % 2 == 0 {
      var h := e / 2;
      assert n == 2 * (h * q);
      ModOfMultiple(2, h * q);
    }
  }

  /**
    The conditions the comment at src/main.rs:1 and the warnings at
    src/main.rs:27-35 ask of P: prime, neither 2 nor 3, and 3 modulo 4, so
    that -1 has no square root modulo P and F_P[i]/(i^2 + 1) is a field.
  */
  lemma ModulusRequirements()
    ensures Prime(M.P) && M.P != 2 && M.P != 3 && M.P % 4 == 3
    ensures forall r: M.Residue :: M.Mul(r, r) != M.Neg(M.One())
  {
  }

  // ---------------------------------------------------------------------------
  // solve_equation (src/main.rs:199-225)
  // ---------------------------------------------------------------------------

  /** The position of (x, y) in the order the four loops visit the pairs:
      its coordinates re, im, re, im read as base-P digits. */
  function Index(x: C.Complex, y: C.Complex): nat {
    ((x.re * M.P + x.im) * M.P + y.re) * M.P + y.im
  }

  /** Every pair has a position below P^4, and distinct pairs distinct positions. */
  lemma IndexRange(x: C.Complex, y: C.Complex)
    ensures Index(x, y) < M.P * M.P * M.P * M.P
  {
  }

  lemma IndexInjective(x: C.Complex, y: C.Complex, x': C.Complex, y': C.Complex)
    requires Index(x, y) == Index(x', y')
    ensures x == x' && y == y'
  {
    var b, b' := x.re * M.P + x.im, x'.re * M.P + x'.im;
    DigitSplit(b * M.P + y.re, y.im, b' * M.P + y'.re, y'.im);
    DigitSplit(b, y.re, b', y'.re);
    DigitSplit(x.re, x.im, x'.re, x'.im);
  }

  /** The last base-P digit and the rest of a number determine each other. */
  lemma DigitSplit(k: int, d: int, k': int, d': int)
    requires 0 <= d < M.P && 0 <= d' < M.P
    requires k * M.P + d == k' * M.P + d'
    ensures k == k' && d == d'
  {
    M.ModUnique(k * M.P + d, k, d);
    M.ModUnique(k' * M.P + d', k', d');
  }

  /** s holds exactly the solutions among the first k pairs of the search order. */
  ghost predicate Collected(s: set<(C.Complex, C.Complex)>, f: Poly.Polynomial, g: Poly.Polynomial,
                            evaluate: (Poly.Polynomial, C.Complex) -> C.Complex, k: nat)
  {
    forall x: C.Complex, y: C.Complex ::
      (x, y) in s <==> Index(x, y) < k && evaluate(f, x) == evaluate(g, y)
  }

  /** Visiting the pair at position k extends the collection to k + 1. */
  lemma CollectStep(s: set<(C.Complex, C.Complex)>, f: Poly.Polynomial, g: Poly.Polynomial,
                    evaluate: (Poly.Polynomial, C.Complex) -> C.Complex, x: C.Complex, y: C.Complex)
    requires Collected(s, f, g, evaluate, Index(x, y))
    ensures Collected(if evaluate(f, x) == evaluate(g, y) then s + {(x, y)} else s, f, g, evaluate, Index(x, y) + 1)
  {
    forall x': C.Complex, y': C.Complex | Index(x', y') == Index(x, y)
      ensures x' == x && y' == y
    {
      IndexInjective(x, y, x', y');
    }
  }

  /**
    The exhaustive search: the result holds a pair exactly when it solves
    evaluate(f, x) == evaluate(g, y), so it does not depend on the order of
    the loops, and it has at most P^4 elements.
  */
  method SolveEquation(f: Poly.Polynomial, g: Poly.Polynomial,
                       evaluate: (Poly.Polynomial, C.Complex) -> C.Complex)
    returns (s: set<(C.Complex, C.Complex)>)
    ensures forall x: C.Complex, y: C.Complex :: (x, y) in s <==> evaluate(f, x) == evaluate(g, y)
    ensures |s| <= M.P * M.P * M.P * M.P
  {
    s := {};
    for ir := 0 to M.P
      invariant Collected(s, f, g, evaluate, ir * M.P * M.P * M.P)
      invariant |s| <= ir * M.P * M.P * M.P
    {
      for ii := 0 to M.P
        invariant Collected(s, f, g, evaluate, (ir * M.P + ii) * M.P * M.P)
        invariant |s| <= (ir * M.P + ii) * M.P * M.P
      {
        for jr := 0 to M.P
          invariant Collected(s, f, g, evaluate, ((ir * M.P + ii) * M.P + jr) * M.P)
          invariant |s| <= ((ir * M.P + ii) * M.P + jr) * M.P
        {
          for ji := 0 to M.P
            invariant Collected(s, f, g, evaluate, ((ir * M.P + ii) * M.P + jr) * M.P + ji)
            invariant |s| <= ((ir * M.P + ii) * M.P + jr) * M.P + ji
          {
            var x := C.Complex(M.FromInt(ir), M.FromInt(ii));
            var y := C.Complex(M.FromInt(jr), M.FromInt(ji));
            assert x == C.Complex(ir, ii) && y == C.Complex(jr, ji);
            CollectStep(s, f, g, evaluate, x, y);
            if evaluate(f, x) == evaluate(g, y) {
              s := s + {(x, y)};
            }
          }
        }
      }
    }
    forall x: C.Complex, y: C.Complex
      ensures (x, y) in s <==> evaluate(f, x) == evaluate(g, y)
    {
      IndexRange(x, y);
    }
  }

  // ---------------------------------------------------------------------------
  // The curve y^2 = x^3 + ax + b of src/main.rs:53-70
  // ---------------------------------------------------------------------------

  /** The coefficient a or b read from the input, as an element of F_49. */
  function Coefficient(n: nat): C.Complex {
    C.Complex(M.FromInt(n), M.Zero())
  }

  /** f = b + a x + x^3, coefficients constant term first: f(x) is x^3 + ax + b. */
  function CurveF(a: nat, b: nat): (f: Poly.Polynomial)
    ensures forall x :: Poly.Evaluate(f, x) == C.Add(C.Add(Poly.Cube(x), C.Mul(Coefficient(a), x)), Coefficient(b))
  {
    CubicEverywhere(Coefficient(a), Coefficient(b));
    [C.Complex(M.FromInt(b), M.Zero()), C.Complex(M.FromInt(a), M.Zero()), C.Zero(), C.Identity()]
  }

  /** g = y^2: g(y) is y*y. */
  function CurveG(): (g: Poly.Polynomial)
    ensures forall y :: Poly.Evaluate(g, y) == C.Mul(y, y)
  {
    SquareEverywhere();
    [C.Zero(), C.Zero(), C.Identity()]
  }

  lemma CubicEverywhere(a: C.Complex, b: C.Complex)
    ensures forall x :: Poly.Evaluate([b, a, C.Zero(), C.Identity()], x) == C.Add(C.Add(Poly.Cube(x), C.Mul(a, x)), b)
  {
    forall x {
      Poly.EvaluateCubic(a, b, x);
    }
  }

  lemma SquareEverywhere()
    ensures forall y :: Poly.Evaluate([C.Zero(), C.Zero(), C.Identity()], y) == C.Mul(y, y)
  {
    forall y {
      Poly.EvaluateSquare(y);
    }
  }

  /** f(x) == g(y) is the curve equation y*y == x*x*x + a*x + b. */
  lemma CurveEquation(a: nat, b: nat, x: C.Complex, y: C.Complex)
    ensures Poly.Evaluate(CurveF(a, b), x) == Poly.Evaluate(CurveG(), y)
        <==> RP.OnCurve(RP.Point(x, y), Coefficient(a), Coefficient(b))
  {
  }

  /** `solve_equation(&f, &g)` as `main` calls it: exactly the affine points of the curve. */
  method SolveCurve(a: nat, b: nat) returns (s: set<(C.Complex, C.Complex)>)
    ensures forall x: C.Complex, y: C.Complex ::
              (x, y) in s <==> RP.OnCurve(RP.Point(x, y), Coefficient(a), Coefficient(b))
    ensures |s| <= M.P * M.P * M.P * M.P
  {
    s := SolveEquation(CurveF(a, b), CurveG(), Poly.Evaluate);
    forall x: C.Complex, y: C.Complex
      ensures (x, y) in s <==> RP.OnCurve(RP.Point(x, y), Coefficient(a), Coefficient(b))
    {
      CurveEquation(a, b, x, y);
    }
  }
}
