/**
  Residues modulo the prime P: the base ring `ModInt<P>` that src/main.rs
  instantiates the quadratic extension with. The Rust module `modint` is not
  part of this model; a residue is kept canonical in [0, P) and every
  operation reduces its result modulo P at once.
*/
module ModInt {

  /** The modulus fixed at src/main.rs:1. */
  const P: nat := 7

  /** A canonical residue modulo P. */
  type Residue = x: int | 0 <= x < P

  /** `ModInt::<P>::new(n)`: reduce an integer modulo P. */
  function FromInt(n: int): Residue { n % P }

  function Zero(): Residue { 0 }

  function One(): Residue { 1 }

  function Add(a: Residue, b: Residue): Residue { (a + b) % P }

  function Sub(a: Residue, b: Residue): Residue { (a - b) % P }

  function Mul(a: Residue, b: Residue): Residue { (a * b) % P }

  function Neg(a: Residue): Residue { (P - a) % P }

  /** The characteristic of the prime field. */
  function Characteristic(): nat { P }

  /** a^n by repeated multiplication: the reference meaning of a power. */
  function Pow(a: Residue, n: nat): Residue
    decreases n
  {
    if n == 0 then One() else Mul(a, Pow(a, n - 1))
  }

  // ---------------------------------------------------------------------------
  // Reduction modulo P
  // ---------------------------------------------------------------------------

  /** x % P is the unique r in [0, P) with x = P*k + r. */
  lemma ModUnique(x: int, k: int, r: int)
    requires 0 <= r < P && x == P * k + r
    ensures x % P == r
  {
  }

  lemma AddReduced(u: int, v: int)
    ensures Add(u % P, v % P) == (u + v) % P
  {
    var a, b := u % P, v % P;
    assert u == P * (u / P) + a && v == P * (v / P) + b;
    assert a + b == P * ((a + b) / P) + Add(a, b);
    ModUnique(u + v, u / P + v / P + (a + b) / P, Add(a, b));
  }

  lemma SubReduced(u: int, v: int)
    ensures Sub(u % P, v % P) == (u - v) % P
  {
    var a, b := u % P, v % P;
    assert u == P * (u / P) + a && v == P * (v / P) + b;
    assert a - b == P * ((a - b) / P) + Sub(a, b);
    ModUnique(u - v, u / P - v / P + (a - b) / P, Sub(a, b));
  }

  lemma MulReduced(u: int, v: int)
    ensures Mul(u % P, v % P) == (u * v) % P
  {
    var qu, a, qv, b := u / P, u % P, v / P, v % P;
    assert u == P * qu + a && v == P * qv + b;
    assert a * b == P * ((a * b) / P) + Mul(a, b);
    assert u * v == P * (qu * P * qv + qu * b + a * qv) + a * b;
    ModUnique(u * v, qu * P * qv + qu * b + a * qv + (a * b) / P, Mul(a, b));
  }

  /** A residue is its own reduction. */
  lemma Reduced(a: Residue)
    ensures a % P == a
  {
  }

  // ---------------------------------------------------------------------------
  // Laws of the residue operations
  // ---------------------------------------------------------------------------

  lemma AddCommutative(a: Residue, b: Residue)
    ensures Add(a, b) == Add(b, a)
  {
  }

  lemma AddAssociative(a: Residue, b: Residue, c: Residue)
    ensures Add(Add(a, b), c) == Add(a, Add(b, c))
  {
    assert Add(Add(a, b), c) == (a + b + c) % P by {
      Reduced(c);
      AddReduced(a + b, c);
    }
    assert Add(a, Add(b, c)) == (a + (b + c)) % P by {
      Reduced(a);
      AddReduced(a, b + c);
    }
  }

  lemma AddZero(a: Residue)
    ensures Add(a, Zero()) == a && Add(Zero(), a) == a
  {
  }

  lemma AddNeg(a: Residue)
    ensures Add(a, Neg(a)) == Zero() && Add(Neg(a), a) == Zero()
  {
  }

  lemma NegNeg(a: Residue)
    ensures Neg(Neg(a)) == a
  {
  }

  lemma SubUndoesAdd(a: Residue, b: Residue)
    ensures Sub(Add(a, b), b) == a
  {
    assert Sub(Add(a, b), b) == (a + b - b) % P by {
      Reduced(b);
      SubReduced(a + b, b);
    }
    Reduced(a);
  }

  lemma AddUndoesSub(a: Residue, b: Residue)
    ensures Add(Sub(a, b), b) == a
  {
    assert Add(Sub(a, b), b) == (a - b + b) % P by {
      Reduced(b);
      AddReduced(a - b, b);
    }
    Reduced(a);
  }

  lemma SubIsAddNeg(a: Residue, b: Residue)
    ensures Sub(a, b) == Add(a, Neg(b))
  {
    assert Add(a, Neg(b)) == (a + (P - b)) % P by {
      Reduced(a);
      AddReduced(a, P - b);
    }
    assert (a - b + P) % P == (a - b) % P by {
      ModUnique(a - b + P, (a - b) / P + 1, (a - b) % P);
    }
  }

  lemma SubZero(a: Residue, b: Residue)
    ensures Sub(a, Zero()) == a
    ensures Sub(a, b) == Zero() <==> a == b
  {
  }

  /** In odd characteristic only zero is its own negation. */
  lemma DoubleIsZero(a: Residue)
    ensures Add(a, a) == Zero() <==> a == Zero()
    ensures Neg(a) == a <==> a == Zero()
  {
  }

  lemma MulCommutative(a: Residue, b: Residue)
    ensures Mul(a, b) == Mul(b, a)
  {
  }

  lemma MulOne(a: Residue)
    ensures Mul(a, One()) == a && Mul(One(), a) == a
  {
  }

  lemma MulZero(a: Residue)
    ensures Mul(a, Zero()) == Zero() && Mul(Zero(), a) == Zero()
  {
  }

  lemma MulAssociative(a: Residue, b: Residue, c: Residue)
    ensures Mul(Mul(a, b), c) == Mul(a, Mul(b, c))
  {
    assert Mul(Mul(a, b), c) == ((a * b) * c) % P by {
      Reduced(c);
      MulReduced(a * b, c);
    }
    assert Mul(a, Mul(b, c)) == (a * (b * c)) % P by {
      Reduced(a);
      MulReduced(a, b * c);
    }
    MulAssociativeOverIntegers(a, b, c);
  }

  lemma MulAssociativeOverIntegers(a: int, b: int, c: int)
    ensures (a * b) * c == a * (b * c)
  {
  }

  lemma MulSuccessor(m: int, n: int)
    ensures m * (n + 1) == m * n + m
  {
  }

  /** Sums and differences of two products, reduced once at the end. */
  lemma Combination(p: int, q: int, r: int, s: int)
    ensures Sub(Mul(p % P, q % P), Mul(r % P, s % P)) == (p * q - r * s) % P
    ensures Add(Mul(p % P, q % P), Mul(r % P, s % P)) == (p * q + r * s) % P
  {
    MulReduced(p, q);
    MulReduced(r, s);
    SubReduced(p * q, r * s);
    AddReduced(p * q, r * s);
  }

  lemma CombinationOfResidues(a: Residue, c: Residue, b: Residue, d: Residue)
    ensures Sub(Mul(a, c), Mul(b, d)) == (a * c - b * d) % P
    ensures Add(Mul(a, c), Mul(b, d)) == (a * c + b * d) % P
  {
    Combination(a, c, b, d);
    Reduced(a);
    Reduced(b);
    Reduced(c);
    Reduced(d);
  }

  lemma CombinationReducedLeft(u: int, e: Residue, v: int, f: Residue)
    ensures Sub(Mul(u % P, e), Mul(v % P, f)) == (u * e - v * f) % P
    ensures Add(Mul(u % P, e), Mul(v % P, f)) == (u * e + v * f) % P
  {
    Combination(u, e, v, f);
    Reduced(e);
    Reduced(f);
  }

  lemma CombinationReducedRight(a: Residue, w: int, b: Residue, t: int)
    ensures Sub(Mul(a, w % P), Mul(b, t % P)) == (a * w - b * t) % P
    ensures Add(Mul(a, w % P), Mul(b, t % P)) == (a * w + b * t) % P
  {
    Combination(a, w, b, t);
    Reduced(a);
    Reduced(b);
  }

  // ---------------------------------------------------------------------------
  // Powers
  // ---------------------------------------------------------------------------

  lemma {:induction false} PowAdd(a: Residue, m: nat, n: nat)
    ensures Pow(a, m + n) == Mul(Pow(a, m), Pow(a, n))
    decreases m
  {
    if m == 0 {
      MulOne(Pow(a, n));
    } else {
      PowAdd(a, m - 1, n);
      MulAssociative(a, Pow(a, m - 1), Pow(a, n));
    }
  }

  lemma {:induction false} PowOfOne(n: nat)
    ensures Pow(One(), n) == One()
  {
    if n > 0 {
      PowOfOne(n - 1);
    }
  }

  /** m added to itself n times: the product m*n built without multiplying,
      so that exponents stay linear in the proofs about powers. */
  function Scale(m: nat, n: nat): nat
    decreases n
  {
    if n == 0 then 0 else Scale(m, n - 1) + m
  }

  lemma {:induction false} ScaleIsProduct(m: nat, n: nat)
    ensures Scale(m, n) == m * n
    decreases n
  {
    if n > 0 {
      ScaleIsProduct(m, n - 1);
      MulSuccessor(m, n - 1);
    }
  }

  lemma {:induction false} PowScale(a: Residue, m: nat, n: nat)
    ensures Pow(a, Scale(m, n)) == Pow(Pow(a, m), n)
    decreases n
  {
    if n > 0 {
      PowScale(a, m, n - 1);
      PowAdd(a, m, Scale(m, n - 1));
    }
  }

  lemma PowMulExponent(a: Residue, m: nat, n: nat)
    ensures Pow(a, m * n) == Pow(Pow(a, m), n)
  {
    PowScale(a, m, n);
    ScaleIsProduct(m, n);
  }

  /** Fermat's little theorem for P = 7, residue by residue. */
  lemma FermatLittle(a: Residue)
    requires a != Zero()
    ensures Pow(a, P - 1) == One()
  {
    if a == 1 {
      SixthPowerOf1();
    } else if a == 2 {
      SixthPowerOf2();
    } else if a == 3 {
      SixthPowerOf3();
    } else if a == 4 {
      SixthPowerOf4();
    } else if a == 5 {
      SixthPowerOf5();
    } else {
      SixthPowerOf6();
    }
  }

  lemma SixthPowerOf1()
    ensures Pow(1, 6) == 1
  {
    assert Pow(1, 1) == 1;
    assert Pow(1, 2) == 1;
    assert Pow(1, 3) == 1;
    assert Pow(1, 4) == 1;
    assert Pow(1, 5) == 1;
  }

  lemma SixthPowerOf2()
    ensures Pow(2, 6) == 1
  {
    assert Pow(2, 1) == 2;
    assert Pow(2, 2) == 4;
    assert Pow(2, 3) == 1;
    assert Pow(2, 4) == 2;
    assert Pow(2, 5) == 4;
  }

  lemma SixthPowerOf3()
    ensures Pow(3, 6) == 1
  {
    assert Pow(3, 1) == 3;
    assert Pow(3, 2) == 2;
    assert Pow(3, 3) == 6;
    assert Pow(3, 4) == 4;
    assert Pow(3, 5) == 5;
  }

  lemma SixthPowerOf4()
    ensures Pow(4, 6) == 1
  {
    assert Pow(4, 1) == 4;
    assert Pow(4, 2) == 2;
    assert Pow(4, 3) == 1;
    assert Pow(4, 4) == 4;
    assert Pow(4, 5) == 2;
  }

  lemma SixthPowerOf5()
    ensures Pow(5, 6) == 1
  {
    assert Pow(5, 1) == 5;
    assert Pow(5, 2) == 4;
    assert Pow(5, 3) == 6;
    assert Pow(5, 4) == 2;
    assert Pow(5, 5) == 3;
  }

  lemma SixthPowerOf6()
    ensures Pow(6, 6) == 1
  {
    assert Pow(6, 1) == 6;
    assert Pow(6, 2) == 1;
    assert Pow(6, 3) == 6;
    assert Pow(6, 4) == 1;
    assert Pow(6, 5) == 6;
  }

  /** A nonzero residue a has a^(P-2) as its inverse. */
  lemma InverseByFermat(a: Residue)
    requires a != Zero()
    ensures Mul(a, Pow(a, P - 2)) == One()
  {
    PowAdd(a, 1, P - 2);
    MulOne(a);
    FermatLittle(a);
  }
}
