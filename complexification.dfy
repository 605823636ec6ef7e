/**
  The quadratic extension F_P[i]/(i^2 + 1), `Complex<ModInt<P>>` in
  src/complexification.rs: an element re + im*i is a pair of residues.
  Addition, subtraction and negation act component-wise; multiplication
  follows (a + bi)(c + di) = (ac - bd) + (bc + ad)i, with the operands in the
  order the source writes them.
*/
module Complexification {
  import opened Wrappers
  import M = ModInt

  /** `Complex::new(real, imaginary)`. */
  datatype Complex = Complex(re: M.Residue, im: M.Residue)

  /** Component-wise sum; subtracting y again gives back x. */
  function Add(x: Complex, y: Complex): (r: Complex)
    ensures M.Sub(r.re, y.re) == x.re && M.Sub(r.im, y.im) == x.im
  {
    M.SubUndoesAdd(x.re, y.re);
    M.SubUndoesAdd(x.im, y.im);
    Complex(M.Add(x.re, y.re), M.Add(x.im, y.im))
  }

  /** Component-wise difference; adding y again gives back x. */
  function Sub(x: Complex, y: Complex): (r: Complex)
    ensures M.Add(r.re, y.re) == x.re && M.Add(r.im, y.im) == x.im
  {
    M.AddUndoesSub(x.re, y.re);
    M.AddUndoesSub(x.im, y.im);
    Complex(M.Sub(x.re, y.re), M.Sub(x.im, y.im))
  }

  /**
    The product with i*i == -1. The residues 0 + 0i, 1 + 0i, ... are a copy of
    the base ring: the product of two of them is their product in F_P.
  */
  function Mul(x: Complex, y: Complex): (r: Complex)
    ensures y == Complex(1, 0) ==> r == x
    ensures x.im == 0 && y.im == 0 ==> r == Complex(M.Mul(x.re, y.re), 0)
    ensures x == Complex(0, 1) && y == Complex(0, 1) ==> r == Complex(M.P - 1, 0)
  {
    Complex(M.Sub(M.Mul(x.re, y.re), M.Mul(x.im, y.im)),
            M.Add(M.Mul(x.im, y.re), M.Mul(x.re, y.im)))
  }

  /** Component-wise negation: each component plus its negation is 0. */
  function Neg(x: Complex): (r: Complex)
    ensures M.Add(r.re, x.re) == M.Zero() && M.Add(r.im, x.im) == M.Zero()
  {
    M.AddNeg(x.re);
    M.AddNeg(x.im);
    Complex(M.Neg(x.re), M.Neg(x.im))
  }

  /** The additive identity, which also absorbs products. */
  function Zero(): (r: Complex)
    ensures forall x :: Add(x, r) == x && Mul(x, r) == r
  {
    Complex(M.Zero(), M.Zero())
  }

  /** The multiplicative unit on both sides. */
  function Identity(): (r: Complex)
    ensures forall x :: Mul(x, r) == x && Mul(r, x) == x
  {
    Complex(M.One(), M.Zero())
  }

  /** The extension keeps the characteristic of its base ring: that many
      copies of the identity sum to zero. */
  function Characteristic(): (r: nat)
    ensures r > 0 && Times(Identity(), r) == Zero()
  {
    TimesIdentity(M.Characteristic());
    M.Characteristic()
  }

  /** x^n by repeated multiplication: the meaning `modpow` is meant to have. */
  function Pow(x: Complex, n: nat): Complex
    decreases n
  {
    if n == 0 then Identity() else Mul(x, Pow(x, n - 1))
  }

  /** x added to itself k times. */
  function Times(x: Complex, k: nat): Complex
    decreases k
  {
    if k == 0 then Zero() else Add(Times(x, k - 1), x)
  }

  // ---------------------------------------------------------------------------
  // Ring laws of the component-wise and complex operations
  // ---------------------------------------------------------------------------

  lemma AddCommutative(x: Complex, y: Complex)
    ensures Add(x, y) == Add(y, x)
  {
    M.AddCommutative(x.re, y.re);
    M.AddCommutative(x.im, y.im);
  }

  lemma AddAssociative(x: Complex, y: Complex, z: Complex)
    ensures Add(Add(x, y), z) == Add(x, Add(y, z))
  {
    M.AddAssociative(x.re, y.re, z.re);
    M.AddAssociative(x.im, y.im, z.im);
  }

  lemma AddZeroIdentity(x: Complex)
    ensures Add(x, Zero()) == x && Add(Zero(), x) == x
  {
  }

  lemma AddNegIsZero(x: Complex)
    ensures Add(x, Neg(x)) == Zero() && Add(Neg(x), x) == Zero()
  {
  }

  lemma NegInvolution(x: Complex)
    ensures Neg(Neg(x)) == x
  {
    M.NegNeg(x.re);
    M.NegNeg(x.im);
  }

  /** Subtraction undoes addition, and is addition of the negation. */
  lemma SubUndoesAdd(x: Complex, y: Complex)
    ensures Sub(Add(x, y), y) == x
    ensures Sub(x, y) == Add(x, Neg(y))
  {
    M.SubUndoesAdd(x.re, y.re);
    M.SubUndoesAdd(x.im, y.im);
    M.SubIsAddNeg(x.re, y.re);
    M.SubIsAddNeg(x.im, y.im);
  }

  lemma MulCommutative(x: Complex, y: Complex)
    ensures Mul(x, y) == Mul(y, x)
  {
  }

  lemma MulIdentityUnit(x: Complex)
    ensures Mul(x, Identity()) == x && Mul(Identity(), x) == x
  {
  }

  lemma MulZero(x: Complex)
    ensures Mul(x, Zero()) == Zero() && Mul(Zero(), x) == Zero()
  {
  }

  lemma MulAssociative(x: Complex, y: Complex, z: Complex)
    ensures Mul(Mul(x, y), z) == Mul(x, Mul(y, z))
  {
    var a, b, c, d, e, f := x.re, x.im, y.re, y.im, z.re, z.im;
    var u, v := a * c - b * d, b * c + a * d;   // x*y over the integers
    var w, t := c * e - d * f, d * e + c * f;   // y*z over the integers
    assert Mul(x, y) == Complex(u % M.P, v % M.P) by {
      M.CombinationOfResidues(a, c, b, d);
      M.CombinationOfResidues(b, c, a, d);
    }
    assert Mul(y, z) == Complex(w % M.P, t % M.P) by {
      M.CombinationOfResidues(c, e, d, f);
      M.CombinationOfResidues(d, e, c, f);
    }
    var l1, l2 := u * e - v * f, v * e + u * f;
    var r1, r2 := a * w - b * t, b * w + a * t;
    assert Mul(Mul(x, y), z) == Complex(l1 % M.P, l2 % M.P) by {
      M.CombinationReducedLeft(u, e, v, f);
      M.CombinationReducedLeft(v, e, u, f);
    }
    assert Mul(x, Mul(y, z)) == Complex(r1 % M.P, r2 % M.P) by {
      M.CombinationReducedRight(a, w, b, t);
      M.CombinationReducedRight(b, w, a, t);
    }
    assert l1 == r1 && l2 == r2 by {
      AssociativityOverIntegers(a, b, c, d, e, f, u, v, w, t);
    }
  }

  /** The polynomial identity behind associativity of the complex product. */
  lemma AssociativityOverIntegers(a: int, b: int, c: int, d: int, e: int, f: int,
                                 u: int, v: int, w: int, t: int)
    requires u == a * c - b * d && v == b * c + a * d
    requires w == c * e - d * f && t == d * e + c * f
    ensures u * e - v * f == a * w - b * t
    ensures v * e + u * f == b * w + a * t
  {
  }

  /** i^2 == -1, as src/main.rs checks with (2i)(2i) == (P - 4) + 0i. */
  lemma TwoITimesTwoI()
    ensures Mul(Complex(0, 2), Complex(0, 2)) == Complex(M.P - 4, 0)
  {
  }


  /** `Characteristic` is the additive order of the identity: P copies of
      1 sum to zero, and no smaller positive number of copies does. */
  lemma CharacteristicIsAdditiveOrder()
    ensures Times(Identity(), Characteristic()) == Zero()
    ensures forall k :: 0 < k < Characteristic() ==> Times(Identity(), k) != Zero()
  {
    TimesIdentity(M.P);
    forall k | 0 < k < Characteristic()
      ensures Times(Identity(), k) != Zero()
    {
      TimesIdentity(k);
    }
  }

  lemma {:induction false} TimesIdentity(k: nat)
    ensures Times(Identity(), k) == Complex(k % M.P, 0)
  {
    if k > 0 {
      TimesIdentity(k - 1);
      M.AddReduced(k - 1, 1);
      M.AddZero(0);
    }
  }

  // ---------------------------------------------------------------------------
  // Compound assignment: `+=`, `-=` and `*=` overwrite `*self`
  // ---------------------------------------------------------------------------

  /** A mutable place holding a `Complex`, the `&mut self` of the
      `AddAssign`, `SubAssign` and `MulAssign` impls. */
  class ComplexCell {
    var re: M.Residue
    var im: M.Residue

    constructor (x: Complex)
      ensures Value() == x
    {
      re, im := x.re, x.im;
    }

    function Value(): Complex
      reads this
    {
      Complex(re, im)
    }

    /** `*self += other` leaves `*self + other`. */
    method AddAssign(other: Complex)
      modifies this
      ensures Value() == Add(old(Value()), other)
    {
      re, im := M.Add(re, other.re), M.Add(im, other.im);
    }

    /** `*self -= other` leaves `*self - other`. */
    method SubAssign(other: Complex)
      modifies this
      ensures Value() == Sub(old(Value()), other)
    {
      re, im := M.Sub(re, other.re), M.Sub(im, other.im);
    }

    /** `*self *= other` leaves `*self * other`: both new components are
        computed from the old value. */
    method MulAssign(other: Complex)
      modifies this
      ensures Value() == Mul(old(Value()), other)
    {
      re, im := M.Sub(M.Mul(re, other.re), M.Mul(im, other.im)),
                M.Add(M.Mul(im, other.re), M.Mul(re, other.im));
    }
  }

  // ---------------------------------------------------------------------------
  // Powers
  // ---------------------------------------------------------------------------

  /** Multiplying by a real element scales both components. */
  lemma ScaleByReal(r: M.Residue, y: Complex)
    ensures Mul(Complex(r, 0), y) == Complex(M.Mul(r, y.re), M.Mul(r, y.im))
  {
    M.MulZero(y.im);
    M.MulZero(y.re);
    M.SubZero(M.Mul(r, y.re), 0);
    M.AddZero(M.Mul(r, y.im));
  }

  lemma {:induction false} PowAdd(x: Complex, m: nat, n: nat)
    ensures Pow(x, m + n) == Mul(Pow(x, m), Pow(x, n))
    decreases m
  {
    if m == 0 {
      MulIdentityUnit(Pow(x, n));
    } else {
      PowAdd(x, m - 1, n);
      MulAssociative(x, Pow(x, m - 1), Pow(x, n));
    }
  }

  lemma PowOne(x: Complex)
    ensures Pow(x, 1) == x
  {
    MulIdentityUnit(x);
  }

  lemma {:induction false} PowScale(x: Complex, m: nat, n: nat)
    ensures Pow(x, M.Scale(m, n)) == Pow(Pow(x, m), n)
    decreases n
  {
    if n > 0 {
      PowScale(x, m, n - 1);
      PowAdd(x, m, M.Scale(m, n - 1));
    }
  }

  lemma PowMulExponent(x: Complex, m: nat, n: nat)
    ensures Pow(x, m * n) == Pow(Pow(x, m), n)
  {
    PowScale(x, m, n);
    M.ScaleIsProduct(m, n);
  }

  lemma PowTwo(x: Complex)
    ensures Pow(x, 2) == Mul(x, x)
  {
    PowAdd(x, 1, 1);
    PowOne(x);
  }

  /** Squaring the base halves the exponent. */
  lemma PowSquare(x: Complex, k: nat)
    ensures Pow(Mul(x, x), k) == Pow(x, 2 * k)
  {
    PowMulExponent(x, 2, k);
    PowTwo(x);
  }

  lemma {:induction false} PowOfProduct(x: Complex, y: Complex, n: nat)
    ensures Pow(Mul(x, y), n) == Mul(Pow(x, n), Pow(y, n))
    decreases n
  {
    if n == 0 {
      MulIdentityUnit(Identity());
    } else {
      var px, py := Pow(x, n - 1), Pow(y, n - 1);
      PowOfProduct(x, y, n - 1);
      calc {
        Pow(Mul(x, y), n);
        Mul(Mul(x, y), Mul(px, py));
        { MulAssociative(x, y, Mul(px, py)); }
        Mul(x, Mul(y, Mul(px, py)));
        { MulAssociative(y, px, py); MulCommutative(y, px); MulAssociative(px, y, py); }
        Mul(x, Mul(px, Mul(y, py)));
        { MulAssociative(x, px, Mul(y, py)); }
        Mul(Mul(x, px), Mul(y, py));
      }
    }
  }

  /** Powers of a real element stay real and follow the base field. */
  lemma {:induction false} PowOfReal(r: M.Residue, n: nat)
    ensures Pow(Complex(r, 0), n) == Complex(M.Pow(r, n), 0)
    decreases n
  {
    if n > 0 {
      PowOfReal(r, n - 1);
      ScaleByReal(r, Complex(M.Pow(r, n - 1), 0));
      M.MulZero(r);
    }
  }

  // ---------------------------------------------------------------------------
  // modpow as written (src/complexification.rs:131-153)
  // ---------------------------------------------------------------------------

  /** The mutable locals of `modpow`: res_r, res_i, a, b and m. */
  datatype ModPowState = ModPowState(resR: M.Residue, resI: M.Residue, a: M.Residue, b: M.Residue, m: nat)

  /**
    One pass of the loop body with the statements in their order: line 143
    reads the res_r that line 142 has just replaced, and line 146 reads the
    a that line 145 has just replaced.
  */
  function ModPowStep(s: ModPowState): (r: ModPowState)
    ensures r.m == s.m / 2
    ensures s.resR == 0 && s.resI == 0 ==> r.resR == 0 && r.resI == 0
    ensures s.resI == 0 && s.b == 0 ==>
              r.resI == 0 && r.b == 0 && r.a == M.Mul(s.a, s.a) &&
              r.resR == (if s.m % 2 == 1 then M.Mul(s.resR, s.a) else s.resR)
  {
    var resR := if s.m % 2 == 1 then M.Sub(M.Mul(s.resR, s.a), M.Mul(s.resI, s.b)) else s.resR;
    var resI := if s.m % 2 == 1 then M.Sub(M.Mul(resR, s.b), M.Mul(s.a, s.resI)) else s.resI;
    var a := M.Sub(M.Mul(s.a, s.a), M.Mul(s.b, s.b));
    var b := M.Add(M.Mul(a, s.b), M.Mul(s.b, a));
    M.MulZero(s.resR);
    M.MulZero(s.a);
    M.MulZero(s.b);
    M.MulZero(resR);
    M.MulZero(a);
    M.SubZero(M.Mul(s.resR, s.a), M.Zero());
    M.SubZero(M.Mul(s.a, s.a), M.Zero());
    M.SubZero(M.Zero(), M.Zero());
    M.AddZero(M.Zero());
    ModPowState(resR, resI, a, b, s.m / 2)
  }

  /** The loop run until m reaches 0. */
  function ModPowRun(s: ModPowState): ModPowState
    decreases s.m
  {
    if s.m == 0 then s else ModPowRun(ModPowStep(s))
  }

  /** The value `x.modpow(n)` returns. */
  function ModPowAsWritten(x: Complex, n: nat): (r: Complex)
    ensures n == 0 ==> r == Identity()
    ensures x.im == 0 ==> r == Complex(M.Pow(x.re, n), 0)
  {
    ModPowOnReals(M.One(), x.re, n);
    M.MulOne(M.Pow(x.re, n));
    var s := ModPowRun(ModPowState(M.One(), M.Zero(), x.re, x.im, n));
    Complex(s.resR, s.resI)
  }

  /** On a real state the loop is plain square-and-multiply in the base field. */
  lemma {:induction false} ModPowOnReals(resR: M.Residue, a: M.Residue, m: nat)
    ensures ModPowRun(ModPowState(resR, 0, a, 0, m)).resR == M.Mul(resR, M.Pow(a, m))
    ensures ModPowRun(ModPowState(resR, 0, a, 0, m)).resI == 0
    decreases m
  {
    if m == 0 {
      M.MulOne(resR);
    } else {
      var aa := M.Mul(a, a);
      var resR' := if m % 2 == 1 then M.Mul(resR, a) else resR;
      assert ModPowStep(ModPowState(resR, 0, a, 0, m)) == ModPowState(resR', 0, aa, 0, m / 2) by {
        M.MulZero(0);
        M.MulZero(a);
        M.MulZero(resR');
        M.MulZero(aa);
        M.SubZero(M.Mul(resR, a), 0);
        M.SubZero(aa, 0);
        M.AddZero(0);
      }
      ModPowOnReals(resR', aa, m / 2);
      M.PowMulExponent(a, 2, m / 2);
      assert M.Pow(a, 2) == aa by {
        M.PowAdd(a, 1, 1);
        M.MulOne(a);
      }
      if m % 2 == 1 {
        M.PowAdd(a, 1, 2 * (m / 2));
        M.MulOne(a);
        M.MulAssociative(resR, a, M.Pow(aa, m / 2));
      }
    }
  }

  /**
    `modpow` with the statements of src/complexification.rs:131-153 in their
    order. It is the identity for n == 0 and the power r^n for a real element,
    but not x^n in general (see ModPowCounterexample).
  */
  method ModPow(x: Complex, n: nat) returns (r: Complex)
    ensures r == ModPowAsWritten(x, n)
    ensures n == 0 ==> r == Identity()
    ensures x.im == 0 ==> r == Complex(M.Pow(x.re, n), 0) == Pow(x, n)
  {
    var resR, resI := M.One(), M.Zero();
    var a, b := x.re, x.im;
    var m := n;
    while true
      invariant ModPowRun(ModPowState(resR, resI, a, b, m)) == ModPowRun(ModPowState(M.One(), M.Zero(), x.re, x.im, n))
      decreases m
    {
      if m == 0 {
        break;
      }
      if m % 2 == 1 {
        resR := M.Sub(M.Mul(resR, a), M.Mul(resI, b));
        resI := M.Sub(M.Mul(resR, b), M.Mul(a, resI));
      }
      a := M.Sub(M.Mul(a, a), M.Mul(b, b));
      b := M.Add(M.Mul(a, b), M.Mul(b, a));
      m := m / 2;
    }
    r := Complex(resR, resI);
    if x.im == 0 {
      ModPowOnReals(M.One(), x.re, n);
      M.MulOne(M.Pow(x.re, n));
      PowOfReal(x.re, n);
    }
  }

  /** modpow((0, 1), 1) is (0, 0), not i: the loop is not exponentiation. */
  lemma ModPowCounterexample()
    ensures ModPowAsWritten(Complex(0, 1), 1) == Zero()
    ensures Pow(Complex(0, 1), 1) == Complex(0, 1)
  {
    assert M.Sub(M.Mul(1, 0), M.Mul(0, 1)) == 0;
    assert M.Sub(M.Mul(0, 1), M.Mul(0, 0)) == 0;
    assert M.Sub(M.Mul(0, 0), M.Mul(1, 1)) == 6;
    assert M.Add(M.Mul(6, 1), M.Mul(1, 6)) == 5;
    assert ModPowStep(ModPowState(1, 0, 0, 1, 1)) == ModPowState(0, 0, 6, 5, 0);
    PowOne(Complex(0, 1));
  }

  /** The check of src/main.rs:264-275 fails at x = i: modpow(i, 48) is 4 + 2i. */
  lemma FermatTestFailsAsWritten()
    ensures ModPowAsWritten(Complex(0, 1), M.P * M.P - 1) == Complex(4, 2) != Identity()
  {
    FermatTestPasses1And2();
    FermatTestPasses3And4();
    FermatTestPasses5And6();
  }

  /** Passes 1 and 2 of the loop for i^48: the exponent is even, res stays 1. */
  lemma FermatTestPasses1And2()
    ensures ModPowRun(ModPowState(1, 0, 0, 1, 48)) == ModPowRun(ModPowState(1, 0, 4, 5, 12))
  {
    assert M.Sub(M.Mul(0, 0), M.Mul(1, 1)) == 6;
    assert M.Add(M.Mul(6, 1), M.Mul(1, 6)) == 5;
    assert ModPowStep(ModPowState(1, 0, 0, 1, 48)) == ModPowState(1, 0, 6, 5, 24);
    assert M.Sub(M.Mul(6, 6), M.Mul(5, 5)) == 4;
    assert M.Add(M.Mul(4, 5), M.Mul(5, 4)) == 5;
    assert ModPowStep(ModPowState(1, 0, 6, 5, 24)) == ModPowState(1, 0, 4, 5, 12);
  }

  /** Passes 3 and 4: the exponent is still even. */
  lemma FermatTestPasses3And4()
    ensures ModPowRun(ModPowState(1, 0, 4, 5, 12)) == ModPowRun(ModPowState(1, 0, 3, 6, 3))
  {
    assert M.Sub(M.Mul(4, 4), M.Mul(5, 5)) == 5;
    assert M.Add(M.Mul(5, 5), M.Mul(5, 5)) == 1;
    assert ModPowStep(ModPowState(1, 0, 4, 5, 12)) == ModPowState(1, 0, 5, 1, 6);
    assert M.Sub(M.Mul(5, 5), M.Mul(1, 1)) == 3;
    assert M.Add(M.Mul(3, 1), M.Mul(1, 3)) == 6;
    assert ModPowStep(ModPowState(1, 0, 5, 1, 6)) == ModPowState(1, 0, 3, 6, 3);
  }

  /** Passes 5 and 6: the exponent is odd and the base is multiplied into res. */
  lemma FermatTestPasses5And6()
    ensures ModPowRun(ModPowState(1, 0, 3, 6, 3)) == ModPowState(4, 2, 4, 5, 0)
  {
    assert M.Sub(M.Mul(1, 3), M.Mul(0, 6)) == 3;
    assert M.Sub(M.Mul(3, 6), M.Mul(3, 0)) == 4;
    assert M.Sub(M.Mul(3, 3), M.Mul(6, 6)) == 1;
    assert M.Add(M.Mul(1, 6), M.Mul(6, 1)) == 5;
    assert ModPowStep(ModPowState(1, 0, 3, 6, 3)) == ModPowState(3, 4, 1, 5, 1);
    assert M.Sub(M.Mul(3, 1), M.Mul(4, 5)) == 4;
    assert M.Sub(M.Mul(4, 5), M.Mul(1, 4)) == 2;
    assert M.Sub(M.Mul(1, 1), M.Mul(5, 5)) == 4;
    assert M.Add(M.Mul(4, 5), M.Mul(5, 4)) == 5;
    assert ModPowStep(ModPowState(3, 4, 1, 5, 1)) == ModPowState(4, 2, 4, 5, 0);
  }

  /**
    `inverse` (src/complexification.rs:173-179): None exactly for zero,
    otherwise modpow(P*P - 2). For a nonzero real element that is its
    inverse; for other elements it inherits the defect of modpow.
  */
  function Inverse(x: Complex): (r: Option<Complex>)
    ensures r.None? <==> x == Zero()
    ensures r.Some? ==> r.value == ModPowAsWritten(x, Characteristic() * Characteristic() - 2)
    ensures x.im == 0 && x != Zero() ==> r.Some? && Mul(x, r.value) == Identity()
  {
    if x.re == M.Zero() && x.im == M.Zero() then None
    else
      RealInverse(x);
      Some(ModPowAsWritten(x, Characteristic() * Characteristic() - 2))
  }

  lemma RealInverse(x: Complex)
    ensures x.im == 0 && x != Zero() ==> Mul(x, ModPowAsWritten(x, M.P * M.P - 2)) == Identity()
  {
    if x.im == 0 && x != Zero() {
      var r := x.re;
      ModPowOnReals(M.One(), r, 47);
      M.MulOne(M.Pow(r, 47));
      assert ModPowAsWritten(x, 47) == Complex(M.Pow(r, 47), 0);
      ScaleByReal(r, Complex(M.Pow(r, 47), 0));
      M.MulZero(r);
      M.PowAdd(r, 1, 47);
      M.MulOne(r);
      M.PowMulExponent(r, 6, 8);
      M.FermatLittle(r);
      M.PowOfOne(8);
    }
  }

  /** Once both accumulators are zero the loop keeps them zero. */
  lemma {:induction false} ModPowStaysZero(a: M.Residue, b: M.Residue, m: nat)
    ensures ModPowRun(ModPowState(0, 0, a, b, m)).resR == 0
    ensures ModPowRun(ModPowState(0, 0, a, b, m)).resI == 0
    decreases m
  {
    if m > 0 {
      var s := ModPowStep(ModPowState(0, 0, a, b, m));
      M.MulZero(a);
      M.MulZero(b);
      M.SubZero(0, 0);
      assert s.resR == 0 && s.resI == 0;
      ModPowStaysZero(s.a, s.b, m / 2);
    }
  }

  /** `inverse(i)` is `Some(0)`: for every odd n the first pass multiplies
      the accumulator by i into (0, 0), while the true inverse of i is -i. */
  lemma InverseOfIAsWritten(n: nat)
    requires n % 2 == 1
    ensures ModPowAsWritten(Complex(0, 1), n) == Zero()
    ensures Inverse(Complex(0, 1)) == Some(Zero())
    ensures Mul(Complex(0, 1), Complex(0, M.P - 1)) == Identity()
  {
    assert M.Sub(M.Mul(1, 0), M.Mul(0, 1)) == 0;
    assert M.Sub(M.Mul(0, 1), M.Mul(0, 0)) == 0;
    assert M.Sub(M.Mul(0, 0), M.Mul(1, 1)) == 6;
    assert M.Add(M.Mul(6, 1), M.Mul(1, 6)) == 5;
    assert ModPowStep(ModPowState(1, 0, 0, 1, n)) == ModPowState(0, 0, 6, 5, n / 2);
    ModPowStaysZero(6, 5, n / 2);
    assert ModPowStep(ModPowState(1, 0, 0, 1, 47)) == ModPowState(0, 0, 6, 5, 23);
    ModPowStaysZero(6, 5, 23);
  }

  // ---------------------------------------------------------------------------
  // modpow and inverse as intended
  // ---------------------------------------------------------------------------

  /**
    Exponentiation by repeated squaring on the (re, im) pair, with the
    previous values kept in temporaries so that each update reads the old
    state. It computes x^n.
  */
  method ModPowFixed(x: Complex, n: nat) returns (r: Complex)
    ensures r == Pow(x, n)
  {
    var resR, resI := M.One(), M.Zero();
    var a, b := x.re, x.im;
    var m := n;
    ghost var res, base := Identity(), x;
    MulIdentityUnit(Pow(x, n));
    while true
      invariant res == Complex(resR, resI) && base == Complex(a, b)
      invariant Mul(res, Pow(base, m)) == Pow(x, n)
      decreases m
    {
      if m == 0 {
        break;
      }
      SquareAndMultiplyStep(res, base, m);
      if m % 2 == 1 {
        var resR0 := resR;
        resR := M.Sub(M.Mul(resR, a), M.Mul(resI, b));
        resI := M.Add(M.Mul(resI, a), M.Mul(resR0, b));
        res := Mul(res, base);
      }
      var a0 := a;
      a := M.Sub(M.Mul(a, a), M.Mul(b, b));
      b := M.Add(M.Mul(b, a0), M.Mul(a0, b));
      base := Mul(base, base);
      m := m / 2;
    }
    MulIdentityUnit(res);
    r := Complex(resR, resI);
  }

  /** One pass of square-and-multiply keeps res * base^m unchanged. */
  lemma SquareAndMultiplyStep(res: Complex, base: Complex, m: nat)
    requires m > 0
    ensures m % 2 == 1 ==> Mul(Mul(res, base), Pow(Mul(base, base), m / 2)) == Mul(res, Pow(base, m))
    ensures m % 2 == 0 ==> Mul(res, Pow(Mul(base, base), m / 2)) == Mul(res, Pow(base, m))
  {
    PowSquare(base, m / 2);
    if m % 2 == 1 {
      PowAdd(base, 1, 2 * (m / 2));
      PowOne(base);
      MulAssociative(res, base, Pow(base, 2 * (m / 2)));
    }
  }

  /** The inverse that `inverse` is meant to return: x^(P*P - 2), a true
      two-sided inverse for every nonzero x. */
  function InverseFixed(x: Complex): (r: Option<Complex>)
    ensures r.None? <==> x == Zero()
    ensures r.Some? ==> Mul(x, r.value) == Identity() && Mul(r.value, x) == Identity()
  {
    if x.re == M.Zero() && x.im == M.Zero() then None
    else
      var e := Characteristic() * Characteristic() - 2;
      assert e == M.P * M.P - 2;
      var v := Pow(x, e);
      FermatExtension(x);
      MulCommutative(x, v);
      Some(v)
  }

  /**
    Every nonzero x of the field with P*P elements satisfies x^(P*P - 1) == 1,
    the property src/main.rs:264-275 checks. Write x = r*u with r real and
    u one of i, 1, 1 + i, ..., 1 + 6i; u^8 is real and nonzero, and Fermat's
    little theorem in the base field finishes the proof.
  */
  lemma FermatExtension(x: Complex)
    requires x != Zero()
    ensures Pow(x, M.P * M.P - 1) == Identity()
    ensures Mul(x, Pow(x, M.P * M.P - 2)) == Identity()
  {
    var r, u := Factor(x);
    var c := EighthPowerOfRepresentative(u);
    RealFortyEighthPower(r);
    RepresentativeFortyEighthPower(u, c);
    PowOfProduct(Complex(r, 0), u, 48);
    MulIdentityUnit(Identity());
    PowAdd(x, 1, 47);
    PowOne(x);
  }

  /** A nonzero real r has r^48 == (r^6)^8 == 1. */
  lemma RealFortyEighthPower(r: M.Residue)
    requires r != 0
    ensures Pow(Complex(r, 0), 48) == Identity()
  {
    PowOfReal(r, 48);
    M.PowMulExponent(r, 6, 8);
    M.FermatLittle(r);
    M.PowOfOne(8);
  }

  /** A u whose eighth power is a nonzero real c has u^48 == c^6 == 1. */
  lemma RepresentativeFortyEighthPower(u: Complex, c: M.Residue)
    requires c != 0 && Pow(u, 8) == Complex(c, 0)
    ensures Pow(u, 48) == Identity()
  {
    PowMulExponent(u, 8, 6);
    PowOfReal(c, 6);
    M.FermatLittle(c);
  }

  /** A nonzero x is r*i or r*(1 + k i) with r a nonzero real. */
  lemma Factor(x: Complex) returns (r: M.Residue, u: Complex)
    requires x != Zero()
    ensures r != 0 && x == Mul(Complex(r, 0), u)
    ensures u == Complex(0, 1) || u.re == 1
  {
    if x.re == 0 {
      r, u := x.im, Complex(0, 1);
      M.MulZero(r);
      M.MulOne(r);
    } else {
      var a, b := x.re, x.im;
      var q := M.Pow(a, M.P - 2);
      r, u := a, Complex(1, M.Mul(b, q));
      M.MulOne(a);
      M.InverseByFermat(a);
      calc {
        M.Mul(a, M.Mul(b, q));
        { M.MulAssociative(a, b, q); }
        M.Mul(M.Mul(a, b), q);
        { M.MulCommutative(a, b); }
        M.Mul(M.Mul(b, a), q);
        { M.MulAssociative(b, a, q); }
        M.Mul(b, M.Mul(a, q));
        { M.MulOne(b); }
        b;
      }
    }
    ScaleByReal(r, u);
  }

  /** u^8 for the representatives u: a nonzero real number. */
  lemma EighthPowerOfRepresentative(u: Complex) returns (c: M.Residue)
    requires u == Complex(0, 1) || u.re == 1
    ensures c != 0 && Pow(u, 8) == Complex(c, 0)
  {
    var u2 := Mul(u, u);
    var u4 := Mul(u2, u2);
    EighthPowerBySquaring(u);
    c := Mul(u4, u4).re;
    if u == Complex(0, 1) {
      EighthPowerAtI();
    } else if u.im == 0 {
      MulIdentityUnit(Identity());
    } else if u.im == 1 {
      assert u == Complex(1, 1);
      EighthPowerAt1();
    } else if u.im == 2 {
      assert u == Complex(1, 2);
      EighthPowerAt2();
    } else if u.im == 3 {
      assert u == Complex(1, 3);
      EighthPowerAt3();
    } else if u.im == 4 {
      assert u == Complex(1, 4);
      EighthPowerAt4();
    } else if u.im == 5 {
      assert u == Complex(1, 5);
      EighthPowerAt5();
    } else {
      assert u == Complex(1, 6);
      EighthPowerAt6();
    }
  }

  /** u^8 is u squared three times. */
  lemma EighthPowerBySquaring(u: Complex)
    ensures Pow(u, 8) == Mul(Mul(Mul(u, u), Mul(u, u)), Mul(Mul(u, u), Mul(u, u)))
  {
    var u2 := Mul(u, u);
    var u4 := Mul(u2, u2);
    PowMulExponent(u, 2, 4);
    PowMulExponent(Pow(u, 2), 2, 2);
    PowTwo(u);
    PowTwo(u2);
    PowTwo(u4);
  }

  // The successive squares u^2, u^4, u^8 of each representative u, on literals.

  lemma EighthPowerAtI()
    ensures Mul(Complex(0, 1), Complex(0, 1)) == Complex(6, 0)
    ensures Mul(Complex(6, 0), Complex(6, 0)) == Complex(1, 0)
    ensures Mul(Complex(1, 0), Complex(1, 0)) == Complex(1, 0)
  {
    assert M.Sub(M.Mul(0, 0), M.Mul(1, 1)) == 6 && M.Add(M.Mul(1, 0), M.Mul(0, 1)) == 0;
    assert M.Sub(M.Mul(6, 6), M.Mul(0, 0)) == 1 && M.Add(M.Mul(0, 6), M.Mul(6, 0)) == 0;
    assert M.Sub(M.Mul(1, 1), M.Mul(0, 0)) == 1 && M.Add(M.Mul(0, 1), M.Mul(1, 0)) == 0;
  }

  lemma EighthPowerAt1()
    ensures Mul(Complex(1, 1), Complex(1, 1)) == Complex(0, 2)
    ensures Mul(Complex(0, 2), Complex(0, 2)) == Complex(3, 0)
    ensures Mul(Complex(3, 0), Complex(3, 0)) == Complex(2, 0)
  {
    assert M.Sub(M.Mul(1, 1), M.Mul(1, 1)) == 0 && M.Add(M.Mul(1, 1), M.Mul(1, 1)) == 2;
    assert M.Sub(M.Mul(0, 0), M.Mul(2, 2)) == 3 && M.Add(M.Mul(2, 0), M.Mul(0, 2)) == 0;
    assert M.Sub(M.Mul(3, 3), M.Mul(0, 0)) == 2 && M.Add(M.Mul(0, 3), M.Mul(3, 0)) == 0;
  }

  lemma EighthPowerAt2()
    ensures Mul(Complex(1, 2), Complex(1, 2)) == Complex(4, 4)
    ensures Mul(Complex(4, 4), Complex(4, 4)) == Complex(0, 4)
    ensures Mul(Complex(0, 4), Complex(0, 4)) == Complex(5, 0)
  {
    assert M.Sub(M.Mul(1, 1), M.Mul(2, 2)) == 4 && M.Add(M.Mul(2, 1), M.Mul(1, 2)) == 4;
    assert M.Sub(M.Mul(4, 4), M.Mul(4, 4)) == 0 && M.Add(M.Mul(4, 4), M.Mul(4, 4)) == 4;
    assert M.Sub(M.Mul(0, 0), M.Mul(4, 4)) == 5 && M.Add(M.Mul(4, 0), M.Mul(0, 4)) == 0;
  }

  lemma EighthPowerAt3()
    ensures Mul(Complex(1, 3), Complex(1, 3)) == Complex(6, 6)
    ensures Mul(Complex(6, 6), Complex(6, 6)) == Complex(0, 2)
    ensures Mul(Complex(0, 2), Complex(0, 2)) == Complex(3, 0)
  {
    assert M.Sub(M.Mul(1, 1), M.Mul(3, 3)) == 6 && M.Add(M.Mul(3, 1), M.Mul(1, 3)) == 6;
    assert M.Sub(M.Mul(6, 6), M.Mul(6, 6)) == 0 && M.Add(M.Mul(6, 6), M.Mul(6, 6)) == 2;
    assert M.Sub(M.Mul(0, 0), M.Mul(2, 2)) == 3 && M.Add(M.Mul(2, 0), M.Mul(0, 2)) == 0;
  }

  lemma EighthPowerAt4()
    ensures Mul(Complex(1, 4), Complex(1, 4)) == Complex(6, 1)
    ensures Mul(Complex(6, 1), Complex(6, 1)) == Complex(0, 5)
    ensures Mul(Complex(0, 5), Complex(0, 5)) == Complex(3, 0)
  {
    assert M.Sub(M.Mul(1, 1), M.Mul(4, 4)) == 6 && M.Add(M.Mul(4, 1), M.Mul(1, 4)) == 1;
    assert M.Sub(M.Mul(6, 6), M.Mul(1, 1)) == 0 && M.Add(M.Mul(1, 6), M.Mul(6, 1)) == 5;
    assert M.Sub(M.Mul(0, 0), M.Mul(5, 5)) == 3 && M.Add(M.Mul(5, 0), M.Mul(0, 5)) == 0;
  }

  lemma EighthPowerAt5()
    ensures Mul(Complex(1, 5), Complex(1, 5)) == Complex(4, 3)
    ensures Mul(Complex(4, 3), Complex(4, 3)) == Complex(0, 3)
    ensures Mul(Complex(0, 3), Complex(0, 3)) == Complex(5, 0)
  {
    assert M.Sub(M.Mul(1, 1), M.Mul(5, 5)) == 4 && M.Add(M.Mul(5, 1), M.Mul(1, 5)) == 3;
    assert M.Sub(M.Mul(4, 4), M.Mul(3, 3)) == 0 && M.Add(M.Mul(3, 4), M.Mul(4, 3)) == 3;
    assert M.Sub(M.Mul(0, 0), M.Mul(3, 3)) == 5 && M.Add(M.Mul(3, 0), M.Mul(0, 3)) == 0;
  }

  lemma EighthPowerAt6()
    ensures Mul(Complex(1, 6), Complex(1, 6)) == Complex(0, 5)
    ensures Mul(Complex(0, 5), Complex(0, 5)) == Complex(3, 0)
    ensures Mul(Complex(3, 0), Complex(3, 0)) == Complex(2, 0)
  {
    assert M.Sub(M.Mul(1, 1), M.Mul(6, 6)) == 0 && M.Add(M.Mul(6, 1), M.Mul(1, 6)) == 5;
    assert M.Sub(M.Mul(0, 0), M.Mul(5, 5)) == 3 && M.Add(M.Mul(5, 0), M.Mul(0, 5)) == 0;
    assert M.Sub(M.Mul(3, 3), M.Mul(0, 0)) == 2 && M.Add(M.Mul(0, 3), M.Mul(3, 0)) == 0;
  }
}
