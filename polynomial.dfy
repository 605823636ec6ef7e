/**
  Polynomials over F_49 as their coefficient sequences, constant term first,
  as `Polynomial::new(&v)` is called in src/main.rs:53-68. The Rust module
  `polynomial` is not part of this model; `Evaluate` is the meaning its
  `evaluate` is taken to have, the sum of c_i * x^i.
*/
module Polynomials {
  import C = Complexification

  type Polynomial = seq<C.Complex>

  /** c_0 + c_1 x + ... + c_(n-1) x^(n-1). */
  function Evaluate(c: Polynomial, x: C.Complex): C.Complex
    decreases |c|
  {
    if |c| == 0 then C.Zero()
    else C.Add(Evaluate(c[..|c| - 1], x), C.Mul(c[|c| - 1], C.Pow(x, |c| - 1)))
  }

  /** x * x * x, the cube as the curve equation writes it. */
  function Cube(x: C.Complex): C.Complex {
    C.Mul(C.Mul(x, x), x)
  }

  /** Appending a coefficient adds one more term. */
  lemma EvaluateAppend(c: Polynomial, k: C.Complex, x: C.Complex)
    ensures Evaluate(c + [k], x) == C.Add(Evaluate(c, x), C.Mul(k, C.Pow(x, |c|)))
  {
    assert (c + [k])[..|c|] == c;
  }

  /** The cubic [b, a, 0, 1] evaluates to x^3 + a x + b. */
  lemma EvaluateCubic(a: C.Complex, b: C.Complex, x: C.Complex)
    ensures Evaluate([b, a, C.Zero(), C.Identity()], x) == C.Add(C.Add(Cube(x), C.Mul(a, x)), b)
  {
    var ax := C.Mul(a, x);
    var x3 := Cube(x);
    assert Evaluate([b], x) == b by {
      assert [b] == [] + [b];
      EvaluateAppend([], b, x);
      C.MulIdentityUnit(b);
      C.AddZeroIdentity(b);
    }
    assert Evaluate([b, a], x) == C.Add(b, ax) by {
      assert [b, a] == [b] + [a];
      EvaluateAppend([b], a, x);
      C.PowOne(x);
    }
    assert Evaluate([b, a, C.Zero()], x) == C.Add(b, ax) by {
      assert [b, a, C.Zero()] == [b, a] + [C.Zero()];
      EvaluateAppend([b, a], C.Zero(), x);
      C.MulZero(C.Pow(x, 2));
      C.AddZeroIdentity(C.Add(b, ax));
    }
    assert Evaluate([b, a, C.Zero(), C.Identity()], x) == C.Add(C.Add(b, ax), x3) by {
      assert [b, a, C.Zero(), C.Identity()] == [b, a, C.Zero()] + [C.Identity()];
      EvaluateAppend([b, a, C.Zero()], C.Identity(), x);
      C.MulIdentityUnit(C.Pow(x, 3));
      C.PowAdd(x, 2, 1);
      C.PowTwo(x);
      C.PowOne(x);
    }
    calc {
      C.Add(C.Add(b, ax), x3);
      { C.AddCommutative(b, ax); }
      C.Add(C.Add(ax, b), x3);
      { C.AddAssociative(ax, b, x3); C.AddCommutative(b, x3); }
      C.Add(ax, C.Add(x3, b));
      { C.AddAssociative(ax, x3, b); }
      C.Add(C.Add(ax, x3), b);
      { C.AddCommutative(ax, x3); }
      C.Add(C.Add(x3, ax), b);
    }
  }

  /** The quadratic [0, 0, 1] evaluates to y * y. */
  lemma EvaluateSquare(y: C.Complex)
    ensures Evaluate([C.Zero(), C.Zero(), C.Identity()], y) == C.Mul(y, y)
  {
    var z := C.Zero();
    assert Evaluate([z], y) == z by {
      assert [z] == [] + [z];
      EvaluateAppend([], z, y);
      C.MulZero(C.Pow(y, 0));
      C.AddZeroIdentity(z);
    }
    assert Evaluate([z, z], y) == z by {
      assert [z, z] == [z] + [z];
      EvaluateAppend([z], z, y);
      C.MulZero(C.Pow(y, 1));
      C.AddZeroIdentity(z);
    }
    assert [z, z, C.Identity()] == [z, z] + [C.Identity()];
    EvaluateAppend([z, z], C.Identity(), y);
    C.MulIdentityUnit(C.Pow(y, 2));
    C.PowTwo(y);
    C.AddZeroIdentity(C.Mul(y, y));
  }
}
