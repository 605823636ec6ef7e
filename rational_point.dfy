/**
  Points of y^2 = x^3 + ax + b over F_49 (src/rational_point.rs): an affine
  point `Point(x, y)` or the point at infinity `O`, with the chord-and-tangent
  addition of `add_rational_points` and the negation of the `Neg` impl.
  Division goes through `inverse().unwrap()`, so a sum whose denominator is
  zero panics in the source; here that is the precondition `Addable`.
*/
module RationalPoints {
  import opened Wrappers
  import M = ModInt
  import C = Complexification

  /** `RationalPoint<Complex<ModInt<P>>>`; `RationalPoint::new(x, y)` is `Point(x, y)`. */
  datatype RationalPoint = Point(x: C.Complex, y: C.Complex) | O

  /** `id + id` and `id + id + id`, the constants 2 and 3 built from the identity. */
  function Two(): C.Complex {
    C.Add(C.Identity(), C.Identity())
  }

  function Three(): C.Complex {
    C.Add(C.Add(C.Identity(), C.Identity()), C.Identity())
  }

  /** y^2 == x^3 + ax + b, or the point at infinity. */
  predicate OnCurve(p: RationalPoint, a: C.Complex, b: C.Complex) {
    p == O || C.Mul(p.y, p.y) == C.Add(C.Add(C.Mul(C.Mul(p.x, p.x), p.x), C.Mul(a, p.x)), b)
  }

  /**
    The sum does not reach an `unwrap` of `None`: doubling needs 2*y1
    invertible, distinct x coordinates need x2 - x1 invertible. The only
    pairs that panic are the doubling of a point with y == 0; distinct x
    coordinates always have an invertible difference.
  */
  predicate Addable(p: RationalPoint, q: RationalPoint)
    ensures Addable(p, q) <==> !(p.Point? && p == q && p.y == C.Zero())
  {
    p == O || q == O ||
    (TwoTimesZero(p.y);
     M.SubZero(q.x.re, p.x.re);
     M.SubZero(q.x.im, p.x.im);
     if p.x == q.x then p.y != q.y || C.Inverse(C.Mul(Two(), p.y)).Some?
     else C.Inverse(C.Sub(q.x, p.x)).Some?)
  }

  /** (3 x1 x1 + a) * (2 y1)^-1 with the inverse of src/complexification.rs:173-179. */
  function TangentSlope(x1: C.Complex, y1: C.Complex, a: C.Complex): (m: C.Complex)
    requires C.Inverse(C.Mul(Two(), y1)).Some?
    ensures y1.im == 0 ==> C.Mul(m, C.Mul(Two(), y1)) == C.Add(C.Mul(C.Mul(Three(), x1), x1), a)
  {
    var d := C.Mul(Two(), y1);
    var n := C.Add(C.Mul(C.Mul(Three(), x1), x1), a);
    var v := C.Inverse(d).value;
    assert Two() == C.Complex(2, 0);
    C.MulCommutative(d, v);
    C.MulAssociative(n, v, d);
    C.MulIdentityUnit(n);
    C.Mul(C.Add(C.Mul(C.Mul(Three(), x1), x1), a), C.Inverse(C.Mul(Two(), y1)).value)
  }

  /** (y2 - y1) * (x2 - x1)^-1 with the inverse of src/complexification.rs:173-179. */
  function SecantSlope(x1: C.Complex, y1: C.Complex, x2: C.Complex, y2: C.Complex): (m: C.Complex)
    requires C.Inverse(C.Sub(x2, x1)).Some?
    ensures C.Sub(x2, x1).im == 0 ==> C.Mul(m, C.Sub(x2, x1)) == C.Sub(y2, y1)
  {
    var d := C.Sub(x2, x1);
    var v := C.Inverse(d).value;
    C.MulCommutative(d, v);
    C.MulAssociative(C.Sub(y2, y1), v, d);
    C.MulIdentityUnit(C.Sub(y2, y1));
    C.Mul(C.Sub(y2, y1), C.Inverse(C.Sub(x2, x1)).value)
  }

  /** The third point of the line of slope m through (x1, y1), reflected:
      (m*m - x1 - x2, m*(x1 - m*m + x1 + x2) - y1), as both branches write it
      (the tangent branch with x2 = x1). */
  function Chord(x1: C.Complex, y1: C.Complex, x2: C.Complex, m: C.Complex): (r: RationalPoint)
    ensures r.Point? && r.x == C.Sub(C.Sub(C.Mul(m, m), x1), x2)
    ensures r.y == C.Sub(C.Mul(m, C.Sub(x1, r.x)), y1)
  {
    var mm := C.Mul(m, m);
    ReflectedDifference(x1.re, mm.re, x2.re);
    ReflectedDifference(x1.im, mm.im, x2.im);
    Point(C.Sub(C.Sub(C.Mul(m, m), x1), x2),
          C.Sub(C.Mul(m, C.Add(C.Add(C.Sub(x1, C.Mul(m, m)), x1), x2)), y1))
  }

  /**
    `p.add_rational_points(&q, a)`: O is the identity, a vertical pair sums
    to O, equal points use the tangent and distinct x the secant.
  */
  function AddRationalPoints(p: RationalPoint, q: RationalPoint, a: C.Complex): (r: RationalPoint)
    requires Addable(p, q)
    ensures p == O ==> r == q
    ensures q == O ==> r == p
    ensures r == O <==> (p == O && q == O) || (p.Point? && q.Point? && p.x == q.x && p.y != q.y)
  {
    match p
    case O => q
    case Point(x1, y1) =>
      match q
      case O => Point(x1, y1)
      case Point(x2, y2) =>
        if x1 == x2 then
          if y1 != y2 then O
          else Chord(x1, y1, x1, TangentSlope(x1, y1, a))
        else Chord(x1, y1, x2, SecantSlope(x1, y1, x2, y2))
  }

  /**
    The operator `p + q` of src/rational_point.rs:28-56. Its body repeats the
    one of `add_rational_points` with `T::a()` for a, so the two agree on
    every pair.
  */
  function OperatorAdd(p: RationalPoint, q: RationalPoint, curveA: C.Complex): (r: RationalPoint)
    requires Addable(p, q)
    ensures r == AddRationalPoints(p, q, curveA)
  {
    match p
    case O => q
    case Point(x1, y1) =>
      match q
      case O => Point(x1, y1)
      case Point(x2, y2) =>
        if x1 == x2 then
          if y1 != y2 then O
          else Chord(x1, y1, x1, TangentSlope(x1, y1, curveA))
        else Chord(x1, y1, x2, SecantSlope(x1, y1, x2, y2))
  }

  /** `-p`: O stays O, Point(x, y) becomes Point(x, -y). */
  function Neg(p: RationalPoint): (r: RationalPoint)
    ensures r == O <==> p == O
    ensures r.Point? ==> r.x == p.x && C.Add(r.y, p.y) == C.Zero()
  {
    match p
    case O => p
    case Point(x, y) =>
      C.AddNegIsZero(y);
      Point(x, C.Neg(y))
  }

  // ---------------------------------------------------------------------------
  // Properties of the group law
  // ---------------------------------------------------------------------------

  lemma NegInvolution(p: RationalPoint)
    ensures Neg(Neg(p)) == p
  {
    if p.Point? {
      C.NegInvolution(p.y);
    }
  }

  /** 2*y is zero exactly when y is, since P is odd. */
  lemma TwoTimesZero(y: C.Complex)
    ensures C.Mul(Two(), y) == C.Zero() <==> y == C.Zero()
  {
    assert Two() == C.Complex(2, 0);
    C.ScaleByReal(2, y);
  }

  /** A point plus its negation is O whenever the sum is defined. */
  lemma AddNegIsO(p: RationalPoint, a: C.Complex)
    requires p.Point? ==> p.y != C.Zero()
    ensures Addable(p, Neg(p)) && AddRationalPoints(p, Neg(p), a) == O
  {
    if p.Point? {
      M.DoubleIsZero(p.y.re);
      M.DoubleIsZero(p.y.im);
    }
  }

  /** x1 - m*m + x1 + x2 is x1 - x3 for x3 = m*m - x1 - x2, component by component:
      both sides are the residue of the same integer. */
  lemma ReflectedDifference(x1: M.Residue, mm: M.Residue, x2: M.Residue)
    ensures M.Add(M.Add(M.Sub(x1, mm), x1), x2) == M.Sub(x1, M.Sub(M.Sub(mm, x1), x2))
  {
    var s1 := M.Sub(x1, mm);
    var s2 := M.Add(s1, x1);
    var s3 := M.Add(s2, x2);
    var q1, q2, q3 := (x1 - mm) / M.P, (s1 + x1) / M.P, (s2 + x2) / M.P;
    assert x1 - mm == M.P * q1 + s1;
    assert s1 + x1 == M.P * q2 + s2;
    assert s2 + x2 == M.P * q3 + s3;
    var t1 := M.Sub(mm, x1);
    var t2 := M.Sub(t1, x2);
    var t3 := M.Sub(x1, t2);
    var k1, k2, k3 := (mm - x1) / M.P, (t1 - x2) / M.P, (x1 - t2) / M.P;
    assert mm - x1 == M.P * k1 + t1;
    assert t1 - x2 == M.P * k2 + t2;
    assert x1 - t2 == M.P * k3 + t3;
    var u := x1 - mm + x1 + x2;
    M.ModUnique(u, q1 + q2 + q3, s3);
    M.ModUnique(u, k3 - k1 - k2, t3);
  }

  /** m*m - x1 - x1 is m*m - 2*x1, component by component. */
  lemma DoubledDifference(x1: M.Residue, mm: M.Residue)
    ensures M.Sub(M.Sub(mm, x1), x1) == M.Sub(mm, M.Add(x1, x1))
  {
    var t1 := M.Sub(mm, x1);
    var t2 := M.Sub(t1, x1);
    var k1, k2 := (mm - x1) / M.P, (t1 - x1) / M.P;
    assert mm - x1 == M.P * k1 + t1;
    assert t1 - x1 == M.P * k2 + t2;
    var s1 := M.Add(x1, x1);
    var s2 := M.Sub(mm, s1);
    var j1, j2 := (x1 + x1) / M.P, (mm - s1) / M.P;
    assert x1 + x1 == M.P * j1 + s1;
    assert mm - s1 == M.P * j2 + s2;
    var u := mm - x1 - x1;
    M.ModUnique(u, k1 + k2, t2);
    M.ModUnique(u, j2 - j1, s2);
  }

  /** Distinct x: the secant slope, x3 = m^2 - x1 - x2 and y3 = m*(x1 - x3) - y1. */
  lemma SecantRule(x1: C.Complex, y1: C.Complex, x2: C.Complex, y2: C.Complex, a: C.Complex)
    requires x1 != x2
    ensures Addable(Point(x1, y1), Point(x2, y2))
    ensures var m := SecantSlope(x1, y1, x2, y2);
            var r := AddRationalPoints(Point(x1, y1), Point(x2, y2), a);
            r == Point(r.x, r.y) &&
            r.x == C.Sub(C.Sub(C.Mul(m, m), x1), x2) &&
            r.y == C.Sub(C.Mul(m, C.Sub(x1, r.x)), y1)
  {
  }

  /** Doubling: the tangent slope, x3 = m^2 - 2*x1 and y3 = m*(x1 - x3) - y1. */
  lemma TangentRule(x1: C.Complex, y1: C.Complex, a: C.Complex)
    requires y1 != C.Zero()
    ensures Addable(Point(x1, y1), Point(x1, y1))
    ensures var m := TangentSlope(x1, y1, a);
            var r := AddRationalPoints(Point(x1, y1), Point(x1, y1), a);
            r == Point(r.x, r.y) &&
            r.x == C.Sub(C.Mul(m, m), C.Add(x1, x1)) &&
            r.y == C.Sub(C.Mul(m, C.Sub(x1, r.x)), y1)
  {
    var m := TangentSlope(x1, y1, a);
    var mm := C.Mul(m, m);
    DoubledDifference(x1.re, mm.re);
    DoubledDifference(x1.im, mm.im);
  }

  // ---------------------------------------------------------------------------
  // The group law with the corrected inverse
  // ---------------------------------------------------------------------------

  function TangentSlopeFixed(x1: C.Complex, y1: C.Complex, a: C.Complex): (m: C.Complex)
    requires y1 != C.Zero()
    ensures C.Mul(m, C.Mul(Two(), y1)) == C.Add(C.Mul(C.Mul(Three(), x1), x1), a)
  {
    TwoTimesZero(y1);
    var d := C.Mul(Two(), y1);
    var n := C.Add(C.Mul(C.Mul(Three(), x1), x1), a);
    var v := C.InverseFixed(d).value;
    C.MulAssociative(n, v, d);
    C.MulIdentityUnit(n);
    C.Mul(n, v)
  }

  function SecantSlopeFixed(x1: C.Complex, y1: C.Complex, x2: C.Complex, y2: C.Complex): (m: C.Complex)
    requires x1 != x2
    ensures C.Mul(m, C.Sub(x2, x1)) == C.Sub(y2, y1)
  {
    M.SubZero(x2.re, x1.re);
    M.SubZero(x2.im, x1.im);
    var d := C.Sub(x2, x1);
    var v := C.InverseFixed(d).value;
    C.MulAssociative(C.Sub(y2, y1), v, d);
    C.MulIdentityUnit(C.Sub(y2, y1));
    C.Mul(C.Sub(y2, y1), v)
  }

  /**
    Point addition as intended: the slopes divide by a true inverse, so the
    secant slope m satisfies m*(x2 - x1) == y2 - y1 and the tangent slope
    m*(2 y1) == 3 x1^2 + a. The case analysis and the formulas are unchanged.
  */
  function AddRationalPointsFixed(p: RationalPoint, q: RationalPoint, a: C.Complex): (r: RationalPoint)
    requires Addable(p, q)
    ensures p == O ==> r == q
    ensures q == O ==> r == p
    ensures r == O <==> (p == O && q == O) || (p.Point? && q.Point? && p.x == q.x && p.y != q.y)
    ensures p.Point? && q.Point? && p.x != q.x ==>
              r == Chord(p.x, p.y, q.x, SecantSlopeFixed(p.x, p.y, q.x, q.y))
    ensures p.Point? && p == q && p.y != C.Zero() ==>
              r == Chord(p.x, p.y, p.x, TangentSlopeFixed(p.x, p.y, a))
  {
    match p
    case O => q
    case Point(x1, y1) =>
      match q
      case O => Point(x1, y1)
      case Point(x2, y2) =>
        if x1 == x2 then
          if y1 != y2 then O
          else Chord(x1, y1, x1, TangentSlopeFixed(x1, y1, a))
        else Chord(x1, y1, x2, SecantSlopeFixed(x1, y1, x2, y2))
  }

  /** The inverse of an element is unique. */
  lemma InverseUnique(x: C.Complex, v: C.Complex, w: C.Complex)
    requires C.Mul(x, v) == C.Identity() && C.Mul(x, w) == C.Identity()
    ensures v == w
  {
    calc {
      v;
      { C.MulIdentityUnit(v); }
      C.Mul(v, C.Identity());
      C.Mul(v, C.Mul(x, w));
      { C.MulAssociative(v, x, w); }
      C.Mul(C.Mul(v, x), w);
      { C.MulCommutative(v, x); }
      C.Mul(C.Identity(), w);
      { C.MulIdentityUnit(w); }
      w;
    }
  }

  /**
    On y^2 = x^3 + 1, P = (0, 1) and Q = (i, 3 + i) are on the curve. Because
    inverse(i) is 0, `add_rational_points` returns (-i, -1), which is not;
    with the true inverse -i the sum is (4 + 2i, 5 + 6i), which is.
  */
  lemma SumLeavesCurveAsWritten()
    ensures var a, b := C.Zero(), C.Identity();
            var p, q := Point(C.Complex(0, 0), C.Complex(1, 0)), Point(C.Complex(0, 1), C.Complex(3, 1));
            OnCurve(p, a, b) && OnCurve(q, a, b) && Addable(p, q) &&
            AddRationalPoints(p, q, a) == Point(C.Complex(0, 6), C.Complex(6, 0)) &&
            !OnCurve(AddRationalPoints(p, q, a), a, b) &&
            AddRationalPointsFixed(p, q, a) == Point(C.Complex(4, 2), C.Complex(5, 6)) &&
            OnCurve(AddRationalPointsFixed(p, q, a), a, b)
  {
    ExamplePointsOnCurve();
    ExampleSumAsWritten();
    ExampleSumFixed();
  }

  lemma ExamplePointsOnCurve()
    ensures OnCurve(Point(C.Complex(0, 0), C.Complex(1, 0)), C.Zero(), C.Identity())
    ensures OnCurve(Point(C.Complex(0, 1), C.Complex(3, 1)), C.Zero(), C.Identity())
    ensures !OnCurve(Point(C.Complex(0, 6), C.Complex(6, 0)), C.Zero(), C.Identity())
    ensures OnCurve(Point(C.Complex(4, 2), C.Complex(5, 6)), C.Zero(), C.Identity())
  {
    ExampleSecondPoint();
    ExampleSumOffCurve();
    ExampleSumOnCurve();
  }

  lemma ExampleSecondPoint()
    ensures OnCurve(Point(C.Complex(0, 1), C.Complex(3, 1)), C.Zero(), C.Identity())
  {
    assert M.Sub(M.Mul(0, 0), M.Mul(1, 1)) == 6 && M.Add(M.Mul(1, 0), M.Mul(0, 1)) == 0;
    assert C.Mul(C.Complex(0, 1), C.Complex(0, 1)) == C.Complex(6, 0);
    assert M.Sub(M.Mul(6, 0), M.Mul(0, 1)) == 0 && M.Add(M.Mul(0, 0), M.Mul(6, 1)) == 6;
    assert C.Mul(C.Mul(C.Complex(0, 1), C.Complex(0, 1)), C.Complex(0, 1)) == C.Complex(0, 6);
    assert M.Sub(M.Mul(3, 3), M.Mul(1, 1)) == 1 && M.Add(M.Mul(1, 3), M.Mul(3, 1)) == 6;
    assert C.Mul(C.Complex(3, 1), C.Complex(3, 1)) == C.Complex(1, 6);
  }

  lemma ExampleSumOffCurve()
    ensures !OnCurve(Point(C.Complex(0, 6), C.Complex(6, 0)), C.Zero(), C.Identity())
  {
    assert M.Sub(M.Mul(0, 0), M.Mul(6, 6)) == 6 && M.Add(M.Mul(6, 0), M.Mul(0, 6)) == 0;
    assert C.Mul(C.Complex(0, 6), C.Complex(0, 6)) == C.Complex(6, 0);
    assert M.Sub(M.Mul(6, 0), M.Mul(0, 6)) == 0 && M.Add(M.Mul(0, 0), M.Mul(6, 6)) == 1;
    assert C.Mul(C.Mul(C.Complex(0, 6), C.Complex(0, 6)), C.Complex(0, 6)) == C.Complex(0, 1);
  }

  lemma ExampleSumOnCurve()
    ensures OnCurve(Point(C.Complex(4, 2), C.Complex(5, 6)), C.Zero(), C.Identity())
  {
    assert M.Sub(M.Mul(4, 4), M.Mul(2, 2)) == 5 && M.Add(M.Mul(2, 4), M.Mul(4, 2)) == 2;
    assert C.Mul(C.Complex(4, 2), C.Complex(4, 2)) == C.Complex(5, 2);
    assert M.Sub(M.Mul(5, 4), M.Mul(2, 2)) == 2 && M.Add(M.Mul(2, 4), M.Mul(5, 2)) == 4;
    assert C.Mul(C.Complex(5, 2), C.Complex(4, 2)) == C.Complex(2, 4);
    assert M.Sub(M.Mul(5, 5), M.Mul(6, 6)) == 3 && M.Add(M.Mul(6, 5), M.Mul(5, 6)) == 4;
    assert C.Mul(C.Complex(5, 6), C.Complex(5, 6)) == C.Complex(3, 4);
  }

  lemma ExampleSumAsWritten()
    ensures Addable(Point(C.Complex(0, 0), C.Complex(1, 0)), Point(C.Complex(0, 1), C.Complex(3, 1)))
    ensures AddRationalPoints(Point(C.Complex(0, 0), C.Complex(1, 0)), Point(C.Complex(0, 1), C.Complex(3, 1)), C.Zero())
         == Point(C.Complex(0, 6), C.Complex(6, 0))
  {
    var x1, y1, x2, y2 := C.Complex(0, 0), C.Complex(1, 0), C.Complex(0, 1), C.Complex(3, 1);
    assert C.Sub(x2, x1) == x2;
    C.InverseOfIAsWritten(1);
    assert SecantSlope(x1, y1, x2, y2) == C.Zero();
    assert Chord(x1, y1, x2, C.Zero()) == Point(C.Complex(0, 6), C.Complex(6, 0));
  }

  lemma ExampleSumFixed()
    ensures Addable(Point(C.Complex(0, 0), C.Complex(1, 0)), Point(C.Complex(0, 1), C.Complex(3, 1)))
    ensures AddRationalPointsFixed(Point(C.Complex(0, 0), C.Complex(1, 0)), Point(C.Complex(0, 1), C.Complex(3, 1)), C.Zero())
         == Point(C.Complex(4, 2), C.Complex(5, 6))
  {
    ExampleSlopeFixed();
    ChordExample();
  }

  /** The true slope from (0, 1) to (i, 3 + i) is (2 + i) * (-i) = 1 + 5i. */
  lemma ExampleSlopeFixed()
    ensures SecantSlopeFixed(C.Complex(0, 0), C.Complex(1, 0), C.Complex(0, 1), C.Complex(3, 1)) == C.Complex(1, 5)
  {
    assert M.Sub(M.Mul(0, 0), M.Mul(1, 6)) == 1 && M.Add(M.Mul(1, 0), M.Mul(0, 6)) == 0;
    assert M.Sub(M.Mul(2, 0), M.Mul(1, 6)) == 1 && M.Add(M.Mul(1, 0), M.Mul(2, 6)) == 5;
    SecantSlopeByInverse(C.Complex(0, 0), C.Complex(1, 0), C.Complex(0, 1), C.Complex(3, 1), C.Complex(0, 6));
  }

  /** The fixed secant slope is (y2 - y1) * w for any w with (x2 - x1) * w == 1. */
  lemma SecantSlopeByInverse(x1: C.Complex, y1: C.Complex, x2: C.Complex, y2: C.Complex, w: C.Complex)
    requires x1 != x2 && C.Mul(C.Sub(x2, x1), w) == C.Identity()
    ensures SecantSlopeFixed(x1, y1, x2, y2) == C.Mul(C.Sub(y2, y1), w)
  {
    var d := C.Sub(x2, x1);
    InverseUnique(d, C.InverseFixed(d).value, w);
  }

  lemma ChordExample()
    ensures Chord(C.Complex(0, 0), C.Complex(1, 0), C.Complex(0, 1), C.Complex(1, 5))
         == Point(C.Complex(4, 2), C.Complex(5, 6))
  {
    assert M.Sub(M.Mul(1, 1), M.Mul(5, 5)) == 4 && M.Add(M.Mul(5, 1), M.Mul(1, 5)) == 3;
    assert C.Mul(C.Complex(1, 5), C.Complex(1, 5)) == C.Complex(4, 3);
    assert M.Sub(M.Mul(1, 3), M.Mul(5, 5)) == 6 && M.Add(M.Mul(5, 3), M.Mul(1, 5)) == 6;
    assert C.Mul(C.Complex(1, 5), C.Complex(3, 5)) == C.Complex(6, 6);
  }
}
