/**
 The affine group law on y^2 + xy = x^3 + ax^2 + b over a field of characteristic 2
 (section 2.2.2 of SEC 1), and what it keeps.
 */
module Curve {
  import opened Fermat
  import opened Field

  datatype Point = Infinity | Affine(x: nat, y: nat)

  datatype Curve = Curve(F: Field, a: nat, b: nat)

  ghost predicate IsCurve(E: Curve) {
    IsField(E.F) && E.F.Elem(E.a) && E.F.Elem(E.b)
  }

  predicate Equation(E: Curve, x: nat, y: nat) {
    E.F.add(E.F.Sq(y), E.F.Mul(x, y))
    == E.F.add(E.F.add(E.F.Mul(x, E.F.Sq(x)), E.F.Mul(E.a, E.F.Sq(x))), E.b)
  }

  predicate OnCurve(E: Curve, P: Point) {
    P.Affine? ==> E.F.Elem(P.x) && E.F.Elem(P.y) && Equation(E, P.x, P.y)
  }

  // ---------- The group law ----------

  function Neg(E: Curve, P: Point): Point {
    if P.Infinity? then P else Affine(P.x, E.F.add(P.x, P.y))
  }

  function ChordSlope(E: Curve, P: Point, Q: Point): nat
    requires P.Affine? && Q.Affine?
  {
    E.F.Mul(E.F.add(P.y, Q.y), E.F.inv(E.F.add(P.x, Q.x)))
  }

  /** The sum of P and Q when l is the slope of the line through them. */
  function Chord(E: Curve, l: nat, P: Point, Q: Point): Point
    requires P.Affine? && Q.Affine?
  {
    var x3 := E.F.add(E.F.add(E.F.add(E.F.Sq(l), l), E.F.add(P.x, Q.x)), E.a);
    Affine(x3, E.F.add(E.F.add(E.F.Mul(l, E.F.add(P.x, x3)), x3), P.y))
  }

  function TangentSlope(E: Curve, P: Point): nat
    requires P.Affine?
  {
    E.F.add(P.x, E.F.Mul(P.y, E.F.inv(P.x)))
  }

  /** The double of P when l is the slope of the tangent at P. */
  function Tangent(E: Curve, l: nat, P: Point): Point
    requires P.Affine?
  {
    var x3 := E.F.add(E.F.add(E.F.Sq(l), l), E.a);
    Affine(x3, E.F.add(E.F.add(E.F.Sq(P.x), E.F.Mul(l, x3)), x3))
  }

  /** Rules 1 to 5 of the group law. */
  function Add(E: Curve, P: Point, Q: Point): Point {
    if P.Infinity? then Q
    else if Q.Infinity? then P
    else if P.x != Q.x then Chord(E, ChordSlope(E, P, Q), P, Q)
    else if Q == Neg(E, P) then Infinity
    else Tangent(E, TangentSlope(E, P), P)
  }

  // ---------- Equal abscissae ----------

  /** (y + z)(y + z + x) = (y^2 + xy) + (z^2 + xz). */
  lemma DifferenceOfSides(F: Field, x: nat, y: nat, z: nat)
    requires IsField(F)
    ensures F.Mul(F.add(y, z), F.add(F.add(x, y), z))
         == F.add(F.add(F.Sq(y), F.Mul(x, y)), F.add(F.Sq(z), F.Mul(x, z)))
  {
    var s := F.add(y, z);
    var l := F.Mul(s, F.add(F.add(x, y), z));
    Expand(F);
    assert l == F.add(F.Mul(s, F.add(x, y)), F.Mul(s, z));
    assert F.Mul(s, F.add(x, y)) == F.add(F.Mul(s, x), F.Mul(s, y));
    assert F.Mul(s, x) == F.add(F.Mul(x, y), F.Mul(x, z)) by { assert F.M.mul(s, x) == F.M.mul(x, s); }
    assert F.Mul(s, y) == F.add(F.Sq(y), F.Mul(y, z)) by { assert F.M.mul(s, y) == F.M.mul(y, s); }
    assert F.Mul(s, z) == F.add(F.Mul(y, z), F.Sq(z)) by { assert F.M.mul(s, z) == F.M.mul(z, s); }
    assert Same(F, l, F.add(F.add(F.Sq(y), F.Mul(x, y)), F.add(F.Sq(z), F.Mul(x, z))));
  }

  /** Points of the curve with the same abscissa are equal or opposite. */
  lemma SameAbscissa(E: Curve, P: Point, Q: Point)
    requires IsCurve(E) && OnCurve(E, P) && OnCurve(E, Q)
    requires P.Affine? && Q.Affine? && P.x == Q.x
    ensures P == Q || Q == Neg(E, P)
  {
    var F, x, y, z := E.F, P.x, P.y, Q.y;
    DifferenceOfSides(F, x, y, z);
    AddSelf(F, F.add(F.Sq(y), F.Mul(x, y)));
    NoZeroDivisors(F, F.add(y, z), F.add(F.add(x, y), z));
    AddZeroEq(F, y, z);
    AddZeroEq(F, F.add(x, y), z);
  }

  // ---------- Closure ----------

  /** l^2 + l + a: the sum of the abscissae of the three points on a line of slope l. */
  function Lead(E: Curve, l: nat): nat {
    E.F.add(E.F.add(E.F.Sq(l), l), E.a)
  }

  /** What the line y = lx + m cuts out of the curve: x^3 + (l^2+l+a)x^2 + mx + (m^2+b). */
  function Cubic(E: Curve, l: nat, m: nat, u: nat): nat {
    var F := E.F;
    F.add(F.add(F.Mul(u, F.Sq(u)), F.Mul(Lead(E, l), F.Sq(u))),
          F.add(F.Mul(m, u), F.add(F.Sq(m), E.b)))
  }

  lemma LineMeetsCurve(E: Curve, l: nat, m: nat, u: nat, v: nat)
    requires IsCurve(E) && v == E.F.add(E.F.Mul(l, u), m)
    ensures Equation(E, u, v) <==> Cubic(E, l, m, u) == 0
  {
    var F, q := E.F, E.F.Sq(u);
    var lhs := F.add(F.Sq(v), F.Mul(u, v));
    var rhs := F.add(F.add(F.Mul(u, q), F.Mul(E.a, q)), E.b);
    assert F.Sq(v) == F.add(F.Mul(F.Sq(l), q), F.Sq(m)) by {
      SqAdd(F, F.Mul(l, u), m);
      Swap(F.M, l, u, l, u);
    }
    assert F.Mul(u, F.Mul(l, u)) == F.Mul(l, q) by {
      Assoc(F.M, l, u, u);
    }
    Expand(F);
    assert F.Mul(u, v) == F.add(F.Mul(l, q), F.Mul(m, u));
    var s := F.add(F.Sq(l), l);
    assert F.Mul(Lead(E, l), q) == F.Mul(q, F.add(s, E.a)) == F.add(F.Mul(q, s), F.Mul(E.a, q));
    assert F.Mul(q, s) == F.add(F.Mul(F.Sq(l), q), F.Mul(l, q));
    assert Same(F, F.add(lhs, rhs), Cubic(E, l, m, u));
    AddZeroEq(F, lhs, rhs);
  }

  /** u^2 + uv + v^2 + A(u + v) + m, the divided difference of the cubic. */
  function Divided(E: Curve, A: nat, m: nat, u: nat, v: nat): nat {
    var F := E.F;
    F.add(F.add(F.add(F.Sq(u), F.Mul(u, v)), F.Sq(v)), F.add(F.Mul(A, F.add(u, v)), m))
  }

  /** (u + v)(u^2 + uv + v^2) = u^3 + v^3. */
  lemma SumOfCubes(F: Field, u: nat, v: nat)
    requires IsField(F)
    ensures F.Mul(F.add(u, v), F.add(F.add(F.Sq(u), F.Mul(u, v)), F.Sq(v)))
         == F.add(F.Mul(u, F.Sq(u)), F.Mul(v, F.Sq(v)))
  {
    var s, t := F.add(u, v), F.add(F.Sq(u), F.Mul(u, v));
    Expand(F);
    assert F.Mul(s, F.Sq(u)) == F.add(F.Mul(u, F.Sq(u)), F.Mul(v, F.Sq(u)));
    assert F.Mul(s, F.Sq(v)) == F.add(F.Mul(u, F.Sq(v)), F.Mul(v, F.Sq(v)));
    assert F.Mul(s, F.Mul(u, v)) == F.add(F.Mul(v, F.Sq(u)), F.Mul(u, F.Sq(v))) by {
      Assoc(F.M, u, u, v);
      Assoc(F.M, v, v, u);
    }
    assert Same(F, F.Mul(s, F.add(t, F.Sq(v))), F.add(F.Mul(u, F.Sq(u)), F.Mul(v, F.Sq(v))));
  }

  lemma CommonConstant(F: Field, c1: nat, a1: nat, m1: nat, c2: nat, a2: nat, m2: nat, k: nat)
    requires IsField(F)
    ensures F.add(F.add(F.add(c1, a1), F.add(m1, k)), F.add(F.add(c2, a2), F.add(m2, k)))
         == F.add(F.add(c1, c2), F.add(F.add(a1, a2), F.add(m1, m2)))
  {
    assert Same(F, F.add(F.add(F.add(c1, a1), F.add(m1, k)), F.add(F.add(c2, a2), F.add(m2, k))),
                F.add(F.add(c1, c2), F.add(F.add(a1, a2), F.add(m1, m2))));
  }

  /** A(u + v)^2 and m(u + v), term by term. */
  lemma LowerTerms(F: Field, A: nat, m: nat, u: nat, v: nat)
    requires IsField(F)
    ensures var s := F.add(u, v);
            && F.Mul(s, F.Mul(A, s)) == F.add(F.Mul(A, F.Sq(u)), F.Mul(A, F.Sq(v)))
            && F.Mul(s, m) == F.add(F.Mul(m, u), F.Mul(m, v))
  {
    var s := F.add(u, v);
    Assoc(F.M, A, s, s);
    assert F.Mul(s, F.Mul(A, s)) == F.Mul(A, F.Sq(s));
    SqAdd(F, u, v);
    Expand(F);
  }

  /** The cubic is a polynomial with leading coefficients 1 and A, so u + v divides this sum. */
  lemma CubicDifference(E: Curve, l: nat, m: nat, u: nat, v: nat)
    requires IsCurve(E)
    ensures E.F.add(Cubic(E, l, m, u), Cubic(E, l, m, v))
         == E.F.Mul(E.F.add(u, v), Divided(E, Lead(E, l), m, u, v))
  {
    hide Lead;
    var F, A, s := E.F, Lead(E, l), E.F.add(u, v);
    SumOfCubes(F, u, v);
    LowerTerms(F, A, m, u, v);
    CommonConstant(F, F.Mul(u, F.Sq(u)), F.Mul(A, F.Sq(u)), F.Mul(m, u),
                   F.Mul(v, F.Sq(v)), F.Mul(A, F.Sq(v)), F.Mul(m, v), F.add(F.Sq(m), E.b));
    var c := F.add(F.add(F.Sq(u), F.Mul(u, v)), F.Sq(v));
    assert Triple(s, c, F.add(F.Mul(A, s), m)) && Triple(s, F.Mul(A, s), m);
  }

  /** When the three roots add up to A, the divided difference is symmetric in them. */
  lemma DividedSymmetric(E: Curve, m: nat, u: nat, v: nat, w: nat)
    requires IsCurve(E)
    ensures var A := E.F.add(E.F.add(u, v), w); Divided(E, A, m, u, v) == Divided(E, A, m, u, w)
  {
    var F := E.F;
    var A := F.add(F.add(u, v), w);
    Expand(F);
    assert F.Mul(A, F.add(u, v)) == F.add(F.Mul(u, A), F.Mul(v, A));
    assert F.Mul(A, F.add(u, w)) == F.add(F.Mul(u, A), F.Mul(w, A));
    assert F.Mul(v, A) == F.add(F.add(F.Mul(u, v), F.Sq(v)), F.Mul(v, w));
    assert F.Mul(w, A) == F.add(F.add(F.Mul(u, w), F.Mul(v, w)), F.Sq(w));
    assert Same(F, Divided(E, A, m, u, v), Divided(E, A, m, u, w));
  }

  /**
   P and Q lie on the curve and on the line y = lx + m, which meets the curve in both of
   them: twice in P when P == Q.
   */
  ghost predicate Secant(E: Curve, l: nat, m: nat, P: Point, Q: Point) {
    && IsCurve(E) && E.F.Elem(l)
    && P.Affine? && Q.Affine? && OnCurve(E, P) && OnCurve(E, Q)
    && P.y == E.F.add(E.F.Mul(l, P.x), m)
    && Q.y == E.F.add(E.F.Mul(l, Q.x), m)
    && Divided(E, Lead(E, l), m, P.x, Q.x) == 0
  }

  lemma EquationNeg(E: Curve, x: nat, y: nat)
    requires IsCurve(E)
    ensures Equation(E, x, E.F.add(x, y)) == Equation(E, x, y)
  {
    var F := E.F;
    SqAdd(F, x, y);
    Expand(F);
    assert Same(F, F.add(F.Sq(F.add(x, y)), F.Mul(x, F.add(x, y))), F.add(F.Sq(y), F.Mul(x, y)));
  }

  lemma NegOnCurve(E: Curve, P: Point)
    requires IsCurve(E) && OnCurve(E, P)
    ensures OnCurve(E, Neg(E, P)) && Neg(E, Neg(E, P)) == P
  {
    if P.Affine? {
      EquationNeg(E, P.x, P.y);
      assert Same(E.F, E.F.add(P.x, E.F.add(P.x, P.y)), P.y);
    }
  }

  /** The third point of the line, reflected. */
  lemma ChordOrdinate(E: Curve, l: nat, m: nat, P: Point, Q: Point)
    requires Secant(E, l, m, P, Q)
    ensures var R := Chord(E, l, P, Q); R.y == E.F.add(R.x, E.F.add(E.F.Mul(l, R.x), m))
  {
    var F, R := E.F, Chord(E, l, P, Q);
    Expand(F);
    assert Same(F, R.y, F.add(R.x, F.add(F.Mul(l, R.x), m)));
  }

  lemma SecantClosed(E: Curve, l: nat, m: nat, P: Point, Q: Point)
    requires Secant(E, l, m, P, Q)
    ensures OnCurve(E, Chord(E, l, P, Q))
  {
    var F, R := E.F, Chord(E, l, P, Q);
    var w, A := R.x, Lead(E, l);
    assert Same(F, A, F.add(F.add(P.x, Q.x), w));
    DividedSymmetric(E, m, P.x, Q.x, w);
    CubicDifference(E, l, m, P.x, w);
    LineMeetsCurve(E, l, m, P.x, P.y);
    assert F.Mul(F.add(P.x, w), 0) == 0;
    AddZeroEq(F, Cubic(E, l, m, P.x), Cubic(E, l, m, w));
    LineMeetsCurve(E, l, m, w, F.add(F.Mul(l, w), m));
    EquationNeg(E, w, F.add(F.Mul(l, w), m));
    ChordOrdinate(E, l, m, P, Q);
  }

  // ---------- Chords and tangents are secants ----------

  /** n / d times d is n. */
  lemma DivMul(F: Field, n: nat, d: nat)
    requires IsField(F) && F.Elem(n) && F.Elem(d) && d != 0
    ensures F.Mul(F.Mul(n, F.inv(d)), d) == n
  {
    Assoc(F.M, n, F.inv(d), d);
    assert F.M.mul(F.inv(d), d) == 1;
    assert F.M.mul(n, 1) == F.M.mul(1, n);
  }

  lemma MulCancel(F: Field, a: nat, b: nat, d: nat)
    requires IsField(F) && F.Elem(a) && F.Elem(b) && F.Elem(d) && d != 0
    requires F.Mul(a, d) == F.Mul(b, d)
    ensures a == b
  {
    Assoc(F.M, a, d, F.inv(d));
    Assoc(F.M, b, d, F.inv(d));
    assert F.M.mul(a, 1) == F.M.mul(1, a) && F.M.mul(b, 1) == F.M.mul(1, b);
  }

  /** The line through (px, py) of slope l passes through (qx, qy). */
  lemma LineThrough(F: Field, l: nat, px: nat, py: nat, qx: nat, qy: nat)
    requires IsField(F) && F.Mul(l, F.add(px, qx)) == F.add(py, qy)
    ensures var m := F.add(py, F.Mul(l, px)); py == F.add(F.Mul(l, px), m) && qy == F.add(F.Mul(l, qx), m)
  {
    var m := F.add(py, F.Mul(l, px));
    var s := F.add(F.Mul(l, px), F.Mul(l, qx));
    assert s == F.add(py, qy) by { Expand(F); }
    assert Same(F, py, F.add(F.Mul(l, px), m));
    forall i: nat ensures F.bit(qy, i) == F.bit(F.add(F.Mul(l, qx), m), i) {
      assert F.bit(s, i) == F.bit(F.add(py, qy), i);
    }
    assert Same(F, qy, F.add(F.Mul(l, qx), m));
  }

  lemma TwoRoots(E: Curve, l: nat, m: nat, u: nat, v: nat)
    requires IsCurve(E) && E.F.Elem(l) && E.F.Elem(m) && E.F.Elem(u) && E.F.Elem(v) && u != v
    requires Cubic(E, l, m, u) == 0 && Cubic(E, l, m, v) == 0
    ensures Divided(E, Lead(E, l), m, u, v) == 0
  {
    var F := E.F;
    CubicDifference(E, l, m, u, v);
    AddSelf(F, 0);
    AddZeroEq(F, u, v);
    assert F.Elem(Divided(E, Lead(E, l), m, u, v));
    NoZeroDivisors(F, F.add(u, v), Divided(E, Lead(E, l), m, u, v));
    hide Cubic, Divided, Lead;
  }

  lemma ChordSlopeMul(E: Curve, P: Point, Q: Point)
    requires IsCurve(E) && OnCurve(E, P) && OnCurve(E, Q)
    requires P.Affine? && Q.Affine? && P.x != Q.x
    ensures E.F.Mul(ChordSlope(E, P, Q), E.F.add(P.x, Q.x)) == E.F.add(P.y, Q.y)
  {
    AddZeroEq(E.F, P.x, Q.x);
    DivMul(E.F, E.F.add(P.y, Q.y), E.F.add(P.x, Q.x));
  }

  lemma ChordIsSecant(E: Curve, P: Point, Q: Point)
    requires IsCurve(E) && OnCurve(E, P) && OnCurve(E, Q)
    requires P.Affine? && Q.Affine? && P.x != Q.x
    ensures var l := ChordSlope(E, P, Q); Secant(E, l, E.F.add(P.y, E.F.Mul(l, P.x)), P, Q)
  {
    var F, l := E.F, ChordSlope(E, P, Q);
    var m := F.add(P.y, F.Mul(l, P.x));
    ChordSlopeMul(E, P, Q);
    LineThrough(F, l, P.x, P.y, Q.x, Q.y);
    assert F.Elem(l) && F.Elem(m);
    hide ChordSlope, Cubic, Divided, Equation, Lead;
    LineMeetsCurve(E, l, m, P.x, P.y);
    LineMeetsCurve(E, l, m, Q.x, Q.y);
    TwoRoots(E, l, m, P.x, Q.x);
  }

  /** l x = x^2 + y for the tangent slope l. */
  lemma TangentSlopeMul(E: Curve, P: Point)
    requires IsCurve(E) && OnCurve(E, P) && P.Affine? && P.x != 0
    ensures E.F.Mul(TangentSlope(E, P), P.x) == E.F.add(E.F.Sq(P.x), P.y)
  {
    var F := E.F;
    DivMul(F, P.y, P.x);
    Expand(F);
    assert F.Mul(TangentSlope(E, P), P.x) == F.Mul(P.x, TangentSlope(E, P));
  }

  lemma TangentIsSecant(E: Curve, P: Point)
    requires IsCurve(E) && OnCurve(E, P) && P.Affine? && P.x != 0
    ensures Secant(E, TangentSlope(E, P), E.F.Sq(P.x), P, P)
  {
    var F, l, x := E.F, TangentSlope(E, P), P.x;
    TangentSlopeMul(E, P);
    assert F.Elem(l);
    assert Same(F, P.y, F.add(F.Mul(l, x), F.Sq(x)));
    AddSelf(F, x);
    hide Lead, TangentSlope;
    assert Same(F, Divided(E, Lead(E, l), F.Sq(x), x, x), 0);
  }

  /** The formula of rule 5 is that of rule 4 with both points equal. */
  lemma TangentIsChord(E: Curve, l: nat, P: Point)
    requires IsCurve(E) && P.Affine? && E.F.Mul(l, P.x) == E.F.add(E.F.Sq(P.x), P.y)
    ensures Tangent(E, l, P) == Chord(E, l, P, P)
  {
    var F, R, T := E.F, Chord(E, l, P, P), Tangent(E, l, P);
    assert Same(F, R.x, T.x);
    assert F.Mul(l, F.add(P.x, T.x)) == F.add(F.Mul(l, P.x), F.Mul(l, T.x)) by { Expand(F); }
    assert Same(F, R.y, T.y);
  }

  lemma AddSame(F: Field, a: nat, b: nat)
    requires IsField(F) && F.add(a, b) == b
    ensures a == 0
  {
    forall i: nat ensures F.bit(a, i) == F.bit(0, i) {
      assert F.bit(F.add(a, b), i) == F.bit(b, i);
    }
    assert Same(F, a, 0);
  }

  /** A point that is its own opposite has abscissa 0, so the tangent slope never divides by 0. */
  lemma SelfOpposite(E: Curve, P: Point)
    requires IsCurve(E) && P.Affine?
    ensures P == Neg(E, P) <==> P.x == 0
  {
    if P == Neg(E, P) {
      AddSame(E.F, P.x, P.y);
    } else if P.x == 0 {
      assert Same(E.F, E.F.add(P.x, P.y), P.y);
    }
  }

  /** How a finite sum arises: from a line of slope l through P and Q. */
  ghost predicate SumByLine(E: Curve, l: nat, m: nat, P: Point, Q: Point, R: Point) {
    Secant(E, l, m, P, Q) && R == Chord(E, l, P, Q)
  }

  lemma FiniteSum(E: Curve, P: Point, Q: Point) returns (l: nat, m: nat)
    requires IsCurve(E) && OnCurve(E, P) && OnCurve(E, Q)
    requires P.Affine? && Q.Affine? && Q != Neg(E, P)
    ensures SumByLine(E, l, m, P, Q, Add(E, P, Q))
  {
    if P.x != Q.x {
      l := ChordSlope(E, P, Q);
      m := E.F.add(P.y, E.F.Mul(l, P.x));
      ChordIsSecant(E, P, Q);
    } else {
      SameAbscissa(E, P, Q);
      SelfOpposite(E, P);
      TangentIsSecant(E, P);
      TangentSlopeMul(E, P);
      TangentIsChord(E, TangentSlope(E, P), P);
      l, m := TangentSlope(E, P), E.F.Sq(P.x);
    }
  }

  // ---------- Main results about the group law ----------

  /** The curve is closed under addition. */
  lemma AddClosed(E: Curve, P: Point, Q: Point)
    requires IsCurve(E) && OnCurve(E, P) && OnCurve(E, Q)
    ensures OnCurve(E, Add(E, P, Q))
  {
    if P.Affine? && Q.Affine? && Q != Neg(E, P) {
      var l, m := FiniteSum(E, P, Q);
      SecantClosed(E, l, m, P, Q);
    }
  }

  /** A sum is infinite exactly when the summands are opposite. */
  lemma AddInfinite(E: Curve, P: Point, Q: Point)
    requires IsCurve(E) && OnCurve(E, P) && OnCurve(E, Q)
    ensures Add(E, P, Q) == Infinity <==> Q == Neg(E, P)
  {
  }

  lemma ChordComm(E: Curve, l: nat, m: nat, P: Point, Q: Point)
    requires Secant(E, l, m, P, Q)
    ensures Chord(E, l, P, Q) == Chord(E, l, Q, P)
  {
    var F, R, S := E.F, Chord(E, l, P, Q), Chord(E, l, Q, P);
    assert Same(F, R.x, S.x);
    Expand(F);
    assert Same(F, R.y, S.y);
  }

  lemma AddComm(E: Curve, P: Point, Q: Point)
    requires IsCurve(E) && OnCurve(E, P) && OnCurve(E, Q)
    ensures Add(E, P, Q) == Add(E, Q, P)
  {
    if P.Affine? && Q.Affine? {
      NegOnCurve(E, P);
      NegOnCurve(E, Q);
      if P.x != Q.x {
        var F, l := E.F, ChordSlope(E, P, Q);
        assert Same(F, F.add(P.x, Q.x), F.add(Q.x, P.x));
        assert Same(F, F.add(P.y, Q.y), F.add(Q.y, P.y));
        ChordIsSecant(E, P, Q);
        ChordComm(E, l, F.add(P.y, F.Mul(l, P.x)), P, Q);
      } else {
        SameAbscissa(E, P, Q);
      }
    }
  }

  /** When the sum has the abscissa of a summand, it is the opposite of that summand. */
  lemma SumAboveSummand(E: Curve, l: nat, m: nat, P: Point, Q: Point)
    requires Secant(E, l, m, P, Q) && Chord(E, l, P, Q).x == P.x
    ensures Chord(E, l, P, Q) == Neg(E, P)
  {
    var F := E.F;
    ChordOrdinate(E, l, m, P, Q);
  }

  /** (l + 1)(u + v) = (l u + l v) + (u + v). */
  lemma NextSlope(F: Field, l: nat, u: nat, v: nat)
    requires IsField(F) && F.Elem(u) && F.Elem(v)
    ensures F.Mul(F.add(l, 1), F.add(u, v)) == F.add(F.add(F.Mul(l, u), F.Mul(l, v)), F.add(u, v))
  {
    var s := F.add(u, v);
    Expand(F);
    assert F.Mul(F.add(l, 1), s) == F.Mul(s, F.add(l, 1)) == F.add(F.Mul(s, l), F.Mul(s, 1));
    assert F.Mul(s, 1) == F.M.mul(1, s);
  }

  /** The slope of the line through P + Q and -P is l + 1. */
  lemma BackSlope(E: Curve, l: nat, m: nat, P: Point, Q: Point)
    requires Secant(E, l, m, P, Q) && Chord(E, l, P, Q).x != P.x
    ensures ChordSlope(E, Chord(E, l, P, Q), Neg(E, P)) == E.F.add(l, 1)
  {
    var F, R, N := E.F, Chord(E, l, P, Q), Neg(E, P);
    SecantClosed(E, l, m, P, Q);
    ChordOrdinate(E, l, m, P, Q);
    NegOnCurve(E, P);
    ChordSlopeMul(E, R, N);
    NextSlope(F, l, R.x, P.x);
    AddZeroEq(F, R.x, P.x);
    assert F.Elem(1);
    hide Chord, ChordSlope, Equation, Divided, Lead;
    assert Same(F, F.add(R.y, N.y), F.Mul(F.add(l, 1), F.add(R.x, P.x)));
    assert F.Elem(F.Mul(F.add(R.y, N.y), F.inv(F.add(R.x, N.x))));
    assert F.Elem(ChordSlope(E, R, N)) by { SlopeElem(E, R, N); }
    MulCancel(F, ChordSlope(E, R, N), F.add(l, 1), F.add(R.x, P.x));
  }

  lemma SlopeElem(E: Curve, P: Point, Q: Point)
    requires IsCurve(E) && P.Affine? && Q.Affine?
    ensures E.F.Elem(ChordSlope(E, P, Q))
  {
  }

  lemma BackPoint(E: Curve, l: nat, m: nat, P: Point, Q: Point)
    requires Secant(E, l, m, P, Q)
    ensures Chord(E, E.F.add(l, 1), Chord(E, l, P, Q), Neg(E, P)) == Q
  {
    var F, R, N, l1 := E.F, Chord(E, l, P, Q), Neg(E, P), E.F.add(l, 1);
    var B := Chord(E, l1, R, N);
    SecantClosed(E, l, m, P, Q);
    assert B.x == Q.x by {
      SqAdd(F, l, 1);
      assert F.Sq(1) == 1;
      hide Equation, Divided;
      assert Same(F, B.x, Q.x);
    }
    ChordOrdinate(E, l, m, P, Q);
    NextSlope(F, l, R.x, Q.x);
    assert B.y == F.add(F.add(F.Mul(l1, F.add(R.x, Q.x)), Q.x), R.y);
    hide Chord, Equation, Divided, Lead;
    assert Same(F, B.y, Q.y);
  }

  /** The line back: through P + Q and -P, with slope l + 1, one reaches Q. */
  lemma SubtractBack(E: Curve, l: nat, m: nat, P: Point, Q: Point)
    requires Secant(E, l, m, P, Q) && Chord(E, l, P, Q).x != P.x
    ensures Add(E, Chord(E, l, P, Q), Neg(E, P)) == Q
  {
    BackSlope(E, l, m, P, Q);
    BackPoint(E, l, m, P, Q);
    hide Chord, ChordSlope, Secant;
  }
}
