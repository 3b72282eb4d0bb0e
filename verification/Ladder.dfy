/**
 The projective ladder of simulation.py on abscissae, as a recursion over the prefixes of
 the scalar, and the proof that it refines the affine law.
 */
module Ladder {
  import opened Fermat
  import opened Field
  import opened Curve
  import opened LadderAlgebra
  import opened Multiples

  /** X1/Z1 and X2/Z2 are the abscissae of two neighbouring multiples. */
  datatype State = State(X1: nat, Z1: nat, X2: nat, Z2: nat)

  datatype Ratio = Ratio(X: nat, Z: nat)

  /** Sum of two neighbours, whose difference has abscissa x. */
  function MAdd(F: Field, x: nat, X1: nat, Z1: nat, X2: nat, Z2: nat): Ratio {
    var p, q := F.Mul(X1, Z2), F.Mul(X2, Z1);
    var Z := F.Sq(F.add(p, q));
    Ratio(F.add(F.Mul(p, q), F.Mul(x, Z)), Z)
  }

  function MDouble(F: Field, b: nat, X: nat, Z: nat): Ratio {
    var s := F.Sq(X);
    Ratio(F.add(F.Sq(s), F.Mul(b, F.Sq(F.Sq(Z)))), F.Mul(s, F.Sq(Z)))
  }

  function Start(F: Field, x: nat, b: nat): State {
    State(x, 1, F.add(F.Sq(F.Sq(x)), b), F.Sq(x))
  }

  function Step(F: Field, x: nat, b: nat, st: State, bit: bool): State {
    var s := MAdd(F, x, st.X1, st.Z1, st.X2, st.Z2);
    if bit then
      var d := MDouble(F, b, st.X2, st.Z2); State(s.X, s.Z, d.X, d.Z)
    else
      var d := MDouble(F, b, st.X1, st.Z1); State(d.X, d.Z, s.X, s.Z)
  }

  /** The state once the prefix s of the scalar has been read. */
  function Run(F: Field, x: nat, b: nat, s: nat): State
    requires s > 0
  {
    if s == 1 then Start(F, x, b) else Step(F, x, b, Run(F, x, b, s / 2), s % 2 == 1)
  }

  /** Back to affine coordinates. */
  function Finish(F: Field, x: nat, y: nat, st: State): Point {
    var z := F.Mul(st.Z1, st.Z2);
    var i := F.inv(F.Mul(x, z));
    var u := F.Mul(st.X1, F.inv(st.Z1));
    var p := F.Mul(F.add(st.X1, F.Mul(x, st.Z1)), F.add(st.X2, F.Mul(x, st.Z2)));
    var n := F.add(p, F.Mul(F.add(y, F.Sq(x)), z));
    Affine(u, F.add(y, F.Mul(F.Mul(n, i), F.add(x, u))))
  }

  // ---------- One step ----------

  /** X/Z is a proper fraction with value u. */
  ghost predicate Represents(F: Field, X: nat, Z: nat, u: nat) {
    F.Elem(u) && F.Elem(Z) && Z != 0 && X == F.Mul(u, Z)
  }

  lemma NonZeroProduct(F: Field, a: nat, b: nat)
    requires IsField(F) && F.Elem(a) && F.Elem(b) && a != 0 && b != 0
    ensures F.Mul(a, b) != 0
  {
    if F.Mul(a, b) == 0 { NoZeroDivisors(F, a, b); }
  }

  /** (u Z1) Z2 = u (Z1 Z2) and (v Z2) Z1 = v (Z1 Z2). */
  lemma CommonDenominator(F: Field, u: nat, v: nat, Z1: nat, Z2: nat)
    requires IsField(F)
    ensures F.Mul(F.Mul(u, Z1), Z2) == F.Mul(u, F.Mul(Z1, Z2))
    ensures F.Mul(F.Mul(v, Z2), Z1) == F.Mul(v, F.Mul(Z1, Z2))
  {
    Assoc(F.M, u, Z1, Z2);
    Assoc(F.M, v, Z2, Z1);
  }

  lemma MAddValue(F: Field, x: nat, u: nat, v: nat, w: nat, z: nat)
    requires IsField(F) && F.Mul(F.add(w, x), F.Sq(F.add(u, v))) == F.Mul(u, v)
    ensures var p, q := F.Mul(u, z), F.Mul(v, z); var Z := F.Sq(F.add(p, q));
            && Z == F.Mul(F.Sq(F.add(u, v)), F.Sq(z))
            && F.add(F.Mul(p, q), F.Mul(x, Z)) == F.Mul(w, Z)
  {
    FieldIsMonoid(F);
    hide IsField, IsMonoid;
    var p, q, d := F.Mul(u, z), F.Mul(v, z), F.add(u, v);
    var Z := F.Sq(F.add(p, q));
    MulDistrib(F, u, v, z);
    Swap(F.M, d, z, d, z);
    Swap(F.M, u, z, v, z);
    Assoc(F.M, F.add(w, x), F.Sq(d), F.Sq(z));
    MulDistrib(F, w, x, Z);
    AddTwice(F, F.Mul(w, Z), F.Mul(x, Z));
  }

  lemma MAddCorrect(F: Field, x: nat, X1: nat, Z1: nat, X2: nat, Z2: nat, u: nat, v: nat, w: nat)
    requires IsField(F) && F.Elem(w) && u != v
    requires Represents(F, X1, Z1, u) && Represents(F, X2, Z2, v)
    requires F.Mul(F.add(w, x), F.Sq(F.add(u, v))) == F.Mul(u, v)
    ensures var r := MAdd(F, x, X1, Z1, X2, Z2); Represents(F, r.X, r.Z, w)
  {
    var z, d := F.Mul(Z1, Z2), F.add(u, v);
    CommonDenominator(F, u, v, Z1, Z2);
    MAddValue(F, x, u, v, w, z);
    AddZeroEq(F, u, v);
    NonZeroProduct(F, Z1, Z2);
    NonZeroProduct(F, z, z);
    NonZeroProduct(F, d, d);
    NonZeroProduct(F, F.Sq(d), F.Sq(z));
  }

  lemma MDoubleCorrect(F: Field, b: nat, X: nat, Z: nat, u: nat, w: nat)
    requires IsField(F) && F.Elem(w) && u != 0
    requires Represents(F, X, Z, u)
    requires F.Mul(w, F.Sq(u)) == F.add(F.Sq(F.Sq(u)), b)
    ensures var r := MDouble(F, b, X, Z); Represents(F, r.X, r.Z, w)
  {
    var p, z := F.Sq(u), F.Sq(Z);
    var q := F.Sq(z);
    Swap(F.M, u, Z, u, Z);
    Assoc(F.M, p, z, z);
    Swap(F.M, p, z, p, z);
    Assoc(F.M, w, p, q);
    assert F.Mul(F.add(F.Sq(p), b), q) == F.add(F.Mul(F.Sq(p), q), F.Mul(b, q)) by {
      Expand(F);
      assert F.Mul(F.add(F.Sq(p), b), q) == F.Mul(q, F.add(F.Sq(p), b));
    }
    NonZeroProduct(F, u, u);
    NonZeroProduct(F, Z, Z);
    NonZeroProduct(F, z, z);
    NonZeroProduct(F, p, q);
  }

  // ---------- Whole runs ----------

  /** (X : Z) is the abscissa of Q, with (X : 0) standing for infinity. */
  ghost predicate Denotes(F: Field, X: nat, Z: nat, Q: Point) {
    if Q.Infinity? then F.Elem(X) && X != 0 && Z == 0 else Represents(F, X, Z, Q.x)
  }

  ghost predicate Tracks(E: Curve, P: Point, st: State, s: nat) {
    && Denotes(E.F, st.X1, st.Z1, Times(E, P, s))
    && Denotes(E.F, st.X2, st.Z2, Times(E, P, s + 1))
  }

  /** The base point is finite and on a non-singular curve on whose multiples the law is associative. */
  ghost predicate LadderInput(E: Curve, P: Point) {
    IsCurve(E) && E.b != 0 && OnCurve(E, P) && P.Affine? && Additive(E, P)
  }

  /** A and A + P have different abscissae when their sum is finite, and differ by P. */
  lemma NeighboursApart(E: Curve, A: Point, P: Point)
    requires IsCurve(E) && OnCurve(E, A) && OnCurve(E, P) && A.Affine? && P.Affine?
    requires Add(E, A, P).Affine?
    ensures var B := Add(E, A, P);
            if A.x == B.x then B == Neg(E, A) else Add(E, B, Neg(E, A)) == P
  {
    var B := Add(E, A, P);
    AddInfinite(E, A, P);
    var l, m := FiniteSum(E, A, P);
    hide Add, OnCurve, Equation, Divided;
    if A.x == B.x {
      SumAboveSummand(E, l, m, A, P);
    } else {
      SubtractBack(E, l, m, A, P);
    }
  }

  /** sP + (s + 1)P in terms of the two points. */
  lemma NeighbourSum(E: Curve, P: Point, s: nat)
    requires LadderInput(E, P)
    ensures var A, B := Times(E, P, s), Times(E, P, s + 1);
            && OnCurve(E, A) && OnCurve(E, B)
            && B == Add(E, A, P) && Times(E, P, 2 * s + 1) == Add(E, A, B)
  {
    hide IsCurve, Add, OnCurve;
    TimesOnCurve(E, P, s);
    TimesOnCurve(E, P, s + 1);
    AddTimes(E, P, s, s + 1);
    assert s + (s + 1) == 2 * s + 1;
  }

  /** The sum of two neighbours, one of them infinite, is a point with the abscissa of P. */
  lemma InfiniteNeighbour(E: Curve, A: Point, P: Point)
    requires IsCurve(E) && OnCurve(E, A) && OnCurve(E, P) && P.Affine?
    requires A.Infinity? || Add(E, A, P).Infinity?
    ensures var S := Add(E, A, Add(E, A, P)); S.Affine? && S.x == P.x
  {
    AddInfinite(E, A, P);
  }

  /** Opposite neighbours have a non-zero abscissa: otherwise (2s + 1)P would be both P and infinite. */
  lemma OppositeNeighbours(E: Curve, P: Point, s: nat)
    requires LadderInput(E, P)
    requires Times(E, P, s).Affine? && Times(E, P, s + 1) == Neg(E, Times(E, P, s))
    ensures Times(E, P, 2 * s + 1) == Infinity && Times(E, P, s).x != 0
  {
    hide Equation, Chord, Tangent, ChordSlope, TangentSlope, IsField;
    var A := Times(E, P, s);
    NeighbourSum(E, P, s);
    AddInfinite(E, A, Neg(E, A));
    assert s + s + 1 == 2 * s + 1;
    TimesOne(E, P);
    SelfOpposite(E, A);
    AddTimes(E, P, s, s);
    AddTimes(E, P, s + s, 1);
    hide Times, Additive;
  }

  lemma {:induction false} AddOneInfinite(F: Field, x: nat, X1: nat, Z1: nat, X2: nat, Z2: nat)
    requires IsField(F) && F.Elem(x) && F.Elem(X1) && F.Elem(X2) && F.Elem(Z1) && F.Elem(Z2)
    requires (Z1 == 0 && X1 != 0 && Z2 != 0) || (Z2 == 0 && X2 != 0 && Z1 != 0)
    ensures var r := MAdd(F, x, X1, Z1, X2, Z2); Represents(F, r.X, r.Z, x)
  {
    var p, q := F.Mul(X1, Z2), F.Mul(X2, Z1);
    var t := if Z1 == 0 then p else q;
    assert F.M.mul(X1, 0) == F.M.mul(X2, 0) == 0;
    if Z1 == 0 { NonZeroProduct(F, X1, Z2); } else { NonZeroProduct(F, X2, Z1); }
    assert Same(F, F.add(p, q), t);
    NonZeroProduct(F, t, t);
    assert F.M.mul(p, q) == F.M.mul(q, p) == 0;
    var Z := F.Sq(t);
    assert Same(F, F.add(0, F.Mul(x, Z)), F.Mul(x, Z));
  }

  lemma AddOpposite(F: Field, x: nat, X1: nat, Z1: nat, X2: nat, Z2: nat, u: nat)
    requires IsField(F) && u != 0
    requires Represents(F, X1, Z1, u) && Represents(F, X2, Z2, u)
    ensures var r := MAdd(F, x, X1, Z1, X2, Z2); F.Elem(r.X) && r.X != 0 && r.Z == 0
  {
    var z := F.Mul(Z1, Z2);
    CommonDenominator(F, u, u, Z1, Z2);
    NonZeroProduct(F, Z1, Z2);
    NonZeroProduct(F, u, z);
    var p := F.Mul(u, z);
    NonZeroProduct(F, p, p);
    AddSelf(F, p);
    assert F.M.mul(0, 0) == 0 && F.M.mul(x, 0) == 0;
    assert Same(F, F.add(F.Sq(p), 0), F.Sq(p));
  }

  lemma SumStep(E: Curve, P: Point, st: State, s: nat)
    requires LadderInput(E, P) && Tracks(E, P, st, s)
    ensures var r := MAdd(E.F, P.x, st.X1, st.Z1, st.X2, st.Z2); Denotes(E.F, r.X, r.Z, Times(E, P, 2 * s + 1))
  {
    var F, A, B := E.F, Times(E, P, s), Times(E, P, s + 1);
    NeighbourSum(E, P, s);
    AddInfinite(E, A, P);
    if A.Infinity? || B.Infinity? {
      hide Equation, MAdd, Chord, Tangent, Additive;
      InfiniteNeighbour(E, A, P);
      AddOneInfinite(F, P.x, st.X1, st.Z1, st.X2, st.Z2);
    } else {
      hide Add, Equation, MAdd, Chord, Additive;
      NeighboursApart(E, A, P);
      if A.x == B.x {
        OppositeNeighbours(E, P, s);
        AddOpposite(F, P.x, st.X1, st.Z1, st.X2, st.Z2, A.x);
      } else {
        DifferentialAddition(E, A, B);
        TimesElem(E, P, 2 * s + 1);
        MAddCorrect(F, P.x, st.X1, st.Z1, st.X2, st.Z2, A.x, B.x, Times(E, P, 2 * s + 1).x);
      }
    }
  }

  lemma TimesElem(E: Curve, P: Point, s: nat)
    requires IsCurve(E) && OnCurve(E, P) && Times(E, P, s).Affine?
    ensures E.F.Elem(Times(E, P, s).x) && E.F.Elem(Times(E, P, s).y)
  {
    TimesOnCurve(E, P, s);
  }

  lemma DoubleInfinite(F: Field, b: nat, X: nat, Z: nat)
    requires IsField(F) && F.Elem(b) && F.Elem(X) && F.Elem(Z)
    requires (Z == 0 && X != 0) || (X == 0 && Z != 0 && b != 0)
    ensures var r := MDouble(F, b, X, Z); F.Elem(r.X) && r.X != 0 && r.Z == 0
  {
    var s, z := F.Sq(X), F.Sq(Z);
    assert F.M.mul(0, 0) == 0 && F.M.mul(s, 0) == 0 && F.M.mul(b, 0) == 0;
    assert F.M.mul(0, z) == F.M.mul(z, 0) == 0;
    if Z == 0 {
      NonZeroProduct(F, X, X);
      NonZeroProduct(F, s, s);
      assert Same(F, F.add(F.Sq(s), 0), F.Sq(s));
    } else {
      NonZeroProduct(F, Z, Z);
      NonZeroProduct(F, z, z);
      NonZeroProduct(F, b, F.Sq(z));
      assert Same(F, F.add(0, F.Mul(b, F.Sq(z))), F.Mul(b, F.Sq(z)));
    }
  }

  lemma DoubleStep(E: Curve, P: Point, X: nat, Z: nat, s: nat)
    requires LadderInput(E, P) && Denotes(E.F, X, Z, Times(E, P, s))
    ensures var r := MDouble(E.F, E.b, X, Z); Denotes(E.F, r.X, r.Z, Times(E, P, 2 * s))
  {
    hide Equation, Chord, ChordSlope, MDouble;
    var F, A, D := E.F, Times(E, P, s), Times(E, P, 2 * s);
    TimesOnCurve(E, P, s);
    AddTimes(E, P, s, s);
    assert D == Add(E, A, A) by { assert s + s == 2 * s; }
    AddInfinite(E, A, A);
    if A.Affine? { SelfOpposite(E, A); }
    hide Times, Additive;
    if A.Infinity? || A.x == 0 {
      assert F.M.mul(0, Z) == F.M.mul(Z, 0) == 0;
      DoubleInfinite(F, E.b, X, Z);
    } else {
      assert D == Tangent(E, TangentSlope(E, A), A);
      DoubleAbscissa(E, A);
      hide Tangent, TangentSlope, Add, Neg;
      assert F.Elem(D.x) by { AddClosed(E, A, A); }
      MDoubleCorrect(F, E.b, X, Z, A.x, D.x);
    }
  }

  lemma StepTracks(E: Curve, P: Point, st: State, s: nat, bit: bool)
    requires LadderInput(E, P) && Tracks(E, P, st, s)
    ensures Tracks(E, P, Step(E.F, P.x, E.b, st, bit), if bit then 2 * s + 1 else 2 * s)
  {
    hide Times, IsCurve, Additive, Equation, MAdd, MDouble;
    SumStep(E, P, st, s);
    if bit {
      assert 2 * (s + 1) == 2 * s + 1 + 1;
      DoubleStep(E, P, st.X2, st.Z2, s + 1);
    } else {
      DoubleStep(E, P, st.X1, st.Z1, s);
    }
  }

  lemma StartTracks(E: Curve, P: Point)
    requires LadderInput(E, P)
    ensures Tracks(E, P, Start(E.F, P.x, E.b), 1)
  {
    TimesOne(E, P);
    var F := E.F;
    assert F.M.mul(P.x, 1) == F.M.mul(1, P.x);
    DoubleStep(E, P, P.x, 1, 1);
    assert F.Sq(1) == 1;
    assert F.M.mul(E.b, 1) == F.M.mul(1, E.b) && F.M.mul(F.Sq(P.x), 1) == F.M.mul(1, F.Sq(P.x));
    assert MDouble(F, E.b, P.x, 1) == Ratio(F.add(F.Sq(F.Sq(P.x)), E.b), F.Sq(P.x));
    hide Times, IsField;
  }

  lemma BaseIsFinite(E: Curve, P: Point)
    requires LadderInput(E, P)
    ensures P.Affine?
  {
  }

  /** For every prefix s, X1 : Z1 is the abscissa of sP and X2 : Z2 that of (s + 1)P. */
  lemma {:induction false} RunTracks(E: Curve, P: Point, s: nat)
    requires LadderInput(E, P) && s > 0
    ensures Tracks(E, P, Run(E.F, P.x, E.b, s), s)
  {
    hide Tracks, LadderInput, Start, Step;
    BaseIsFinite(E, P);
    if s == 1 {
      StartTracks(E, P);
    } else {
      var h, st := s / 2, Run(E.F, P.x, E.b, s / 2);
      RunTracks(E, P, h);
      assert Run(E.F, P.x, E.b, s) == Step(E.F, P.x, E.b, st, s % 2 == 1);
      hide Run;
      StepTracks(E, P, st, h, s % 2 == 1);
    }
  }

  // ---------- Back to affine coordinates ----------

  lemma InverseOf(F: Field, a: nat)
    requires IsField(F) && F.Elem(a) && a != 0
    ensures F.Mul(a, F.inv(a)) == 1
  {
  }

  /** (n z) / (x z) = n / x. */
  lemma CancelDenominator(F: Field, n: nat, x: nat, z: nat)
    requires IsField(F) && F.Elem(n) && F.Elem(x) && F.Elem(z) && x != 0 && z != 0
    ensures F.Mul(F.Mul(F.Mul(n, z), F.inv(F.Mul(x, z))), x) == n
  {
    var i := F.inv(F.Mul(x, z));
    NonZeroProduct(F, x, z);
    Assoc(F.M, n, z, i);
    Assoc(F.M, n, F.Mul(z, i), x);
    Assoc(F.M, x, z, i);
    assert F.Mul(F.Mul(x, z), i) == 1 by { InverseOf(F, F.Mul(x, z)); }
    assert F.M.mul(x, F.M.mul(z, i)) == 1;
    assert F.M.mul(F.M.mul(z, i), x) == 1;
    assert F.M.mul(n, 1) == F.M.mul(1, n);
  }

  /** The numerator of the recovered ordinate is z ((u + x)(v + x) + x^2 + y). */
  lemma Numerator(F: Field, x: nat, y: nat, u: nat, v: nat, Z1: nat, Z2: nat)
    requires IsField(F)
    ensures var z := F.Mul(Z1, Z2);
            var p := F.Mul(F.add(F.Mul(u, Z1), F.Mul(x, Z1)), F.add(F.Mul(v, Z2), F.Mul(x, Z2)));
            F.add(p, F.Mul(F.add(y, F.Sq(x)), z))
            == F.Mul(F.add(F.Mul(F.add(u, x), F.add(v, x)), F.add(F.Sq(x), y)), z)
  {
    var s, e, z, c := F.add(u, x), F.add(v, x), F.Mul(Z1, Z2), F.add(F.Sq(x), y);
    assert F.Mul(s, Z1) == F.add(F.Mul(u, Z1), F.Mul(x, Z1)) by {
      Expand(F); assert F.Mul(s, Z1) == F.Mul(Z1, s);
    }
    assert F.Mul(e, Z2) == F.add(F.Mul(v, Z2), F.Mul(x, Z2)) by {
      Expand(F); assert F.Mul(e, Z2) == F.Mul(Z2, e);
    }
    Swap(F.M, s, Z1, e, Z2);
    assert Same(F, F.add(y, F.Sq(x)), c);
    assert F.Mul(F.add(F.Mul(s, e), c), z) == F.add(F.Mul(F.Mul(s, e), z), F.Mul(c, z)) by {
      Expand(F); assert F.Mul(F.add(F.Mul(s, e), c), z) == F.Mul(z, F.add(F.Mul(s, e), c));
    }
  }

  lemma FinishOrdinate(E: Curve, A: Point, P: Point, r: nat)
    requires IsCurve(E) && OnCurve(E, A) && OnCurve(E, P) && A.Affine? && P.Affine? && P.x != 0
    requires Add(E, A, P).Affine? && E.F.Elem(r)
    requires E.F.Mul(r, P.x)
             == E.F.add(E.F.Mul(E.F.add(A.x, P.x), E.F.add(Add(E, A, P).x, P.x)), E.F.add(E.F.Sq(P.x), P.y))
    ensures E.F.add(P.y, E.F.Mul(r, E.F.add(P.x, A.x))) == A.y
  {
    var F := E.F;
    var s, k := F.add(P.x, A.x), F.Mul(r, F.add(P.x, A.x));
    assert Same(F, s, F.add(A.x, P.x));
    if A.x == P.x {
      SameAbscissa(E, A, P);
      AddSelf(F, A.x);
      assert Same(F, F.add(P.y, 0), P.y);
    } else {
      OrdinateRecovery(E, A, P);
      Assoc(F.M, r, s, P.x);
      Assoc(F.M, r, P.x, s);
      assert F.Mul(k, P.x) == F.Mul(F.add(A.y, P.y), P.x) by {
        assert F.M.mul(s, P.x) == F.M.mul(P.x, s);
      }
      MulCancel(F, k, F.add(A.y, P.y), P.x);
      assert Same(F, F.add(P.y, F.add(A.y, P.y)), A.y);
    }
  }

  lemma FinishFinite(E: Curve, P: Point, st: State, k: nat)
    requires IsCurve(E) && OnCurve(E, P) && P.Affine? && P.x != 0
    requires Tracks(E, P, st, k) && Times(E, P, k).Affine? && Times(E, P, k + 1).Affine?
    ensures Finish(E.F, P.x, P.y, st) == Times(E, P, k)
  {
    var F, x, y, A, B := E.F, P.x, P.y, Times(E, P, k), Times(E, P, k + 1);
    var z := F.Mul(st.Z1, st.Z2);
    TimesOnCurve(E, P, k);
    TimesOnCurve(E, P, k + 1);
    Quotient(F, st.X1, st.Z1, A.x);
    var c := F.add(F.Mul(F.add(A.x, x), F.add(B.x, x)), F.add(F.Sq(x), y));
    Numerator(F, x, y, A.x, B.x, st.Z1, st.Z2);
    NonZeroProduct(F, st.Z1, st.Z2);
    CancelDenominator(F, c, x, z);
    FinishOrdinate(E, A, P, F.Mul(F.Mul(c, z), F.inv(F.Mul(x, z))));
    hide Add, Equation;
  }

  lemma Quotient(F: Field, X: nat, Z: nat, u: nat)
    requires IsField(F) && Represents(F, X, Z, u)
    ensures F.Mul(X, F.inv(Z)) == u
  {
    Assoc(F.M, u, Z, F.inv(Z));
    assert F.M.mul(u, 1) == F.M.mul(1, u);
  }

  /** When (k + 1)P is infinite the formulas return P, although kP is -P. */
  lemma FinishBeforeInfinity(E: Curve, P: Point, st: State, k: nat)
    requires IsCurve(E) && OnCurve(E, P) && P.Affine?
    requires Tracks(E, P, st, k) && Times(E, P, k).Affine? && Times(E, P, k + 1).Infinity?
    ensures Finish(E.F, P.x, P.y, st) == P && Times(E, P, k) == Neg(E, P)
  {
    var F, x, y, A := E.F, P.x, P.y, Times(E, P, k);
    TimesOnCurve(E, P, k);
    AddInfinite(E, A, P);
    NegOnCurve(E, A);
    Quotient(F, st.X1, st.Z1, x);
    AddSelf(F, st.X1);
    var p, c := F.add(st.X2, F.Mul(x, st.Z2)), F.add(y, F.Sq(x));
    assert F.M.mul(0, p) == F.M.mul(p, 0) == 0;
    assert F.M.mul(st.Z1, 0) == F.M.mul(c, 0) == 0;
    AddSelf(F, 0);
    AddSelf(F, x);
    var i := F.inv(F.Mul(x, 0));
    assert F.M.mul(0, i) == F.M.mul(i, 0) == 0;
    assert F.M.mul(0, 0) == 0;
    assert Same(F, F.add(y, 0), y);
  }

  /** When P is its own opposite its multiples alternate between infinity and P. */
  lemma {:induction false} MultiplesOfSelfOpposite(E: Curve, P: Point, k: nat)
    requires IsCurve(E) && P.Affine? && P.x == 0
    ensures Times(E, P, k) == if k % 2 == 0 then Infinity else P
  {
    if k > 0 {
      MultiplesOfSelfOpposite(E, P, k - 1);
      SelfOpposite(E, P);
    }
  }

  lemma NotSelfOpposite(E: Curve, P: Point, k: nat)
    requires IsCurve(E) && P.Affine?
    requires Times(E, P, k).Affine? && Times(E, P, k + 1).Affine?
    ensures P.x != 0
  {
    var even := if k % 2 == 0 then k else k + 1;
    if P.x == 0 { MultiplesOfSelfOpposite(E, P, even); }
  }

  /**
   The ladder returns kP for exactly those scalars for which kP is finite and, unless P is
   its own opposite, (k + 1)P is finite too.  Multiples at infinity on the way do no harm.
   */
  lemma LadderExact(E: Curve, P: Point, k: nat)
    requires LadderInput(E, P) && k > 0
    ensures Finish(E.F, P.x, P.y, Run(E.F, P.x, E.b, k)) == Times(E, P, k)
       <==> Times(E, P, k).Affine? && (Times(E, P, k + 1).Affine? || P.x == 0)
  {
    var st := Run(E.F, P.x, E.b, k);
    RunTracks(E, P, k);
    SelfOpposite(E, P);
    hide Run, Tracks;
    if Times(E, P, k).Affine? {
      if Times(E, P, k + 1).Infinity? {
        FinishBeforeInfinity(E, P, st, k);
      } else {
        NotSelfOpposite(E, P, k);
        FinishFinite(E, P, st, k);
      }
    }
    hide Times;
  }

  /** At infinity the inverse of zero decides; the program's inverse of zero is zero. */
  lemma FinishAtInfinity(F: Field, x: nat, y: nat, st: State)
    requires IsField(F) && F.inv(0) == 0 && st.Z1 == 0
    ensures Finish(F, x, y, st) == Affine(0, y)
  {
    assert F.M.mul(0, st.Z2) == F.M.mul(st.Z2, 0) == 0;
    assert F.M.mul(x, 0) == 0 && F.M.mul(st.X1, 0) == 0;
    var n := F.add(F.Mul(F.add(st.X1, F.Mul(x, st.Z1)), F.add(st.X2, F.Mul(x, st.Z2))), F.Mul(F.add(y, F.Sq(x)), 0));
    assert F.M.mul(n, 0) == 0;
    var c := F.add(x, 0);
    assert F.M.mul(0, c) == F.M.mul(c, 0) == 0;
    assert Same(F, F.add(y, 0), y);
  }

  /** What the ladder returns, for every k >= 1. */
  lemma LadderTotal(E: Curve, P: Point, k: nat)
    requires LadderInput(E, P) && k > 0 && E.F.inv(0) == 0
    ensures Finish(E.F, P.x, P.y, Run(E.F, P.x, E.b, k))
         == if Times(E, P, k).Infinity? then Affine(0, P.y)
            else if Times(E, P, k + 1).Infinity? then P
            else Times(E, P, k)
  {
    var st := Run(E.F, P.x, E.b, k);
    RunTracks(E, P, k);
    hide Run;
    if Times(E, P, k).Infinity? {
      FinishAtInfinity(E.F, P.x, P.y, st);
    } else if Times(E, P, k + 1).Infinity? {
      FinishBeforeInfinity(E, P, st, k);
    } else {
      NotSelfOpposite(E, P, k);
      FinishFinite(E, P, st, k);
    }
  }
}
