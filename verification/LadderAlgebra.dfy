/**
 The formulas behind the projective ladder of simulation.py: abscissae of sums and doubles
 without ordinates, and the recovery of the ordinate at the end.
 */
module LadderAlgebra {
  import opened Fermat
  import opened Field
  import opened Curve

  // ---------- Differential addition ----------

  /** With n' = n + u: (l^2 + l) + (l'^2 + l') = t^2 + t where l, l', t are n, n', u over d. */
  lemma SlopeDifference(F: Field, n: nat, u: nat, i: nat)
    requires IsField(F)
    ensures var l, k, t := F.Mul(n, i), F.Mul(F.add(n, u), i), F.Mul(u, i);
            F.add(F.add(F.Sq(l), l), F.add(F.Sq(k), k)) == F.add(F.Sq(t), t)
  {
    var l, k, t := F.Mul(n, i), F.Mul(F.add(n, u), i), F.Mul(u, i);
    Expand(F);
    assert k == F.add(l, t) by { assert F.Mul(F.add(n, u), i) == F.Mul(i, F.add(n, u)); }
    SqAdd(F, l, t);
    assert Same(F, F.add(F.add(F.Sq(l), l), F.add(F.Sq(k), k)), F.add(F.Sq(t), t));
  }

  /** (t^2 + t) d^2 = u^2 + ud when t d = u. */
  lemma ScaleSlope(F: Field, t: nat, d: nat, u: nat)
    requires IsField(F) && F.Mul(t, d) == u
    ensures F.Mul(F.Sq(d), F.add(F.Sq(t), t)) == F.add(F.Sq(u), F.Mul(u, d))
  {
    Swap(F.M, t, t, d, d);
    Assoc(F.M, t, d, d);
    Expand(F);
    assert F.Mul(F.Sq(d), F.Sq(t)) == F.Sq(u);
    assert F.Mul(F.Sq(d), t) == F.Mul(u, d);
  }

  /** (t^2 + t) d^2 = uv when t d = u and d = u + v. */
  lemma ClearDenominator(F: Field, t: nat, u: nat, v: nat)
    requires IsField(F) && F.Mul(t, F.add(u, v)) == u
    ensures F.Mul(F.add(F.Sq(t), t), F.Sq(F.add(u, v))) == F.Mul(u, v)
  {
    var d := F.add(u, v);
    ScaleSlope(F, t, d, u);
    assert F.Mul(u, d) == F.add(F.Sq(u), F.Mul(u, v)) by { Expand(F); }
    assert Same(F, F.add(F.Sq(u), F.Mul(u, d)), F.Mul(u, v));
    assert F.Mul(F.add(F.Sq(t), t), F.Sq(d)) == F.Mul(F.Sq(d), F.add(F.Sq(t), t));
  }

  /** x(A + B) + x(B - A) = x(A) x(B) / (x(A) + x(B))^2. */
  lemma DifferentialAddition(E: Curve, A: Point, B: Point)
    requires IsCurve(E) && OnCurve(E, A) && OnCurve(E, B)
    requires A.Affine? && B.Affine? && A.x != B.x
    ensures Add(E, A, B).Affine? && Add(E, B, Neg(E, A)).Affine?
    ensures E.F.Mul(E.F.add(Add(E, A, B).x, Add(E, B, Neg(E, A)).x), E.F.Sq(E.F.add(A.x, B.x))) == E.F.Mul(A.x, B.x)
  {
    var F, N := E.F, Neg(E, A);
    var d, n := F.add(A.x, B.x), F.add(A.y, B.y);
    var i := F.inv(d);
    var l, k, t := F.Mul(n, i), F.Mul(F.add(n, A.x), i), F.Mul(A.x, i);
    assert Same(F, F.add(B.x, N.x), d);
    assert Same(F, F.add(B.y, N.y), F.add(n, A.x));
    AddZeroEq(F, A.x, B.x);
    SlopeDifference(F, n, A.x, i);
    var S, D := Add(E, A, B), Add(E, B, N);
    assert S == Chord(E, l, A, B) && D == Chord(E, k, B, N);
    assert F.add(S.x, D.x) == F.add(F.Sq(t), t) by {
      assert Same(F, F.add(S.x, D.x), F.add(F.add(F.Sq(l), l), F.add(F.Sq(k), k)));
    }
    DivMul(F, A.x, d);
    ClearDenominator(F, t, A.x, B.x);
  }

  // ---------- Doubling ----------

  /** x(2A) x(A)^2 = x(A)^4 + b. */
  lemma DoubleAbscissa(E: Curve, A: Point)
    requires IsCurve(E) && OnCurve(E, A) && A.Affine? && A.x != 0
    ensures var T := Tangent(E, TangentSlope(E, A), A);
            E.F.Mul(T.x, E.F.Sq(A.x)) == E.F.add(E.F.Sq(E.F.Sq(A.x)), E.b)
  {
    var F, x, y, l := E.F, A.x, A.y, TangentSlope(E, A);
    var q, u := F.Sq(x), F.add(F.Sq(x), y);
    var T, s := Tangent(E, l, A), F.add(F.Sq(l), l);
    TangentSlopeMul(E, A);
    ScaleSlope(F, l, x, u);
    SqAdd(F, q, y);
    assert F.Mul(T.x, q) == F.add(F.Mul(q, s), F.Mul(E.a, q)) by {
      Expand(F);
      assert F.Mul(T.x, q) == F.Mul(q, F.add(s, E.a));
    }
    assert F.Mul(u, x) == F.add(F.Mul(x, q), F.Mul(x, y)) by {
      Expand(F);
      assert F.Mul(u, x) == F.Mul(x, u);
    }
    hide Tangent, TangentSlope;
    forall i: nat ensures F.bit(F.Mul(T.x, q), i) == F.bit(F.add(F.Sq(q), E.b), i) {
      assert F.bit(F.add(F.Sq(y), F.Mul(x, y)), i) == F.bit(F.add(F.add(F.Mul(x, q), F.Mul(E.a, q)), E.b), i);
    }
    assert Same(F, F.Mul(T.x, q), F.add(F.Sq(q), E.b));
  }

  // ---------- Recovering the ordinate ----------

  /** d^2 e where l d = n and e = l^2 + l + (xA + a). */
  lemma ScaledLead(F: Field, l: nat, d: nat, n: nat, c: nat)
    requires IsField(F) && F.Mul(l, d) == n
    ensures F.Mul(d, F.Mul(d, F.add(F.add(F.Sq(l), l), c))) == F.add(F.add(F.Sq(n), F.Mul(n, d)), F.Mul(c, F.Sq(d)))
  {
    var q, e := F.Sq(d), F.add(F.add(F.Sq(l), l), c);
    Assoc(F.M, d, d, e);
    Swap(F.M, l, l, d, d);
    Assoc(F.M, l, d, d);
    Expand(F);
    assert F.Mul(q, e) == F.add(F.add(F.Mul(q, F.Sq(l)), F.Mul(q, l)), F.Mul(q, c));
  }

  /**
   The identity behind the recovery: with s = u + x, n = v + y, for two points (u, v) and
   (x, y) of the curve, n^2 + ns + (u + a)s^2 + s(x^2 + y) = xn.
   */
  lemma RecoveryIdentity(E: Curve, x: nat, y: nat, u: nat, v: nat)
    requires IsCurve(E) && Equation(E, x, y) && Equation(E, u, v)
    ensures var F := E.F; var s, n := F.add(u, x), F.add(v, y);
            F.add(F.add(F.add(F.Sq(n), F.Mul(n, s)), F.Mul(F.add(u, E.a), F.Sq(s))), F.Mul(s, F.add(F.Sq(x), y)))
            == F.Mul(x, n)
  {
    var F, a := E.F, E.a;
    var s, n := F.add(u, x), F.add(v, y);
    var p, q := F.Sq(u), F.Sq(x);
    SqAdd(F, v, y);
    SqAdd(F, u, x);
    assert F.Mul(n, s) == F.add(F.add(F.Mul(u, v), F.Mul(x, v)), F.add(F.Mul(u, y), F.Mul(x, y))) by {
      Expand(F);
      assert F.Mul(n, s) == F.add(F.Mul(n, u), F.Mul(n, x));
      assert F.Mul(n, u) == F.Mul(u, n) && F.Mul(n, x) == F.Mul(x, n);
      assert Same(F, F.Mul(n, s), F.add(F.add(F.Mul(u, v), F.Mul(x, v)), F.add(F.Mul(u, y), F.Mul(x, y))));
    }
    var c := F.add(u, a);
    assert F.Mul(c, F.Sq(s)) == F.add(F.add(F.Mul(u, p), F.Mul(a, p)), F.add(F.Mul(u, q), F.Mul(a, q))) by {
      Expand(F);
      assert F.Mul(c, F.Sq(s)) == F.add(F.Mul(c, p), F.Mul(c, q));
      assert F.Mul(c, p) == F.Mul(p, c) && F.Mul(c, q) == F.Mul(q, c);
    }
    assert F.Mul(s, F.add(q, y)) == F.add(F.add(F.Mul(u, q), F.Mul(x, q)), F.add(F.Mul(u, y), F.Mul(x, y))) by {
      Expand(F);
      assert F.Mul(s, q) == F.Mul(q, s) && F.Mul(s, y) == F.Mul(y, s);
    }
    assert F.Mul(x, n) == F.add(F.Mul(x, v), F.Mul(x, y)) by { Expand(F); }
    var l := F.add(F.add(F.add(F.Sq(n), F.Mul(n, s)), F.Mul(c, F.Sq(s))), F.Mul(s, F.add(q, y)));
    forall i: nat ensures F.bit(l, i) == F.bit(F.Mul(x, n), i) {
      assert F.bit(F.add(F.Sq(y), F.Mul(x, y)), i) == F.bit(F.add(F.add(F.Mul(x, q), F.Mul(a, q)), E.b), i);
      assert F.bit(F.add(F.Sq(v), F.Mul(u, v)), i) == F.bit(F.add(F.add(F.Mul(u, p), F.Mul(a, p)), E.b), i);
    }
    assert Same(F, l, F.Mul(x, n));
  }

  /** x (y(A) + y) = s (s e + x^2 + y), with s = x(A) + x and e = x(A + P) + x for P = (x, y). */
  lemma OrdinateRecovery(E: Curve, A: Point, P: Point)
    requires IsCurve(E) && OnCurve(E, A) && OnCurve(E, P)
    requires A.Affine? && P.Affine? && A.x != P.x
    ensures var F, B := E.F, Add(E, A, P);
            var s, e := F.add(A.x, P.x), F.add(B.x, P.x);
            F.Mul(P.x, F.add(A.y, P.y)) == F.Mul(s, F.add(F.Mul(s, e), F.add(F.Sq(P.x), P.y)))
  {
    var F, B, l := E.F, Add(E, A, P), ChordSlope(E, A, P);
    var s, n, e, c := F.add(A.x, P.x), F.add(A.y, P.y), F.add(B.x, P.x), F.add(A.x, E.a);
    ChordSlopeMul(E, A, P);
    assert Same(F, e, F.add(F.add(F.Sq(l), l), c));
    ScaledLead(F, l, s, n, c);
    RecoveryIdentity(E, P.x, P.y, A.x, A.y);
    hide Chord, ChordSlope, Add, Equation;
    var t := F.add(F.Sq(P.x), P.y);
    assert Triple(s, F.Mul(s, e), t);
  }
}
