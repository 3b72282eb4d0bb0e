/**
 The points of ecc.cpp: two coordinates and a flag.  A point at infinity keeps the
 coordinates it had before, and some comparisons read them.  The functions here say what the
 program computes, leftover coordinates included; the lemmas say when that is the group law.
 */
module RawPoint {
  import opened Gf2Poly
  import opened Fermat
  import opened Field
  import opened Curve
  import opened Multiples

  datatype Raw = Raw(x: nat, y: nat, inf: bool)

  function Meaning(P: Raw): Point {
    if P.inf then Infinity else Affine(P.x, P.y)
  }

  predicate RawEqual(P: Raw, Q: Raw) {
    P.inf == Q.inf && (P.inf || (P.x == Q.x && P.y == Q.y))
  }

  /** Equality of the points meant: all points at infinity are equal, and none equals a finite one. */
  lemma RawEqualExact(P: Raw, Q: Raw)
    ensures RawEqual(P, Q) <==> Meaning(P) == Meaning(Q)
  {
  }

  /** Never infinite, whatever P is. */
  function RawNeg(E: Curve, P: Raw): Raw {
    Raw(P.x, E.F.add(P.x, P.y), false)
  }

  function FromAffine(P: Point): Raw
    requires P.Affine?
  {
    Raw(P.x, P.y, false)
  }

  function RawDouble(E: Curve, P: Raw): Raw {
    if RawEqual(P, RawNeg(E, P)) || P.inf then P.(inf := true)
    else FromAffine(Tangent(E, TangentSlope(E, Meaning(P)), Meaning(P)))
  }

  function RawAdd(E: Curve, P: Raw, Q: Raw): Raw {
    if RawEqual(P, Q) then RawDouble(E, P)
    else if RawEqual(P, RawNeg(E, Q)) then P.(inf := true)
    else if P.inf then Q
    else if Q.inf then P
    else FromAffine(Chord(E, ChordSlope(E, Meaning(P), Meaning(Q)), Meaning(P), Meaning(Q)))
  }

  function RawScalar(E: Curve, n: nat, R: Raw, A: Raw): Raw {
    if n == 0 then R
    else RawScalar(E, n / 2, if n % 2 == 1 then RawAdd(E, R, A) else R, RawDouble(E, A))
  }

  // ---------- One operation ----------

  /** Doubling is right on the curve, and a double at infinity keeps the coordinates of P. */
  lemma RawDoubleCorrect(E: Curve, P: Raw)
    requires IsCurve(E) && OnCurve(E, Meaning(P))
    ensures Meaning(RawDouble(E, P)) == Add(E, Meaning(P), Meaning(P))
    ensures RawDouble(E, P).inf ==> RawDouble(E, P) == P.(inf := true)
  {
    if !P.inf { SelfOpposite(E, Meaning(P)); }
  }

  /** Adding an infinite Q to a finite P whose coordinates are those of -Q. */
  predicate Confused(E: Curve, P: Raw, Q: Raw) {
    Q.inf && RawEqual(P, RawNeg(E, Q))
  }

  /** Addition is the group law except for confused arguments, for which it loses P. */
  lemma RawAddExact(E: Curve, P: Raw, Q: Raw)
    requires IsCurve(E) && OnCurve(E, Meaning(P)) && OnCurve(E, Meaning(Q))
    ensures Meaning(RawAdd(E, P, Q)) == Add(E, Meaning(P), Meaning(Q)) <==> !Confused(E, P, Q)
    ensures Confused(E, P, Q) ==> RawAdd(E, P, Q).inf
    ensures RawAdd(E, P, Q).inf ==> RawAdd(E, P, Q) == P.(inf := true)
  {
    RawDoubleCorrect(E, P);
    if !P.inf && !Q.inf {
      var p, q := Meaning(P), Meaning(Q);
      NegOnCurve(E, p);
      NegOnCurve(E, q);
      assert RawEqual(P, RawNeg(E, Q)) <==> p == Neg(E, q);
      if p.x == q.x { SameAbscissa(E, p, q); }
      hide Tangent, Chord, Equation;
    }
  }

  // ---------- Powers of two in the order of a point ----------

  /** The order of P is exactly 2^j. */
  ghost predicate OrderPow2(E: Curve, P: Point, j: nat) {
    j > 0 && Times(E, P, Pow2(j - 1)).Affine? && Times(E, P, Pow2(j)).Infinity?
  }

  lemma {:induction false} TimesOfMultiple(E: Curve, P: Point, d: nat, k: nat)
    requires Additive(E, P) && Times(E, P, d).Infinity?
    ensures Times(E, P, k * d).Infinity?
  {
    hide Add;
    if k > 0 {
      TimesOfMultiple(E, P, d, k - 1);
      AddTimes(E, P, (k - 1) * d, d);
      assert (k - 1) * d + d == k * d;
      AddInfinities(E);
    } else {
      assert k * d == 0;
    }
  }

  lemma AddInfinities(E: Curve)
    ensures Add(E, Infinity, Infinity) == Infinity
  {
  }

  lemma AddInfinityLeft(E: Curve, P: Point)
    ensures Add(E, Infinity, P) == P && Add(E, P, Infinity) == P
  {
  }

  /** When 2^j P is infinite, scalars count modulo 2^j. */
  lemma TimesModulo(E: Curve, P: Point, j: nat, r: nat, q: nat)
    requires Additive(E, P) && Times(E, P, Pow2(j)).Infinity?
    ensures Times(E, P, r + q * Pow2(j)) == Times(E, P, r)
  {
    hide Add, Times, Pow2, Additive;
    TimesOfMultiple(E, P, Pow2(j), q);
    AddTimes(E, P, r, q * Pow2(j));
    AddInfinityLeft(E, Times(E, P, r));
  }

  lemma OddMultiple(E: Curve, P: Point, j: nat, h: nat)
    requires Additive(E, P) && OrderPow2(E, P, j)
    ensures Times(E, P, 2 * h + 1).Affine?
  {
    hide Add, Times, Additive;
    var w, d := Pow2(j - 1), 2 * h + 1;
    assert w * d == w + h * Pow2(j) by { assert w * d == 2 * h * w + w; assert h * (2 * w) == 2 * h * w; }
    TimesModulo(E, P, j, w, h);
    if Times(E, P, d).Infinity? { TimesOfMultiple(E, P, d, w); }
  }

  /** No smaller positive multiple is infinite. */
  lemma {:induction false} SmallMultiples(E: Curve, P: Point, j: nat, d: nat)
    requires Additive(E, P) && OrderPow2(E, P, j) && 0 < d < Pow2(j)
    ensures Times(E, P, d).Affine?
    decreases j
  {
    hide Add, Times, Additive;
    if d % 2 == 1 {
      OddMultiple(E, P, j, d / 2);
    } else {
      var Q := Times(E, P, 2);
      assert j > 1 by { assert Pow2(1) == 2 * Pow2(0); }
      AdditiveOfMultiple(E, P, 2);
      TimesCompose(E, P, 2, Pow2(j - 2));
      TimesCompose(E, P, 2, Pow2(j - 1));
      assert Pow2(j) == Pow2(j - 1) * 2 && Pow2(j - 1) == Pow2(j - 2) * 2;
      SmallMultiples(E, Q, j - 1, d / 2);
      TimesCompose(E, P, 2, d / 2);
      assert d / 2 * 2 == d;
    }
  }

  /** Among the scalars below 2^j only 2^(j-1) gives the point of order 2. */
  lemma HalfOrder(E: Curve, P: Point, j: nat, r: nat)
    requires Additive(E, P) && OrderPow2(E, P, j) && r < Pow2(j)
    requires Times(E, P, r) == Times(E, P, Pow2(j - 1))
    ensures r == Pow2(j - 1)
  {
    hide Add, Times, Additive;
    var w := Pow2(j - 1);
    var lo, hi := if r < w then r else w, if r < w then w else r;
    if lo < hi {
      var up := Pow2(j) - lo;
      AddTimes(E, P, lo, up);
      AddTimes(E, P, hi, up);
      assert lo + up == Pow2(j) && hi + up == (hi - lo) + 1 * Pow2(j);
      TimesModulo(E, P, j, hi - lo, 1);
      SmallMultiples(E, P, j, hi - lo);
      assert false;
    }
  }

  // ---------- Runs ----------

  /** A run in which the current double is infinite. */
  lemma {:induction false} InfiniteTail(E: Curve, n: nat, R: Raw, A: Raw)
    requires IsCurve(E) && A.inf && OnCurve(E, Meaning(R))
    ensures Meaning(RawScalar(E, n, R, A))
         == if n > 0 && Confused(E, R, A) then Infinity else Meaning(R)
  {
    if n > 0 {
      RawAddExact(E, R, A);
      AddInfinityLeft(E, Meaning(R));
      var R' := if n % 2 == 1 then RawAdd(E, R, A) else R;
      assert RawDouble(E, A) == A;
      assert !Confused(E, R, A) ==> Meaning(R') == Meaning(R);
      assert Meaning(R') == Meaning(R) && !R.inf ==> R' == R;
      InfiniteTail(E, n / 2, R', A);
      hide RawAdd, RawDouble;
    }
  }

  /** The scalars the loop gets wrong: P has order 2^j, and n is 2^(j-1) modulo 2^j but not itself below 2^j. */
  ghost predicate LosesPoint(E: Curve, P: Point, n: nat) {
    exists j: nat :: OrderPow2(E, P, j) && High(n, j) > 0 && Low(n, j) == Pow2(j - 1)
  }

  /** If 2^j P is infinite, so are the further doubles. */
  lemma LaterDoubles(E: Curve, P: Point, j: nat, i: nat)
    requires Additive(E, P) && j <= i && Times(E, P, Pow2(j)).Infinity?
    ensures Times(E, P, Pow2(i)).Infinity?
  {
    hide Add, Times, Additive;
    PowersAdd(i - j, j);
    TimesOfMultiple(E, P, Pow2(j), Pow2(i - j));
  }

  /** Only j = i + 1 can make the loop lose a point once 2^i P is finite and 2^(i+1) P is not. */
  lemma OrderUnique(E: Curve, P: Point, i: nat, j: nat)
    requires Additive(E, P) && OrderPow2(E, P, i) && OrderPow2(E, P, j)
    ensures i == j
  {
    hide Times, Additive;
    if i < j { LaterDoubles(E, P, i, j - 1); }
    if j < i { LaterDoubles(E, P, j, i - 1); }
  }

  /** What the loop returns when the double first becomes infinite after bit i. */
  lemma TurnsInfinite(E: Curve, P: Point, n: nat, i: nat, R: Raw, A: Raw)
    requires IsCurve(E) && OnCurve(E, P) && Additive(E, P)
    requires A.inf && Affine(A.x, A.y) == Times(E, P, Pow2(i)) && OrderPow2(E, P, i + 1)
    requires Meaning(R) == Times(E, P, Low(n, i + 1))
    ensures Meaning(RawScalar(E, High(n, i + 1), R, A)) == Times(E, P, n) <==> !LosesPoint(E, P, n)
  {
    hide Add, Times, Additive, OnCurve, High, Low, Pow2;
    var j, r, L := i + 1, Low(n, i + 1), Times(E, P, Pow2(i));
    LowNext(n, j);
    TimesModulo(E, P, j, r, High(n, j));
    TimesOnCurve(E, P, r);
    TimesOnCurve(E, P, Pow2(i));
    InfiniteTail(E, High(n, j), R, A);
    assert Neg(E, L) == L by {
      AddTimes(E, P, Pow2(i), Pow2(i));
      assert Pow2(i) + Pow2(i) == Pow2(j) by { DoublePow2(i); }
      AddInfinite(E, L, L);
    }
    assert Confused(E, R, A) <==> Meaning(R) == L;
    if Meaning(R) == L { HalfOrder(E, P, j, r); }
    if LosesPoint(E, P, n) {
      var k: nat :| OrderPow2(E, P, k) && High(n, k) > 0 && Low(n, k) == Pow2(k - 1);
      OrderUnique(E, P, k, j);
    }
  }

  lemma {:induction false} NothingLeft(E: Curve, P: Point, n: nat, i: nat)
    requires Additive(E, P) && High(n, i) == 0 && Times(E, P, Pow2(i)).Affine?
    ensures Low(n, i) == n && !LosesPoint(E, P, n)
  {
    hide Add, Times, Additive, Low, Pow2;
    LowNext(n, i);
    LenHigh(n, i);
    forall j: nat | OrderPow2(E, P, j) ensures High(n, j) == 0 {
      if j <= i {
        LaterDoubles(E, P, j, i);
      }
      LenHigh(n, j);
      LenZero(High(n, j));
      LenZero(High(n, i));
    }
  }

  lemma {:induction false} FiniteRun(E: Curve, P: Point, n: nat, i: nat, R: Raw, A: Raw)
    requires IsCurve(E) && OnCurve(E, P) && Additive(E, P)
    requires !A.inf && Meaning(A) == Times(E, P, Pow2(i)) && Meaning(R) == Times(E, P, Low(n, i))
    ensures Meaning(RawScalar(E, High(n, i), R, A)) == Times(E, P, n) <==> !LosesPoint(E, P, n)
    decreases High(n, i)
  {
    hide Add, Times, Additive, OnCurve, High, Low, Pow2, LosesPoint, RawAdd, RawDouble;
    var h := High(n, i);
    if h == 0 {
      NothingLeft(E, P, n, i);
    } else {
      var R', A' := if h % 2 == 1 then RawAdd(E, R, A) else R, RawDouble(E, A);
      LowNext(n, i);
      TimesOnCurve(E, P, Low(n, i));
      TimesOnCurve(E, P, Pow2(i));
      RawAddExact(E, R, A);
      RawDoubleCorrect(E, A);
      AddTimes(E, P, Low(n, i), Pow2(i));
      AddTimes(E, P, Pow2(i), Pow2(i));
      DoublePow2(i);
      if A'.inf {
        TurnsInfinite(E, P, n, i, R', A');
      } else {
        FiniteRun(E, P, n, i + 1, R', A');
      }
    }
  }

  /**
   ecc.cpp computes nP from a finite P exactly when it does not lose the point; from an
   infinite P it is always right.
   */
  lemma RawScalarExact(E: Curve, P: Raw, n: nat)
    requires IsCurve(E) && OnCurve(E, Meaning(P)) && Additive(E, Meaning(P))
    ensures Meaning(RawScalar(E, n, P.(inf := true), P)) == Times(E, Meaning(P), n)
       <==> P.inf || !LosesPoint(E, Meaning(P), n)
  {
    if P.inf {
      InfiniteTail(E, n, P, P);
      TimesInfinity(E, n);
    } else {
      var p := Meaning(P);
      TimesOne(E, p);
      assert Times(E, p, 0) == Infinity;
      hide Times, RawScalar, LosesPoint, Additive;
      FiniteRun(E, p, n, 0, P.(inf := true), P);
    }
  }

  lemma {:induction false} TimesInfinity(E: Curve, n: nat)
    ensures Times(E, Infinity, n) == Infinity
  {
    if n > 0 { TimesInfinity(E, n - 1); }
  }

  /** A point of order 2 is lost at n = 3: the loop says infinity where 3P is P. */
  lemma LosesPointExample(E: Curve, y: nat)
    requires IsCurve(E) && OnCurve(E, Affine(0, y))
    ensures Meaning(RawScalar(E, 3, Raw(0, y, true), Raw(0, y, false))) == Infinity
    ensures Times(E, Affine(0, y), 3) == Affine(0, y) && LosesPoint(E, Affine(0, y), 3)
  {
    var P, A := Affine(0, y), Raw(0, y, true);
    SelfOpposite(E, P);
    assert Times(E, P, 0) == Infinity && Times(E, P, 1) == P && Times(E, P, 2) == Infinity && Times(E, P, 3) == P;
    hide Equation, IsField, Chord, Tangent;
    var R := RawAdd(E, A, A.(inf := false));
    assert R == A.(inf := false) && RawDouble(E, A.(inf := false)) == A;
    assert RawAdd(E, R, A) == A;
    assert RawScalar(E, 3, A, R) == RawScalar(E, 1, R, A) == RawScalar(E, 0, A, RawDouble(E, A));
    assert OrderPow2(E, P, 1) && High(3, 1) == 1 && Low(3, 1) == 1 by {
      assert Pow2(0) == 1 && Pow2(1) == 2;
      assert High(3, 1) == High(1, 0) && Low(3, 1) == 2 * Low(1, 0) + 1;
    }
    assert Pow2(0) == 1;
  }

  // ---------- The key exchange ----------

  /** What scalar_multiplication is called for. */
  function RawTimes(E: Curve, n: nat, P: Raw): Raw {
    RawScalar(E, n, P.(inf := true), P)
  }

  /** No multiple of a point of odd order is ever lost. */
  lemma OddOrderIsSafe(E: Curve, P: Point, h: nat, j: nat, n: nat)
    requires Additive(E, P) && Times(E, P, 2 * h + 1) == Infinity
    ensures !LosesPoint(E, Times(E, P, j), n)
  {
    hide Times, Additive, High, Low;
    var Q := Times(E, P, j);
    AdditiveOfMultiple(E, P, j);
    TimesCompose(E, P, j, 2 * h + 1);
    TimesOfMultiple(E, P, 2 * h + 1, j);
    assert (2 * h + 1) * j == j * (2 * h + 1);
    forall i: nat ensures !OrderPow2(E, Q, i) {
      if OrderPow2(E, Q, i) { OddMultiple(E, Q, i, h); }
    }
  }

  /** One public or shared point. */
  lemma SafeTimes(E: Curve, P: Point, h: nat, j: nat, A: Raw, n: nat)
    requires IsCurve(E) && OnCurve(E, P) && Additive(E, P) && Times(E, P, 2 * h + 1) == Infinity
    requires Meaning(A) == Times(E, P, j)
    ensures Meaning(RawTimes(E, n, A)) == Times(E, P, n * j)
  {
    hide Times, Additive, LosesPoint, IsCurve, OnCurve, RawScalar;
    TimesOnCurve(E, P, j);
    AdditiveOfMultiple(E, P, j);
    OddOrderIsSafe(E, P, h, j, n);
    RawScalarExact(E, A, n);
    TimesCompose(E, P, j, n);
  }

  /** From a base point of odd order both parties reach the same point, and the program sees that. */
  lemma SharedPoint(E: Curve, P: Raw, h: nat, ka: nat, kb: nat)
    requires IsCurve(E) && OnCurve(E, Meaning(P)) && Additive(E, Meaning(P))
    requires Times(E, Meaning(P), 2 * h + 1) == Infinity
    ensures var A, B := RawTimes(E, ka, P), RawTimes(E, kb, P);
            && RawEqual(RawTimes(E, kb, A), RawTimes(E, ka, B))
            && Meaning(RawTimes(E, kb, A)) == Times(E, Meaning(P), ka * kb)
  {
    hide Times, Additive, IsCurve, OnCurve, RawTimes, RawEqual, Meaning;
    var p := Meaning(P);
    TimesOne(E, p);
    SafeTimes(E, p, h, 1, P, ka);
    SafeTimes(E, p, h, 1, P, kb);
    assert ka * 1 == ka && kb * 1 == kb && ka * kb == kb * ka;
    var A, B := RawTimes(E, ka, P), RawTimes(E, kb, P);
    SafeTimes(E, p, h, ka, A, kb);
    SafeTimes(E, p, h, kb, B, ka);
    RawEqualExact(RawTimes(E, kb, A), RawTimes(E, ka, B));
  }
}
