/**
 src/sw_sim/simulation.py: points, double-and-add and the projective ladder.  The point at
 infinity is the pair (-1, 0), so coordinates are integers here.
 */
module SimulationCurve {
  import opened Gf2Poly
  import opened Fermat
  import opened Field
  import opened BinaryField
  import opened Wrappers
  import opened Curve
  import opened Multiples
  import Ladder
  import opened SimulationPy

  /** Python's xor: two's complement with unlimited sign. */
  function XorInt(a: int, b: int): int {
    if a >= 0 && b >= 0 then Xor(a, b)
    else if a < 0 && b < 0 then Xor(-1 - a, -1 - b)
    else if a < 0 then -1 - Xor(-1 - a, b)
    else -1 - Xor(a, -1 - b)
  }

  /** A point as the script keeps it. */
  predicate Valid(x: int, y: int, bitnum: nat) {
    (x == -1 && y == 0) || (x >= 0 && y >= 0 && Len(x) <= bitnum && Len(y) <= bitnum)
  }

  /** Negative coordinates, in particular (-1, 0), stand for infinity. */
  function Meaning(x: int, y: int): Point {
    if x < 0 || y < 0 then Infinity else Affine(x, y)
  }

  function CurveFor(bitnum: nat, a: nat, b: nat): Curve
    requires bitnum > 6
  {
    Curve(FieldOf(ModulusFor(bitnum)), a, b)
  }

  /** Bit i of an integer in two's complement. */
  predicate BitOf(a: int, i: nat) {
    if a >= 0 then Bit(a, i) else !Bit(-1 - a, i)
  }

  /** Xor works on each bit, signs included. */
  lemma XorIntBits(a: int, b: int, i: nat)
    ensures BitOf(XorInt(a, b), i) == (BitOf(a, i) != BitOf(b, i))
  {
    BitXor(if a >= 0 then a else -1 - a, if b >= 0 then b else -1 - b, i);
  }

  method PointNegation(x1: int, y1: int) returns (x: int, y: int)
    ensures x == x1 && y == XorInt(x1, y1)
  {
    x := x1;
    y := XorInt(x1, y1);
  }

  /** y = x + y exactly when x = 0. */
  lemma OwnNegative(x: nat, y: nat)
    ensures Xor(x, y) == y <==> x == 0
  {
    XorComm(x, y);
    XorCancel(y, x);
    XorSelf(y);
    XorZero(y);
  }

  lemma OppositeOfInfinity()
    ensures XorInt(-1, 0) == -1
  {
  }

  /** The double of P, by the cases the script distinguishes. */
  function Double(E: Curve, P: Point): Point {
    if P.Infinity? || P == Neg(E, P) then Infinity else Tangent(E, TangentSlope(E, P), P)
  }

  /** P and Q are points of a curve over a field. */
  ghost predicate Summable(E: Curve, P: Point, Q: Point) {
    IsCurve(E) && OnCurve(E, P) && OnCurve(E, Q)
  }

  /** The group law on one argument. */
  method PointDoubling(x1: int, y1: int, bitnum: nat, a: nat, k: int, ghost b: nat) returns (r: Result<(int, int)>)
    requires bitnum > 6 && Valid(x1, y1, bitnum) && Len(a) <= bitnum
    ensures r.Raised? <==> bitnum != 163 && (bitnum != 167 || k != 6) && x1 > 0
    ensures r.Ok? ==> Valid(r.value.0, r.value.1, bitnum)
    ensures r.Ok? ==> Meaning(r.value.0, r.value.1) == Double(CurveFor(bitnum, a, b), Meaning(x1, y1))
    ensures x1 <= 0 ==> r == Ok((-1, 0))
  {
    hide Len, MulMod, ModulusFor, Inverse, Xor;
    if x1 >= 0 { OwnNegative(x1, y1); }
    OppositeOfInfinity();
    assert Len(0) == 0 by { LenZero(0); }
    var nx, ny := PointNegation(x1, y1);
    if x1 == nx && y1 == ny {
      return Ok((-1, 0));
    } else if x1 == -1 {
      return Ok((-1, 0));
    }
    var x, y: nat := x1, y1;
    var temp1 :- InverseItoh(x, bitnum, k);
    var invMulY := MultipleHardware(y, temp1, bitnum, k);
    var lamb := Xor(x, invMulY.value);
    LenXor(x, invMulY.value);
    var lamb2 := Square(lamb, bitnum, k);
    var t := Xor(lamb2.value, lamb);
    LenXor(lamb2.value, lamb);
    var xo := Xor(t, a);
    LenXor(t, a);
    var x12 := Square(x, bitnum, k);
    var lambMulX := MultipleHardware(lamb, xo, bitnum, k);
    t := Xor(x12.value, lambMulX.value);
    LenXor(x12.value, lambMulX.value);
    var yo := Xor(t, xo);
    LenXor(t, xo);
    return Ok((xo, yo));
  }

  /** The last case of the addition: the chord through two points. */
  method ChordSum(x1: nat, y1: nat, x2: nat, y2: nat, bitnum: nat, a: nat, k: int, ghost b: nat) returns (r: Result<(int, int)>)
    requires bitnum > 6 && Valid(x1, y1, bitnum) && Valid(x2, y2, bitnum) && Len(a) <= bitnum
    ensures r.Ok? ==> Valid(r.value.0, r.value.1, bitnum)
    ensures r.Ok? <==> bitnum == 163 || (bitnum == 167 && k == 6)
    ensures r.Ok? ==>
              var E, P, Q := CurveFor(bitnum, a, b), Affine(x1, y1), Affine(x2, y2);
              Meaning(r.value.0, r.value.1) == Chord(E, ChordSlope(E, P, Q), P, Q)
  {
    hide Len, MulMod, ModulusFor, Inverse, Xor;
    XorComm(y2, y1); XorComm(x2, x1);
    var dy, dx: nat := Xor(y2, y1), Xor(x2, x1);
    LenXor(y2, y1);
    LenXor(x2, x1);
    var lamb0 :- InverseItoh(dx, bitnum, k);
    var lamb := MultipleHardware(dy, lamb0, bitnum, k);
    var l := lamb.value;
    var lamb2 := Square(l, bitnum, k);
    var xo := Xor(Xor(Xor(l, lamb2.value), Xor(x1, x2)), a);
    LenXor(l, lamb2.value); LenXor(x1, x2); LenXor(Xor(l, lamb2.value), Xor(x1, x2));
    LenXor(Xor(Xor(l, lamb2.value), Xor(x1, x2)), a);
    var x1x := Xor(x1, xo);
    LenXor(x1, xo);
    var lambMul := MultipleHardware(l, x1x, bitnum, k);
    var yo := Xor(Xor(lambMul.value, xo), y1);
    LenXor(lambMul.value, xo); LenXor(Xor(lambMul.value, xo), y1);
    XorComm(l, lamb2.value);
    return Ok((xo, yo));
  }

  /** The group law on points of the curve, infinity included. */
  method PointAddition(x1: int, y1: int, x2: int, y2: int, bitnum: nat, a: nat, k: int, ghost b: nat) returns (r: Result<(int, int)>)
    requires bitnum > 6 && Valid(x1, y1, bitnum) && Valid(x2, y2, bitnum) && Len(a) <= bitnum
    ensures r.Raised? <==> bitnum != 163 && (bitnum != 167 || k != 6) && x1 >= 0 && x2 >= 0
                           && (if (x1, y1) == (x2, y2) then x1 != 0 else (x1, y1) != (x2, XorInt(x2, y2)))
    ensures r.Ok? ==> Valid(r.value.0, r.value.1, bitnum)
    ensures r.Ok? && Summable(CurveFor(bitnum, a, b), Meaning(x1, y1), Meaning(x2, y2)) ==>
              Meaning(r.value.0, r.value.1) == Add(CurveFor(bitnum, a, b), Meaning(x1, y1), Meaning(x2, y2))
  {
    hide Len, ModulusFor, Xor, IsCurve, OnCurve, Tangent, TangentSlope, Add, Chord, ChordSlope;
    OppositeOfInfinity();
    ghost var E, P, Q := CurveFor(bitnum, a, b), Meaning(x1, y1), Meaning(x2, y2);
    if Summable(E, P, Q) { CodeCases(E, P, Q); }
    var nx, ny := PointNegation(x2, y2);
    if x1 != x2 || y1 != y2 {
      if x1 == nx && y1 == ny {
        return Ok((-1, 0));
      } else if x1 == -1 {
        return Ok((x2, y2));
      } else if x2 == -1 {
        return Ok((x1, y1));
      }
      r := ChordSum(x1, y1, x2, y2, bitnum, a, k, b);
    } else {
      r := PointDoubling(x1, y1, bitnum, a, k, b);
    }
  }

  /** The order in which the script tests its cases gives the group law on the curve. */
  lemma CodeCases(E: Curve, P: Point, Q: Point)
    requires Summable(E, P, Q)
    ensures Add(E, P, Q) ==
            if P == Q then Double(E, P)
            else if P == Neg(E, Q) && Q.Affine? then Infinity
            else if P.Infinity? then Q
            else if Q.Infinity? then P
            else Chord(E, ChordSlope(E, P, Q), P, Q)
  {
    NegOnCurve(E, P);
    NegOnCurve(E, Q);
    if P.Affine? && Q.Affine? && P.x == Q.x { SameAbscissa(E, P, Q); }
  }

  /** Double-and-add computes the k-fold sum. */
  method ScalarMultiple(k: int, x1: int, y1: int, bitnum: nat, a: nat, kPoly: int, ghost b: nat) returns (r: Result<(int, int)>)
    requires bitnum > 6 && Valid(x1, y1, bitnum) && Len(a) <= bitnum
    ensures r.Raised? <==> bitnum != 163 && (bitnum != 167 || kPoly != 6) && k > 0 && x1 > 0
    ensures r.Ok? ==> Valid(r.value.0, r.value.1, bitnum)
    ensures k <= 0 ==> r == Ok((-1, 0))
    ensures r.Ok? ==>
              var E, P := CurveFor(bitnum, a, b), Meaning(x1, y1);
              IsCurve(E) && OnCurve(E, P) && Additive(E, P) && k >= 0 ==>
                Meaning(r.value.0, r.value.1) == Times(E, P, k)
  {
    hide Len, ModulusFor, IsCurve, OnCurve, Additive, Add, Times;
    ghost var E, P := CurveFor(bitnum, a, b), Meaning(x1, y1);
    ghost var sound := IsCurve(E) && OnCurve(E, P) && Additive(E, P) && k >= 0;
    if sound {
      DoubleAndAddIsTimes(E, P, k);
      assert OnCurve(E, Infinity) by { InfinityOnCurve(E); }
    }
    var n, ax, ay, rx, ry := k, x1, y1, -1, 0;
    assert Len(0) == 0 by { LenZero(0); }
    while n > 0
      invariant Valid(ax, ay, bitnum) && Valid(rx, ry, bitnum)
      invariant sound ==> n >= 0 && OnCurve(E, Meaning(ax, ay)) && OnCurve(E, Meaning(rx, ry))
      invariant bitnum == 163 || (bitnum == 167 && kPoly == 6) || (n == k && (rx, ry, ax) == (-1, 0, x1)) || (x1 <= 0 && ax == -1)
      invariant k <= 0 ==> n == k && (rx, ry) == (-1, 0)
      invariant sound ==> DoubleAndAdd(E, n, Meaning(rx, ry), Meaning(ax, ay)) == Times(E, P, k)
    {
      if n % 2 == 1 {
        var t := PointAddition(rx, ry, ax, ay, bitnum, a, kPoly, b);
        if sound { AddClosed(E, Meaning(rx, ry), Meaning(ax, ay)); }
        rx, ry := t.value.0, t.value.1;
      }
      n := n / 2;
      var d :- PointDoubling(ax, ay, bitnum, a, kPoly, b);
      if sound { DoublingIsAdd(E, Meaning(ax, ay)); AddClosed(E, Meaning(ax, ay), Meaning(ax, ay)); }
      ax, ay := d.0, d.1;
    }
    return Ok((rx, ry));
  }

  lemma InfinityOnCurve(E: Curve)
    ensures OnCurve(E, Infinity)
  {
  }

  lemma DoublingIsAdd(E: Curve, P: Point)
    requires IsCurve(E) && OnCurve(E, P)
    ensures Add(E, P, P) == Double(E, P)
  {
  }

  // ---------- The projective ladder ----------

  /** The scalar's digits below the leading one, highest first: bin(k)[3:]. */
  function LowerDigits(k: nat): seq<bool> {
    Reverse(Digits(k, if k == 0 then 0 else Len(k) - 1))
  }

  /** The prefix of k read after i digits; k = 0 is treated like k = 1. */
  function Prefix(k: nat, i: nat): nat
    requires i <= |LowerDigits(k)|
  {
    if k == 0 then 1 else High(k, |LowerDigits(k)| - i)
  }

  lemma PrefixStart(k: nat)
    ensures Prefix(k, 0) == 1
  {
    if k > 0 {
      var n := Len(k) - 1;
      LenHigh(k, n);
      hide High, Len;
      LenZero(High(k, n));
      SmallLen(High(k, n));
    }
  }

  lemma PrefixNext(k: nat, i: nat)
    requires i < |LowerDigits(k)|
    ensures Prefix(k, i) > 0 ==> Prefix(k, i + 1) > 1
    ensures Prefix(k, i + 1) / 2 == Prefix(k, i)
    ensures Prefix(k, i + 1) % 2 == 1 <==> LowerDigits(k)[i]
  {
    var n := |LowerDigits(k)|;
    LowHighNext(k, n - i - 1);
    BitHigh(k, n - i - 1, 0);
  }

  predicate Short(st: Ladder.State, bitnum: nat) {
    Len(st.X1) <= bitnum && Len(st.Z1) <= bitnum && Len(st.X2) <= bitnum && Len(st.Z2) <= bitnum
  }

  /** The sum half of a round: p and q are the two cross products. */
  method SumHalf(xp: nat, X1: nat, Z1: nat, X2: nat, Z2: nat, bitnum: nat, kPoly: int) returns (r: Result<(nat, nat)>)
    requires bitnum > 6 && Len(xp) <= bitnum
    requires Len(X1) <= bitnum && Len(Z1) <= bitnum && Len(X2) <= bitnum && Len(Z2) <= bitnum
    ensures r.Raised? <==> bitnum != 163 && kPoly != 6
    ensures r.Ok? ==> Len(r.value.0) <= bitnum && Len(r.value.1) <= bitnum
    ensures bitnum == 163 || (bitnum >= 11 && kPoly == 6) ==>
              var m := Ladder.MAdd(FieldOf(ModulusFor(bitnum)), xp, X1, Z1, X2, Z2); r == Ok((m.X, m.Z))
  {
    hide Len, MulMod, ModulusFor, Xor, Inverse;
    var q :- MultipleHardware(X2, Z1, bitnum, kPoly);
    var p := MultipleHardware(X1, Z2, bitnum, kPoly);
    var T1 := Xor(p.value, q);
    LenXor(p.value, q);
    var X := MultipleHardware(p.value, q, bitnum, kPoly);
    var Z := Square(T1, bitnum, kPoly);
    var T := MultipleHardware(xp, Z.value, bitnum, kPoly);
    LenXor(X.value, T.value);
    return Ok((Xor(X.value, T.value), Z.value));
  }

  /** The doubling half of a round. */
  method DoubleHalf(b: nat, X: nat, Z: nat, bitnum: nat, kPoly: int) returns (r: Result<(nat, nat)>)
    requires bitnum > 6 && Len(b) <= bitnum && Len(X) <= bitnum && Len(Z) <= bitnum
    ensures r.Raised? <==> bitnum != 163 && kPoly != 6
    ensures r.Ok? ==> Len(r.value.0) <= bitnum && Len(r.value.1) <= bitnum
    ensures bitnum == 163 || (bitnum >= 11 && kPoly == 6) ==>
              var m := Ladder.MDouble(FieldOf(ModulusFor(bitnum)), b, X, Z); r == Ok((m.X, m.Z))
  {
    hide Len, MulMod, ModulusFor, Xor, Inverse;
    var Z2 :- Square(Z, bitnum, kPoly);
    var T1 := Square(Z2, bitnum, kPoly);
    T1 := MultipleHardware(b, T1.value, bitnum, kPoly);
    var X2 := Square(X, bitnum, kPoly);
    var Z' := MultipleHardware(X2.value, Z2, bitnum, kPoly);
    X2 := Square(X2.value, bitnum, kPoly);
    LenXor(X2.value, T1.value);
    return Ok((Xor(X2.value, T1.value), Z'.value));
  }

  /** One round: one register pair becomes the sum of the two, the other its double. */
  method LadderRound(xp: nat, b: nat, bitnum: nat, kPoly: int, bit: bool, st: Ladder.State) returns (r: Result<Ladder.State>)
    requires bitnum > 6 && Len(xp) <= bitnum && Len(b) <= bitnum && Short(st, bitnum)
    ensures r.Raised? <==> bitnum != 163 && kPoly != 6
    ensures r.Ok? ==> Short(r.value, bitnum)
    ensures bitnum == 163 || (bitnum >= 11 && kPoly == 6) ==> r.value == Ladder.Step(FieldOf(ModulusFor(bitnum)), xp, b, st, bit)
  {
    hide Len, MulMod, ModulusFor, Ladder.MAdd, Ladder.MDouble;
    if bit {
      var s :- SumHalf(xp, st.X1, st.Z1, st.X2, st.Z2, bitnum, kPoly);
      var d := DoubleHalf(b, st.X2, st.Z2, bitnum, kPoly);
      return Ok(Ladder.State(s.0, s.1, d.value.0, d.value.1));
    } else {
      var s :- SumHalf(xp, st.X2, st.Z2, st.X1, st.Z1, bitnum, kPoly);
      if bitnum == 163 || (bitnum >= 11 && kPoly == 6) { SumIsSymmetric(bitnum, xp, st.X1, st.Z1, st.X2, st.Z2); }
      var d := DoubleHalf(b, st.X1, st.Z1, bitnum, kPoly);
      return Ok(Ladder.State(d.value.0, d.value.1, s.0, s.1));
    }
  }

  lemma SumIsSymmetric(bitnum: nat, x: nat, X1: nat, Z1: nat, X2: nat, Z2: nat)
    requires bitnum > 6
    ensures var F := FieldOf(ModulusFor(bitnum)); Ladder.MAdd(F, x, X2, Z2, X1, Z1) == Ladder.MAdd(F, x, X1, Z1, X2, Z2)
  {
    hide MulMod, Xor, ModulusFor;
    var f := ModulusFor(bitnum);
    var p, q := MulMod(X1, Z2, f), MulMod(X2, Z1, f);
    MulModComm(p, q, f);
    XorComm(p, q);
  }

  /** The conversion at the end. */
  method ToAffine(xp: nat, yp: nat, st: Ladder.State, bitnum: nat, kPoly: int) returns (r: Result<(nat, nat)>)
    requires bitnum > 6 && Len(xp) <= bitnum && Len(yp) <= bitnum && Short(st, bitnum)
    ensures r.Raised? <==> bitnum != 163 && (bitnum != 167 || kPoly != 6)
    ensures r.Ok? ==> Affine(r.value.0, r.value.1) == Ladder.Finish(FieldOf(ModulusFor(bitnum)), xp, yp, st)
  {
    hide Len, MulMod, ModulusFor, Xor, Inverse;
    var T4 :- MultipleHardware(st.Z1, st.Z2, bitnum, kPoly);
    var m1 := MultipleHardware(xp, T4, bitnum, kPoly);
    var T2 :- InverseItoh(m1.value, bitnum, kPoly);
    m1 := MultipleHardware(xp, st.Z1, bitnum, kPoly);
    var m3 := MultipleHardware(xp, st.Z2, bitnum, kPoly);
    var T1 := Xor(st.X1, m1.value);
    LenXor(st.X1, m1.value);
    var T3 := Xor(st.X2, m3.value);
    LenXor(st.X2, m3.value);
    m1 := MultipleHardware(T1, T3, bitnum, kPoly);
    m3 := Square(xp, bitnum, kPoly);
    T3 := Xor(yp, m3.value);
    LenXor(yp, m3.value);
    m3 := MultipleHardware(T3, T4, bitnum, kPoly);
    T1 := Xor(m1.value, m3.value);
    LenXor(m1.value, m3.value);
    m1 := MultipleHardware(T1, T2, bitnum, kPoly);
    var i2 := InverseItoh(st.Z1, bitnum, kPoly);
    var m2 := MultipleHardware(st.X1, i2.value, bitnum, kPoly);
    T3 := Xor(xp, m2.value);
    LenXor(xp, m2.value);
    m1 := MultipleHardware(m1.value, T3, bitnum, kPoly);
    return Ok((m2.value, Xor(yp, m1.value)));
  }

  /**
   The ladder on the digits of k.  It never returns infinity; over an irreducible modulus,
   on a non-singular curve, LadderExact says for which k the result is kP.
   */
  method ScalarMultipleProjective(k: nat, x1: nat, y1: nat, bitnum: nat, b: nat, kPoly: int, ghost a: nat) returns (r: Result<(nat, nat)>)
    requires bitnum > 6 && Len(x1) <= bitnum && Len(y1) <= bitnum && Len(b) <= bitnum
    ensures r.Raised? <==> bitnum != 163 && (bitnum != 167 || kPoly != 6)
    ensures r.Ok? ==>
              var F := FieldOf(ModulusFor(bitnum));
              Affine(r.value.0, r.value.1)
              == Ladder.Finish(F, x1, y1, Ladder.Run(F, x1, b, if k == 0 then 1 else k))
    ensures r.Ok? ==>
              var E, P := CurveFor(bitnum, a, b), Affine(x1, y1);
              Ladder.LadderInput(E, P) && k > 0 ==>
                (Affine(r.value.0, r.value.1) == Times(E, P, k)
                 <==> Times(E, P, k).Affine? && (Times(E, P, k + 1).Affine? || x1 == 0))
    ensures r.Ok? ==>
              var E, P := CurveFor(bitnum, a, b), Affine(x1, y1);
              Ladder.LadderInput(E, P) && k > 0 ==>
                Affine(r.value.0, r.value.1)
                == if Times(E, P, k).Infinity? then Affine(0, y1)
                   else if Times(E, P, k + 1).Infinity? then P
                   else Times(E, P, k)
  {
    hide Len, MulMod, ModulusFor, Xor, Inverse, LowerDigits, Prefix, Ladder.Step, Ladder.Finish, Ladder.LadderInput, Times;
    ghost var E, P := CurveFor(bitnum, a, b), Affine(x1, y1);
    if Ladder.LadderInput(E, P) && k > 0 {
      Ladder.LadderExact(E, P, k);
      InverseOfZero(ModulusFor(bitnum));
      Ladder.LadderTotal(E, P, k);
    }
    var K := LowerDigits(k);
    var n := |K|;
    var Z2 :- Square(x1, bitnum, kPoly);
    var X2 := Square(Z2, bitnum, kPoly);
    assert Len(1) <= bitnum by { LenPow2(1, 1); LenMonotone(1, 1); assert Pow2(1) == 2 * Pow2(0); }
    LenXor(X2.value, b);
    var st := Ladder.State(x1, 1, Xor(X2.value, b), Z2);
    PrefixStart(k);
    for i := 0 to n
      invariant Short(st, bitnum)
      invariant bitnum == 163 || kPoly == 6
      invariant Prefix(k, i) > 0
      invariant bitnum == 163 || (bitnum >= 11 && kPoly == 6) ==> st == Ladder.Run(FieldOf(ModulusFor(bitnum)), x1, b, Prefix(k, i))
    {
      PrefixNext(k, i);
      var next := LadderRound(x1, b, bitnum, kPoly, K[i], st);
      st := next.value;
    }
    PrefixEnd(k);
    r := ToAffine(x1, y1, st, bitnum, kPoly);
  }

  lemma PrefixEnd(k: nat)
    ensures Prefix(k, |LowerDigits(k)|) == if k == 0 then 1 else k
  {
  }
}
