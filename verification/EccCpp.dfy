/**
 src/sw_sim/ecc.cpp: field and point arithmetic on arrays of coefficients.  The modulus is
 x^bitnum + p; coefficient i of an element is entry i of its array.
 */
module EccCpp {
  import opened Gf2Poly
  import opened Fermat
  import opened Field
  import opened BinaryField
  import opened Curve
  import opened Multiples
  import opened RawPoint

  // ---------- Arrays as polynomials ----------

  ghost function Value(a: array<bool>): nat
    reads a
  {
    FromBits(a[..])
  }

  // ---------- Field arithmetic ----------

  method Addition(a: array<bool>, b: array<bool>, bitnum: nat) returns (c: array<bool>)
    requires a.Length == bitnum && b.Length == bitnum
    ensures fresh(c) && c.Length == bitnum
    ensures Value(c) == Xor(Value(a), Value(b))
  {
    c := new bool[bitnum];
    for i := 0 to bitnum
      invariant forall k :: 0 <= k < i ==> c[k] == (a[k] != b[k])
    {
      c[i] := a[i] != b[i];
    }
    LenFromBits(a[..]);
    LenFromBits(b[..]);
    LenXor(Value(a), Value(b));
    forall k | 0 <= k < bitnum ensures c[..][k] == Bit(Xor(Value(a), Value(b)), k) {
      BitXor(Value(a), Value(b), k);
      BitFromBits(a[..], k);
      BitFromBits(b[..], k);
    }
    HoldsValue(c[..], Xor(Value(a), Value(b)));
  }

  /** One place up, in the array itself. */
  method ShiftUp(c: array<bool>, bitnum: nat, ghost r: nat)
    requires c.Length == bitnum > 0 && Value(c) == r
    modifies c
    ensures Value(c) == Low(2 * r, bitnum)
    ensures old(c[bitnum - 1]) == Bit(2 * r, bitnum)
  {
    ghost var s := c[..];
    var j := bitnum - 1;
    while j >= 1
      invariant 0 <= j < bitnum
      invariant forall k :: 0 <= k <= j ==> c[k] == s[k]
      invariant forall k :: j < k < bitnum ==> c[k] == s[k - 1]
    {
      c[j] := c[j - 1];
      j := j - 1;
    }
    c[0] := false;
    LenLow(2 * r, bitnum);
    forall k | 0 <= k < bitnum ensures c[..][k] == Bit(Low(2 * r, bitnum), k) {
      BitLow(2 * r, bitnum, k);
      if k > 0 { BitFromBits(s, k - 1); }
    }
    BitFromBits(s, bitnum - 1);
    HoldsValue(c[..], Low(2 * r, bitnum));
  }

  /** The bit-serial product is the remainder of the carry-less product by x^bitnum + p. */
  method Multiplication(a: array<bool>, b: array<bool>, p: array<bool>, bitnum: nat) returns (c: array<bool>)
    requires a.Length == bitnum && b.Length == bitnum && p.Length == bitnum
    ensures fresh(c) && c.Length == bitnum
    ensures Monic(bitnum, Value(p)) > 0
    ensures Value(c) == Rem(CMul(Value(a), Value(b)), Monic(bitnum, Value(p)))
  {
    ghost var A, B, q := Value(a), Value(b), Value(p);
    ghost var f := Monic(bitnum, q);
    LenFromBits(a[..]);
    LenFromBits(b[..]);
    LenFromBits(p[..]);
    MonicPositive(bitnum, q);
    c := new bool[bitnum](_ => false);
    var modP := false;
    ghost var r := 0;
    Initial(A, B, f, bitnum, c[..]);
    for i := bitnum downto 0
      invariant fresh(c) && c.Length == bitnum
      invariant r == Partial(A, B, f, i)
      invariant i > 0 || bitnum == 0 ==> Value(c) == Low(2 * r, bitnum) && modP == Bit(2 * r, bitnum)
      invariant i == 0 && bitnum > 0 ==> Value(c) == r
    {
      PartialNext(A, B, bitnum, q, i);
      BitFromBits(a[..], i);
      if a[i] {
        c := Addition(c, b, bitnum);
      }
      if modP {
        c := Addition(c, p, bitnum);
        modP := false;
      }
      r := Partial(A, B, f, i);
      modP := c[bitnum - 1];
      if i == 0 {
        assert High(A, 0) == A;
        return;
      }
      ShiftUp(c, bitnum, r);
    }
    assert High(A, 0) == A;
  }

  ghost function ModulusOf(p: array<bool>): (f: Modulus)
    requires p.Length > 0
    reads p
  {
    LenFromBits(p[..]);
    MonicPositive(p.Length, Value(p));
    Monic(p.Length, Value(p))
  }

  lemma ModulusDegree(p: array<bool>)
    requires p.Length > 0
    ensures Degree(ModulusOf(p)) == p.Length
  {
    LenFromBits(p[..]);
    RemFold(0, p.Length, Value(p));
  }

  lemma ValueElem(a: array<bool>, p: array<bool>)
    requires a.Length == p.Length > 0
    ensures FieldOf(ModulusOf(p)).Elem(Value(a))
  {
    LenFromBits(a[..]);
    ModulusDegree(p);
    ElemIsShort(Value(a), ModulusOf(p));
  }

  /** The inverse is the power a^(2^m - 2). */
  method InverseOf(a: array<bool>, p: array<bool>, bitnum: nat) returns (c: array<bool>)
    requires a.Length == bitnum && p.Length == bitnum > 0
    ensures fresh(c) && c.Length == bitnum
    ensures Value(c) == Inverse(Value(a), ModulusOf(p))
  {
    hide Rem, CMul, Len, Monic, FromBits, Inverse, SquarePower, InversePower, Pow2;
    ghost var A, f := Value(a), ModulusOf(p);
    ModulusDegree(p);
    ValueElem(a, p);
    InversionStart(f, A);
    InversionEnd(f, A);
    c := Multiplication(a, a, p, bitnum);
    var sqr := Multiplication(a, a, p, bitnum);
    var i := 2;
    while i < bitnum
      invariant i == 2 || 2 <= i <= bitnum
      invariant fresh(c) && c.Length == bitnum && fresh(sqr) && sqr.Length == bitnum
      invariant Value(sqr) == SquarePower(f, A, i - 1)
      invariant Value(c) == InversePower(f, A, i)
      invariant f == ModulusOf(p)
    {
      InversionRound(f, A, i - 1);
      InversionRound(f, A, i);
      sqr := Multiplication(sqr, sqr, p, bitnum);
      c := Multiplication(c, sqr, p, bitnum);
      i := i + 1;
    }
  }

  // ---------- Point arithmetic ----------

  /** A struct of two pointers and a flag, copied by value. */
  datatype PointRec = PointRec(x: array<bool>, y: array<bool>, isInf: bool)

  ghost function RawOf(P: PointRec): Raw
    reads P.x, P.y
  {
    Raw(Value(P.x), Value(P.y), P.isInf)
  }

  predicate Wide(P: PointRec, bitnum: nat) {
    P.x.Length == bitnum && P.y.Length == bitnum
  }

  /** The curve with coefficient a; the program never reads b. */
  ghost function CurveOf(a: array<bool>, p: array<bool>, b: nat): Curve
    requires p.Length > 0
    reads a, p
  {
    Curve(FieldOf(ModulusOf(p)), Value(a), b)
  }

  lemma CurveIsCurve(a: array<bool>, p: array<bool>, b: nat)
    requires a.Length == p.Length > 0 && Irreducible(ModulusOf(p)) && CurveOf(a, p, b).F.Elem(b)
    ensures IsCurve(CurveOf(a, p, b))
  {
    ValueElem(a, p);
    QuotientIsField(ModulusOf(p));
    hide IsField;
  }

  method Equal(P: PointRec, Q: PointRec, bitnum: nat) returns (eq: bool)
    requires Wide(P, bitnum) && Wide(Q, bitnum)
    ensures eq <==> Meaning(RawOf(P)) == Meaning(RawOf(Q))
    ensures eq == RawEqual(RawOf(P), RawOf(Q))
  {
    RawEqualExact(RawOf(P), RawOf(Q));
    eq := true;
    if P.isInf != Q.isInf {
      return false;
    } else if P.isInf && Q.isInf {
      return true;
    } else {
      var i := 0;
      while i < bitnum
        invariant 0 <= i <= bitnum && eq
        invariant P.x[..i] == Q.x[..i] && P.y[..i] == Q.y[..i]
      {
        if P.x[i] != Q.x[i] || P.y[i] != Q.y[i] {
          eq := false;
          break;
        }
        i := i + 1;
      }
      if eq {
        assert P.x[..] == P.x[..i] == Q.x[..] && P.y[..] == P.y[..i] == Q.y[..];
      } else {
        assert P.x[..][i] != Q.x[..][i] || P.y[..][i] != Q.y[..][i];
        if RawOf(P).x == RawOf(Q).x { SameValue(P.x[..], Q.x[..]); }
        if RawOf(P).y == RawOf(Q).y { SameValue(P.y[..], Q.y[..]); }
      }
    }
  }

  method PointNegation(P: PointRec, bitnum: nat, ghost E: Curve) returns (r: PointRec)
    requires Wide(P, bitnum) && forall s: nat, t: nat :: E.F.add(s, t) == Xor(s, t)
    ensures Wide(r, bitnum) && RawOf(r) == RawNeg(E, RawOf(P))
    ensures Meaning(RawOf(r)) == Neg(E, Affine(Value(P.x), Value(P.y)))
  {
    var y := Addition(P.x, P.y, bitnum);
    r := PointRec(P.x, y, false);
  }

  method PointDoubling(P: PointRec, a: array<bool>, p: array<bool>, bitnum: nat, ghost b: nat) returns (r: PointRec)
    requires Wide(P, bitnum) && a.Length == p.Length == bitnum > 0
    ensures Wide(r, bitnum) && RawOf(r) == RawDouble(CurveOf(a, p, b), RawOf(P))
  {
    hide Rem, CMul, Len, Xor, Monic, FromBits, Inverse;
    r := P;
    var neg := PointNegation(P, bitnum, CurveOf(a, p, b));
    var self := Equal(P, neg, bitnum);
    if self || P.isInf {
      r := r.(isInf := true);
    } else {
      var invX := InverseOf(P.x, p, bitnum);
      var t := Multiplication(P.y, invX, p, bitnum);
      var lamb := Addition(P.x, t, bitnum);
      var lamb2 := Multiplication(lamb, lamb, p, bitnum);
      var x2 := Multiplication(P.x, P.x, p, bitnum);
      t := Addition(lamb2, lamb, bitnum);
      var x := Addition(t, a, bitnum);
      var lambX := Multiplication(lamb, x, p, bitnum);
      t := Addition(x2, lambX, bitnum);
      var y := Addition(t, x, bitnum);
      r := PointRec(x, y, P.isInf);
    }
  }

  method PointAddition(P: PointRec, Q: PointRec, a: array<bool>, p: array<bool>, bitnum: nat, ghost b: nat) returns (r: PointRec)
    requires Wide(P, bitnum) && Wide(Q, bitnum) && a.Length == p.Length == bitnum > 0
    ensures Wide(r, bitnum) && RawOf(r) == RawAdd(CurveOf(a, p, b), RawOf(P), RawOf(Q))
  {
    hide Rem, CMul, Len, Xor, Monic, FromBits, Inverse, RawDouble;
    r := P;
    var negQ := PointNegation(Q, bitnum, CurveOf(a, p, b));
    var same := Equal(P, Q, bitnum);
    if !same {
      var opposite := Equal(P, negQ, bitnum);
      if opposite {
        r := r.(isInf := true);
      } else if P.isInf {
        r := Q;
      } else if Q.isInf {
        r := P;
      } else {
        var dx := Addition(P.x, Q.x, bitnum);
        var dy := Addition(P.y, Q.y, bitnum);
        var invDx := InverseOf(dx, p, bitnum);
        var lamb := Multiplication(dy, invDx, p, bitnum);
        var lamb2 := Multiplication(lamb, lamb, p, bitnum);
        var s := Addition(lamb2, lamb, bitnum);
        var t := Addition(P.x, Q.x, bitnum);
        s := Addition(s, t, bitnum);
        var x := Addition(s, a, bitnum);
        s := Addition(P.x, x, bitnum);
        t := Multiplication(lamb, s, p, bitnum);
        s := Addition(t, x, bitnum);
        var y := Addition(s, P.y, bitnum);
        r := PointRec(x, y, P.isInf);
      }
    } else {
      r := PointDoubling(P, a, p, bitnum, b);
    }
  }

  /**
   The loop computes the recursion RawScalar.  Over an irreducible modulus, from a point of the
   curve, that is nP exactly when the point is not lost.
   */
  method ScalarMultiplication(n: int, P: PointRec, a: array<bool>, p: array<bool>, bitnum: nat, ghost b: nat)
    returns (r: PointRec)
    requires Wide(P, bitnum) && a.Length == p.Length == bitnum > 0
    ensures Wide(r, bitnum)
    ensures RawOf(r) == RawScalar(CurveOf(a, p, b), if n > 0 then n else 0, RawOf(P).(inf := true), RawOf(P))
    ensures var E, Q := CurveOf(a, p, b), Meaning(RawOf(P));
            Irreducible(ModulusOf(p)) && E.F.Elem(b) && OnCurve(E, Q) && Additive(E, Q) && n >= 0 ==>
              (Meaning(RawOf(r)) == Times(E, Q, n) <==> P.isInf || !LosesPoint(E, Q, n))
  {
    hide Times, OnCurve, Additive, LosesPoint, Irreducible, RawAdd, RawDouble, FromBits, Monic;
    ghost var E := CurveOf(a, p, b);
    ghost var Q := Meaning(RawOf(P));
    ghost var sound := Irreducible(ModulusOf(p)) && E.F.Elem(b) && OnCurve(E, Q) && Additive(E, Q) && n >= 0;
    if sound {
      CurveIsCurve(a, p, b);
      RawScalarExact(E, RawOf(P), n);
    }
    var k, A := n, P;
    r := P.(isInf := true);
    ghost var goal := RawScalar(E, if n > 0 then n else 0, RawOf(r), RawOf(A));
    while k > 0
      invariant Wide(r, bitnum) && Wide(A, bitnum)
      invariant E == CurveOf(a, p, b)
      invariant goal == RawScalar(E, if k > 0 then k else 0, RawOf(r), RawOf(A))
    {
      if k % 2 == 1 {
        r := PointAddition(r, A, a, p, bitnum, b);
      }
      A := PointDoubling(A, a, p, bitnum, b);
      k := k / 2;
    }
  }
}
