/**
 GF(2)[x] modulo f, and the proof that it satisfies the laws of module Field when f is
 irreducible.
 */
module BinaryField {
  import opened Gf2Poly
  import opened Fermat
  import opened Field

  /** A modulus of degree at least 1. */
  type Modulus = f: nat | f > 1 witness 2

  function MulMod(a: nat, b: nat, f: Modulus): nat {
    Rem(CMul(a, b), f)
  }

  function Degree(f: Modulus): nat {
    Len(f) - 1
  }

  function MonoidOf(f: Modulus): Monoid {
    Monoid(Pow2(Degree(f)), (a: nat, b: nat) => MulMod(a, b, f))
  }

  /** a^(2^m - 2), where m is the degree of f; a^2 when m is 1, as the loops of the source give. */
  function Inverse(a: nat, f: Modulus): nat {
    var n := Pow2(Degree(f));
    Pow(MonoidOf(f), a, if n > 2 then n - 2 else 2)
  }

  function FieldOf(f: Modulus): Field {
    Field(MonoidOf(f), (a: nat, b: nat) => Xor(a, b), (a: nat) => Inverse(a, f), (a: nat, i: nat) => Bit(a, i))
  }

  ghost predicate Irreducible(f: Modulus) {
    forall a: nat, b: nat {:trigger CMul(a, b)} :: CMul(a, b) == f ==> a == 1 || b == 1
  }

  // ---------- Ring laws ----------

  lemma MulModComm(a: nat, b: nat, f: Modulus)
    ensures MulMod(a, b, f) == MulMod(b, a, f)
  {
    CMulComm(a, b);
  }

  lemma MulModAssoc(a: nat, b: nat, c: nat, f: Modulus)
    ensures MulMod(MulMod(a, b, f), c, f) == MulMod(a, MulMod(b, c, f), f)
  {
    hide CMul, Rem;
    CMulComm(MulMod(a, b, f), c);
    RemMulRight(c, CMul(a, b), f);
    CMulComm(c, CMul(a, b));
    CMulAssoc(a, b, c);
    RemMulRight(a, CMul(b, c), f);
  }

  lemma MulModDistrib(a: nat, b: nat, c: nat, f: Modulus)
    ensures MulMod(a, Xor(b, c), f) == Xor(MulMod(a, b, f), MulMod(a, c, f))
  {
    hide CMul, Rem, Xor;
    CMulDistribRight(a, b, c);
    RemXor(CMul(a, b), CMul(a, c), f);
  }

  lemma ElemIsShort(a: nat, f: Modulus)
    ensures a < Pow2(Degree(f)) <==> Len(a) < Len(f)
  {
    LenPow2(a, Degree(f));
  }

  lemma MulModElem(a: nat, b: nat, f: Modulus)
    ensures MulMod(a, b, f) < Pow2(Degree(f))
  {
    ElemIsShort(MulMod(a, b, f), f);
  }

  lemma MulModOne(a: nat, f: Modulus)
    requires Len(a) < Len(f)
    ensures MulMod(1, a, f) == a
  {
    CMulOne(a);
    RemSmall(a, f);
  }

  lemma RingIsMonoid(f: Modulus)
    ensures IsMonoid(MonoidOf(f))
  {
    var M := MonoidOf(f);
    LenMonotone(2, f);
    assert Degree(f) >= 1 && Pow2(Degree(f)) > 1;
    forall a: nat, b: nat ensures M.mul(a, b) == M.mul(b, a) { MulModComm(a, b, f); }
    forall a: nat, b: nat, c: nat ensures M.mul(M.mul(a, b), c) == M.mul(a, M.mul(b, c)) { MulModAssoc(a, b, c, f); }
    forall a: nat, b: nat ensures M.mul(a, b) < M.size { MulModElem(a, b, f); }
    forall a: nat | a < M.size ensures M.mul(1, a) == a {
      ElemIsShort(a, f);
      MulModOne(a, f);
    }
    hide MulMod, Pow2, Len;
  }

  // ---------- No zero divisors ----------

  lemma MulModZero(a: nat, f: Modulus)
    ensures MulMod(a, 0, f) == 0
  {
    CMulZeroRight(a);
  }

  lemma DivisorRelation(a: nat, b: nat, f: Modulus, q: nat, r: nat)
    requires f == Xor(CMul(q, a), r) && MulMod(a, b, f) == 0
    ensures MulMod(r, b, f) == 0
  {
    hide CMul, Rem, Xor;
    CMulDistribLeft(CMul(q, a), r, b);
    CMulAssoc(q, a, b);
    RemMulRight(q, CMul(a, b), f);
    assert MulMod(q, 0, f) == 0 by { MulModZero(q, f); }
    RemXor(CMul(CMul(q, a), b), CMul(r, b), f);
    CMulComm(f, b);
    RemMultiple(b, f);
    XorZeroEq(0, Rem(CMul(r, b), f));
    assert Xor(0, Rem(CMul(r, b), f)) == 0;
  }

  lemma LenLess(a: nat, b: nat)
    requires Len(a) < Len(b)
    ensures a < b
  {
    if b <= a { LenMonotone(b, a); }
  }

  /** Descent on a: dividing f by a zero divisor a gives a smaller zero divisor. */
  lemma {:induction false} NoZeroDivisorsMod(a: nat, b: nat, f: Modulus)
    requires Irreducible(f)
    requires 0 < Len(a) < Len(f) && Len(b) < Len(f) && MulMod(a, b, f) == 0
    ensures b == 0
    decreases a
  {
    hide CMul, Rem, Xor, MulMod, Quo;
    var q, r := Quo(f, a), Rem(f, a);
    DivisionExists(f, a);
    LenLess(r, a);
    DivisorRelation(a, b, f, q, r);
    if r == 0 {
      XorComm(CMul(q, a), 0);
      assert CMul(q, a) == f by { XorZero(CMul(q, a)); }
      if a == 1 {
        MulModOne(b, f);
      } else {
        assert q == 1;
        CMulOne(a);
      }
    } else {
      assert 0 < Len(r) by { LenPositive(r); }
      NoZeroDivisorsMod(r, b, f);
    }
  }

  lemma XorZero(a: nat)
    ensures Xor(a, 0) == a
  {
  }

  lemma LenPositive(a: nat)
    requires a > 0
    ensures Len(a) > 0
  {
  }

  lemma CancelMod(a: nat, b: nat, c: nat, f: Modulus)
    requires Irreducible(f)
    requires 0 < Len(a) < Len(f) && Len(b) < Len(f) && Len(c) < Len(f)
    requires MulMod(a, b, f) == MulMod(a, c, f)
    ensures b == c
  {
    hide CMul, Rem, Xor, MulMod, Irreducible;
    MulModDistrib(a, b, c, f);
    XorSelf(MulMod(a, b, f));
    LenXor(b, c);
    NoZeroDivisorsMod(a, Xor(b, c), f);
    XorZeroEq(b, c);
  }

  lemma IrreducibleCancels(f: Modulus)
    requires Irreducible(f)
    ensures NonZeroCancels(MonoidOf(f))
  {
    var M := MonoidOf(f);
    hide MulMod, Irreducible;
    forall a: nat, b: nat | Unit(M, a) && Unit(M, b) ensures Unit(M, M.mul(a, b)) {
      MulModElem(a, b, f);
      ElemIsShort(a, f);
      ElemIsShort(b, f);
      if MulMod(a, b, f) == 0 { NoZeroDivisorsMod(a, b, f); }
    }
    forall a: nat, b: nat, c: nat | Unit(M, a) && b < M.size && c < M.size && M.mul(a, b) == M.mul(a, c)
      ensures b == c
    {
      ElemIsShort(a, f); ElemIsShort(b, f); ElemIsShort(c, f);
      CancelMod(a, b, c, f);
    }
  }

  // ---------- The field ----------

  /** The inversion takes 0 to 0. */
  lemma InverseOfZero(f: Modulus)
    ensures Inverse(0, f) == 0
  {
    hide MulMod;
    var n := Pow2(Degree(f));
    var p := Pow(MonoidOf(f), 0, (if n > 2 then n - 2 else 2) - 1);
    MulModZero(p, f);
    MulModComm(0, p, f);
  }

  lemma InverseElem(a: nat, f: Modulus)
    ensures Inverse(a, f) < Pow2(Degree(f))
  {
    RingIsMonoid(f);
    PowInRange(MonoidOf(f), a, if Pow2(Degree(f)) > 2 then Pow2(Degree(f)) - 2 else 2);
  }

  /** The power a^(2^m - 2) is the inverse of a: Fermat's theorem for the field. */
  lemma InverseWorks(a: nat, f: Modulus)
    requires Irreducible(f) && Unit(MonoidOf(f), a)
    ensures MulMod(a, Inverse(a, f), f) == 1
  {
    var M, n := MonoidOf(f), Pow2(Degree(f));
    RingIsMonoid(f);
    IrreducibleCancels(f);
    FermatTheorem(M, a);
    hide IsMonoid, NonZeroCancels, Irreducible;
    if n > 2 {
      assert Pow(M, a, n - 1) == M.mul(a, Pow(M, a, n - 2));
    } else {
      assert n == 2 && a == 1;
      PowOfOne(M, 2);
      assert Pow(M, a, 1) == M.mul(a, Pow(M, a, 0));
    }
  }

  /** GF(2)[x]/(f) is a field of characteristic 2 when f is irreducible. */
  lemma QuotientIsField(f: Modulus)
    requires Irreducible(f)
    ensures IsField(FieldOf(f))
  {
    var F := FieldOf(f);
    RingIsMonoid(f);
    hide IsMonoid, Irreducible, MulMod, Xor, Bit, Inverse;
    forall a: nat, b: nat, i: nat ensures F.bit(F.add(a, b), i) == (F.bit(a, i) != F.bit(b, i)) { BitXor(a, b, i); }
    forall i: nat ensures !F.bit(0, i) { BitZero(i); }
    forall a: nat, b: nat | Same(F, a, b) ensures a == b {
      forall i: nat ensures Bit(a, i) == Bit(b, i) { assert F.bit(a, i) == F.bit(b, i); }
      BitsDetermine(a, b);
    }
    forall a: nat, b: nat | F.Elem(a) && F.Elem(b) ensures F.Elem(F.add(a, b)) {
      ElemIsShort(a, f); ElemIsShort(b, f); ElemIsShort(Xor(a, b), f);
      LenXor(a, b);
    }
    forall a: nat, b: nat, c: nat ensures F.M.mul(a, F.add(b, c)) == F.add(F.M.mul(a, b), F.M.mul(a, c)) {
      MulModDistrib(a, b, c, f);
    }
    forall a: nat ensures F.M.mul(a, 0) == 0 { MulModZero(a, f); }
    forall a: nat ensures F.Elem(F.inv(a)) && (F.Elem(a) && a != 0 ==> F.M.mul(a, F.inv(a)) == 1) {
      InverseElem(a, f);
      if F.Elem(a) && a != 0 { InverseWorks(a, f); }
    }
  }

  /** A proper factor of f is a zero divisor, so no power of it can be its inverse. */
  lemma ReducibleHasNoInverse(f: Modulus, u: nat, v: nat)
    requires CMul(u, v) == f && u != 1 && v != 1
    ensures Unit(MonoidOf(f), u) && forall w: nat :: MulMod(u, w, f) != 1
  {
    CMulZeroRight(u);
    assert u > 1 && v > 1;
    LenCMul(u, v);
    assert Len(u) > 1 && Len(v) > 1 by { LenMonotone(2, u); LenMonotone(2, v); }
    ElemIsShort(u, f);
    forall w: nat ensures MulMod(u, w, f) != 1 {
      hide CMul, Rem, Len, Unit;
      if MulMod(u, w, f) == 1 {
        MulModAssoc(v, u, w, f);
        CMulComm(u, v);
        RemSelf(f);
        MulModComm(0, w, f); MulModZero(w, f);
        MulModComm(v, 1, f); MulModOne(v, f);
        assert false;
      }
    }
  }

  /** Inverses are right for all non-zero elements exactly when f is irreducible. */
  lemma InverseIffIrreducible(f: Modulus)
    ensures Irreducible(f) <==> forall a: nat :: Unit(MonoidOf(f), a) ==> MulMod(a, Inverse(a, f), f) == 1
  {
    hide Inverse, MulMod;
    if Irreducible(f) {
      forall a: nat | Unit(MonoidOf(f), a) ensures MulMod(a, Inverse(a, f), f) == 1 {
        InverseWorks(a, f);
      }
    } else {
      var u: nat, v: nat :| CMul(u, v) == f && u != 1 && v != 1;
      ReducibleHasNoInverse(f, u, v);
      assert MulMod(u, Inverse(u, f), f) != 1;
    }
  }

  // ---------- Itoh-Tsujii ----------

  /** a^(2^u - 1). */
  function Beta(f: Modulus, a: nat, u: nat): nat {
    Pow(MonoidOf(f), a, Pow2(u) - 1)
  }

  /** t^(2^j), by j squarings. */
  function SquareTimes(f: Modulus, t: nat, j: nat): nat {
    if j == 0 then t else MulMod(SquareTimes(f, t, j - 1), SquareTimes(f, t, j - 1), f)
  }

  lemma {:induction false} SquareTimesIsPower(f: Modulus, t: nat, j: nat)
    requires t < MonoidOf(f).size
    ensures SquareTimes(f, t, j) == Pow(MonoidOf(f), t, Pow2(j))
  {
    hide IsMonoid, MulMod, Pow2;
    var M := MonoidOf(f);
    RingIsMonoid(f);
    if j == 0 {
      PowOne(M, t);
      assert Pow2(0) == 1 by { PowZero(); }
    } else {
      SquareTimesIsPower(f, t, j - 1);
      DoublePow2(j - 1);
      PowAdd(M, t, Pow2(j - 1), Pow2(j - 1));
    }
  }

  lemma PowZero()
    ensures Pow2(0) == 1
  {
  }

  /** The addition-chain step: (a^(2^u - 1))^(2^w) a^(2^w - 1) = a^(2^(u + w) - 1). */
  lemma BetaStep(f: Modulus, a: nat, u: nat, w: nat)
    ensures MulMod(SquareTimes(f, Beta(f, a, u), w), Beta(f, a, w), f) == Beta(f, a, u + w)
  {
    hide IsMonoid, MulMod, Pow, Pow2, SquareTimes;
    var M, p, q := MonoidOf(f), Pow2(u), Pow2(w);
    RingIsMonoid(f);
    PowInRange(M, a, p - 1);
    SquareTimesIsPower(f, Beta(f, a, u), w);
    PowMul(M, a, p - 1, q);
    PowAdd(M, a, (p - 1) * q, q - 1);
    PowersAdd(u, w);
    assert (p - 1) * q + (q - 1) == p * q - 1;
  }

  /** Squaring a^(2^(m - 1) - 1) gives the inverse. */
  lemma BetaFinish(f: Modulus, a: nat)
    requires Degree(f) > 1
    ensures MulMod(Beta(f, a, Degree(f) - 1), Beta(f, a, Degree(f) - 1), f) == Inverse(a, f)
  {
    hide IsMonoid, MulMod, Pow, Pow2, Len;
    var M, m := MonoidOf(f), Degree(f);
    RingIsMonoid(f);
    DoublePow2(m - 1);
    PositivePower(m - 1);
    PowAdd(M, a, Pow2(m - 1) - 1, Pow2(m - 1) - 1);
  }

  // ---------- The powers of the inversion loops ----------

  /** a^(2^i). */
  ghost function SquarePower(f: Modulus, a: nat, i: nat): nat {
    Pow(MonoidOf(f), a, Pow2(i))
  }

  /** a^(2^i - 2). */
  ghost function InversePower(f: Modulus, a: nat, i: nat): nat
    requires i > 0
  {
    PositivePower(i);
    Pow(MonoidOf(f), a, Pow2(i) - 2)
  }

  /** One round of the inversion loop. */
  lemma InversionRound(f: Modulus, a: nat, i: nat)
    requires i > 0
    ensures MulMod(SquarePower(f, a, i), SquarePower(f, a, i), f) == SquarePower(f, a, i + 1)
    ensures MulMod(InversePower(f, a, i), SquarePower(f, a, i), f) == InversePower(f, a, i + 1)
  {
    hide Pow, Pow2, IsMonoid, MulMod;
    var M, e := MonoidOf(f), Pow2(i);
    RingIsMonoid(f);
    DoublePow2(i);
    PowAdd(M, a, e, e);
    assert e >= 2 by { PositivePower(i); }
    PowAdd(M, a, e - 2, e);
    assert e - 2 + e == Pow2(i + 1) - 2;
  }

  lemma InversionStart(f: Modulus, a: nat)
    requires a < MonoidOf(f).size
    ensures MulMod(a, a, f) == SquarePower(f, a, 1) == InversePower(f, a, 2)
  {
    RingIsMonoid(f);
    SmallPowers(2);
    PowTwo(MonoidOf(f), a);
  }

  lemma InversionEnd(f: Modulus, a: nat)
    ensures Inverse(a, f) == InversePower(f, a, if Degree(f) > 1 then Degree(f) else 2)
  {
    LenMonotone(2, f);
    SmallPowers(Degree(f));
  }

  lemma SmallPowers(m: nat)
    ensures Pow2(1) == 2 && Pow2(2) == 4 && (m > 1 ==> Pow2(m) >= 4)
  {
    assert Pow2(1) == 2 * Pow2(0);
    if m > 1 { assert Pow2(m) == 2 * Pow2(m - 1) && Pow2(m - 1) == 2 * Pow2(m - 2); }
  }

  lemma PowTwo(M: Monoid, a: nat)
    requires IsMonoid(M) && a < M.size
    ensures Pow(M, a, 2) == M.mul(a, a)
  {
    PowOne(M, a);
  }
}
