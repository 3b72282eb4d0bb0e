/**
 Polynomials over GF(2).  The natural number a stands for the polynomial whose coefficient
 of x^i is bit i of a: the integers of simulation.py, the words of multiplier.cpp and,
 through FromBits, the bool arrays of ecc.cpp are all read this way.
 */
module Gf2Poly {

  // ---------- Bits ----------

  /** Coefficient of x^i. */
  predicate Bit(a: nat, i: nat) {
    if i == 0 then a % 2 == 1 else Bit(a / 2, i - 1)
  }

  /** One more than the degree; 0 for the zero polynomial. */
  function Len(a: nat): nat {
    if a == 0 then 0 else 1 + Len(a / 2)
  }

  function Pow2(k: nat): (p: nat)
    ensures p >= 1
  {
    if k == 0 then 1 else 2 * Pow2(k - 1)
  }

  /** Addition of polynomials. */
  function Xor(a: nat, b: nat): nat {
    if a == 0 then b
    else if b == 0 then a
    else 2 * Xor(a / 2, b / 2) + AddBit(a % 2, b % 2)
  }

  /** Sum of two coefficients. */
  function AddBit(x: nat, y: nat): nat {
    if x == y then 0 else 1
  }

  /** Multiplication by x^k. */
  function Shl(a: nat, k: nat): nat {
    if k == 0 then a else 2 * Shl(a, k - 1)
  }

  /** Quotient by x^k. */
  function High(a: nat, k: nat): nat {
    if k == 0 then a else High(a / 2, k - 1)
  }

  /** Remainder by x^k. */
  function Low(a: nat, k: nat): nat {
    if k == 0 then 0 else 2 * Low(a / 2, k - 1) + a % 2
  }

  lemma {:induction false} BitsDetermine(a: nat, b: nat)
    requires forall i: nat :: Bit(a, i) == Bit(b, i)
    ensures a == b
    decreases a + b
  {
    assert Bit(a, 0) == Bit(b, 0);
    if a + b > 0 {
      forall i: nat ensures Bit(a / 2, i) == Bit(b / 2, i) {
        assert Bit(a, i + 1) == Bit(b, i + 1);
      }
      BitsDetermine(a / 2, b / 2);
    }
  }

  lemma {:induction false} BitZero(i: nat)
    ensures !Bit(0, i)
  {
    if i > 0 { BitZero(i - 1); }
  }

  lemma {:induction false} BitXor(a: nat, b: nat, i: nat)
    ensures Bit(Xor(a, b), i) == (Bit(a, i) != Bit(b, i))
  {
    BitZero(i);
    if i > 0 && a > 0 && b > 0 {
      BitXor(a / 2, b / 2, i - 1);
      assert Xor(a, b) / 2 == Xor(a / 2, b / 2);
    }
  }

  lemma {:induction false} BitShl(a: nat, k: nat, i: nat)
    ensures Bit(Shl(a, k), i) == (i >= k && Bit(a, i - k))
  {
    if k > 0 {
      if i > 0 {
        assert Shl(a, k) / 2 == Shl(a, k - 1);
        BitShl(a, k - 1, i - 1);
      }
    }
  }

  lemma {:induction false} BitHigh(a: nat, k: nat, i: nat)
    ensures Bit(High(a, k), i) == Bit(a, i + k)
  {
    if k > 0 { BitHigh(a / 2, k - 1, i); }
  }

  lemma {:induction false} BitLow(a: nat, k: nat, i: nat)
    ensures Bit(Low(a, k), i) == (i < k && Bit(a, i))
  {
    if k == 0 {
      BitZero(i);
    } else {
      var l := Low(a / 2, k - 1);
      assert Low(a, k) == 2 * l + a % 2;
      hide Low;
      DigitBelow(l, a % 2, i);
      if i > 0 { BitLow(a / 2, k - 1, i - 1); }
    }
  }

  lemma DigitBelow(l: nat, x: nat, i: nat)
    requires x < 2
    ensures Bit(2 * l + x, i) == if i == 0 then x == 1 else Bit(l, i - 1)
  {
    assert (2 * l + x) / 2 == l && (2 * l + x) % 2 == x;
  }

  lemma {:induction false} BitLen(a: nat, i: nat)
    requires i >= Len(a)
    ensures !Bit(a, i)
  {
    if a == 0 { BitZero(i); } else { BitLen(a / 2, i - 1); }
  }

  lemma {:induction false} TopBit(a: nat)
    requires a > 0
    ensures Bit(a, Len(a) - 1)
  {
    if a / 2 > 0 { TopBit(a / 2); }
  }

  lemma {:induction false} LenPow2(a: nat, k: nat)
    ensures Len(a) <= k <==> a < Pow2(k)
  {
    if k > 0 && a > 0 { LenPow2(a / 2, k - 1); }
  }

  lemma {:induction false} LenMonotone(a: nat, b: nat)
    requires a <= b
    ensures Len(a) <= Len(b)
  {
    if a > 0 { LenMonotone(a / 2, b / 2); }
  }

  lemma {:induction false} LenLow(a: nat, k: nat)
    ensures Len(Low(a, k)) <= k
  {
    if k > 0 { LenLow(a / 2, k - 1); }
  }

  lemma {:induction false} LenHigh(a: nat, k: nat)
    ensures Len(High(a, k)) == if Len(a) <= k then 0 else Len(a) - k
  {
    if k > 0 { LenHigh(a / 2, k - 1); }
  }

  lemma {:induction false} LenShl(a: nat, k: nat)
    ensures Len(Shl(a, k)) == if a == 0 then 0 else Len(a) + k
  {
    if k > 0 { LenShl(a, k - 1); }
  }

  lemma {:induction false} SplitAt(a: nat, k: nat)
    ensures a == Xor(Low(a, k), Shl(High(a, k), k))
  {
    forall i: nat ensures Bit(a, i) == Bit(Xor(Low(a, k), Shl(High(a, k), k)), i) {
      BitXor(Low(a, k), Shl(High(a, k), k), i);
      BitLow(a, k, i);
      BitShl(High(a, k), k, i);
      if i >= k { BitHigh(a, k, i - k); }
    }
    BitsDetermine(a, Xor(Low(a, k), Shl(High(a, k), k)));
  }

  // ---------- The additive group ----------

  lemma {:induction false} XorComm(a: nat, b: nat)
    ensures Xor(a, b) == Xor(b, a)
  {
    if a > 0 && b > 0 { XorComm(a / 2, b / 2); }
  }

  lemma {:induction false} XorAssoc(a: nat, b: nat, c: nat)
    ensures Xor(Xor(a, b), c) == Xor(a, Xor(b, c))
  {
    forall i: nat ensures Bit(Xor(Xor(a, b), c), i) == Bit(Xor(a, Xor(b, c)), i) {
      BitXor(Xor(a, b), c, i); BitXor(a, b, i);
      BitXor(a, Xor(b, c), i); BitXor(b, c, i);
    }
    BitsDetermine(Xor(Xor(a, b), c), Xor(a, Xor(b, c)));
  }

  lemma {:induction false} XorSelf(a: nat)
    ensures Xor(a, a) == 0
  {
    if a > 0 { XorSelf(a / 2); }
  }

  lemma {:induction false} XorZeroEq(a: nat, b: nat)
    requires Xor(a, b) == 0
    ensures a == b
  {
    if a > 0 && b > 0 { XorZeroEq(a / 2, b / 2); }
  }

  lemma XorCancel(a: nat, b: nat)
    ensures Xor(a, Xor(a, b)) == b
  {
    XorAssoc(a, a, b); XorSelf(a);
  }

  /** (a + b) + (c + d) = (a + c) + (b + d). */
  lemma XorSwap(a: nat, b: nat, c: nat, d: nat)
    ensures Xor(Xor(a, b), Xor(c, d)) == Xor(Xor(a, c), Xor(b, d))
  {
    var l, r := Xor(Xor(a, b), Xor(c, d)), Xor(Xor(a, c), Xor(b, d));
    forall i: nat ensures Bit(l, i) == Bit(r, i) {
      BitXor(Xor(a, b), Xor(c, d), i); BitXor(a, b, i); BitXor(c, d, i);
      BitXor(Xor(a, c), Xor(b, d), i); BitXor(a, c, i); BitXor(b, d, i);
    }
    BitsDetermine(l, r);
  }

  lemma {:induction false} XorDouble(a: nat, b: nat)
    ensures Xor(2 * a, 2 * b) == 2 * Xor(a, b)
  {
  }

  lemma LenDigit(a: nat, x: nat)
    requires x < 2
    ensures Len(2 * a + x) <= 1 + Len(a)
  {
    assert (2 * a + x) / 2 == a;
  }

  lemma XorDigits(a: nat, b: nat, x: nat, y: nat)
    requires x < 2 && y < 2
    ensures Xor(2 * a + x, 2 * b + y) == 2 * Xor(a, b) + AddBit(x, y)
  {
    var s, t := 2 * a + x, 2 * b + y;
    assert s / 2 == a && t / 2 == b && s % 2 == x && t % 2 == y;
  }

  lemma {:induction false} LenXor(a: nat, b: nat)
    ensures Len(Xor(a, b)) <= if Len(a) < Len(b) then Len(b) else Len(a)
    ensures Len(a) < Len(b) ==> Len(Xor(a, b)) == Len(b)
    ensures Len(b) < Len(a) ==> Len(Xor(a, b)) == Len(a)
    ensures Len(a) == Len(b) > 0 ==> Len(Xor(a, b)) < Len(a)
  {
    if a > 0 && b > 0 {
      LenXor(a / 2, b / 2);
      var s := Xor(a, b);
      assert s / 2 == Xor(a / 2, b / 2);
      hide Xor;
    }
  }

  // ---------- Carry-less product ----------

  /** The part of a product contributed by one bit of the multiplier. */
  function Gate(c: bool, b: nat): nat {
    if c then b else 0
  }

  /** Multiplication of polynomials. */
  function CMul(a: nat, b: nat): nat {
    if a == 0 then 0 else Xor(Gate(a % 2 == 1, b), 2 * CMul(a / 2, b))
  }

  lemma {:induction false} CMulZeroRight(a: nat)
    ensures CMul(a, 0) == 0
  {
    if a > 0 { CMulZeroRight(a / 2); }
  }

  lemma CMulOne(a: nat)
    ensures CMul(1, a) == a
  {
  }

  lemma {:induction false} CMulDoubleRight(a: nat, b: nat)
    ensures CMul(a, 2 * b) == 2 * CMul(a, b)
  {
    if a > 0 {
      CMulDoubleRight(a / 2, b);
      XorDouble(Gate(a % 2 == 1, b), 2 * CMul(a / 2, b));
    }
  }

  lemma CMulDoubleLeft(a: nat, b: nat)
    ensures CMul(2 * a, b) == 2 * CMul(a, b)
  {
  }

  /** The recursion of CMul, also at 0. */
  lemma CMulStep(a: nat, b: nat)
    ensures CMul(a, b) == Xor(Gate(a % 2 == 1, b), 2 * CMul(a / 2, b))
  {
  }

  lemma HalfXor(a: nat, b: nat)
    ensures Xor(a, b) / 2 == Xor(a / 2, b / 2) && Xor(a, b) % 2 == AddBit(a % 2, b % 2)
  {
  }

  lemma GateXor(a: nat, b: nat, c: nat)
    ensures Gate(AddBit(a % 2, b % 2) == 1, c) == Xor(Gate(a % 2 == 1, c), Gate(b % 2 == 1, c))
  {
    XorSelf(c);
  }

  lemma {:induction false} CMulDistribLeft(a: nat, b: nat, c: nat)
    ensures CMul(Xor(a, b), c) == Xor(CMul(a, c), CMul(b, c))
  {
    if a > 0 && b > 0 {
      var ah, bh := CMul(a / 2, c), CMul(b / 2, c);
      CMulDistribLeft(a / 2, b / 2, c);
      calc {
        CMul(Xor(a, b), c);
        { CMulStep(Xor(a, b), c); HalfXor(a, b); }
        Xor(Gate(AddBit(a % 2, b % 2) == 1, c), 2 * Xor(ah, bh));
        { GateXor(a, b, c); XorDouble(ah, bh); }
        Xor(Xor(Gate(a % 2 == 1, c), Gate(b % 2 == 1, c)), Xor(2 * ah, 2 * bh));
        { XorSwap(Gate(a % 2 == 1, c), Gate(b % 2 == 1, c), 2 * ah, 2 * bh); }
        Xor(CMul(a, c), CMul(b, c));
      }
    }
  }

  lemma {:induction false} CMulDistribRight(a: nat, b: nat, c: nat)
    ensures CMul(a, Xor(b, c)) == Xor(CMul(a, b), CMul(a, c))
  {
    if a > 0 {
      var h := a / 2;
      CMulDistribRight(h, b, c);
      XorDouble(CMul(h, b), CMul(h, c));
      XorSwap(Gate(a % 2 == 1, b), 2 * CMul(h, b), Gate(a % 2 == 1, c), 2 * CMul(h, c));
    }
  }

  lemma {:induction false} CMulComm(a: nat, b: nat)
    ensures CMul(a, b) == CMul(b, a)
  {
    if a == 0 {
      CMulZeroRight(b);
    } else {
      var lo, hi := a % 2, 2 * (a / 2);
      assert Xor(lo, hi) == a by { LowBitSplit(a); }
      CMulDistribRight(b, lo, hi);
      CMulDoubleRight(b, a / 2);
      CMulComm(a / 2, b);
      CMulZeroRight(b);
      CMulOneRight(b);
    }
  }

  lemma LowBitSplit(a: nat)
    ensures Xor(a % 2, 2 * (a / 2)) == a
  {
  }

  lemma {:induction false} CMulOneRight(b: nat)
    ensures CMul(b, 1) == b
  {
    if b > 0 {
      CMulOneRight(b / 2);
      LowBitSplit(b);
    }
  }

  lemma {:induction false} CMulAssoc(a: nat, b: nat, c: nat)
    ensures CMul(CMul(a, b), c) == CMul(a, CMul(b, c))
  {
    if a > 0 {
      CMulAssoc(a / 2, b, c);
      CMulDistribLeft(Gate(a % 2 == 1, b), 2 * CMul(a / 2, b), c);
      CMulDoubleLeft(CMul(a / 2, b), c);
    }
  }

  lemma {:induction false} CMulShl(a: nat, b: nat, k: nat)
    ensures CMul(Shl(a, k), b) == Shl(CMul(a, b), k)
    ensures CMul(a, Shl(b, k)) == Shl(CMul(a, b), k)
  {
    if k > 0 {
      CMulShl(a, b, k - 1);
      CMulDoubleLeft(Shl(a, k - 1), b);
      CMulDoubleRight(a, Shl(b, k - 1));
    }
  }

  /** Degrees add. */
  lemma {:induction false} LenCMul(a: nat, b: nat)
    requires a > 0 && b > 0
    ensures CMul(a, b) > 0 && Len(CMul(a, b)) == Len(a) + Len(b) - 1
  {
    if a == 1 {
      CMulOne(b);
    } else {
      LenCMul(a / 2, b);
      CMulStep(a, b);
      LenXor(Gate(a % 2 == 1, b), 2 * CMul(a / 2, b));
      hide CMul, Xor;
    }
  }

  // ---------- Division ----------

  /** One conditional subtraction of f from a polynomial of at most its degree. */
  function Reduce(t: nat, f: nat): nat {
    if Len(t) == Len(f) then Xor(t, f) else t
  }

  /** Remainder of a by f, by Horner's rule from the leading coefficient down. */
  function Rem(a: nat, f: nat): (r: nat)
    requires f > 0
    ensures Len(r) < Len(f)
  {
    if a == 0 then 0 else
    var t := 2 * Rem(a / 2, f) + a % 2;
    LenXor(t, f);
    Reduce(t, f)
  }

  function QuoDigit(q: nat, t: nat, f: nat): nat {
    if Len(t) == Len(f) then 2 * q + 1 else 2 * q
  }

  function Quo(a: nat, f: nat): nat
    requires f > 0
  {
    if a == 0 then 0 else QuoDigit(Quo(a / 2, f), 2 * Rem(a / 2, f) + a % 2, f)
  }

  lemma {:induction false} RemSmall(a: nat, f: nat)
    requires f > 0 && Len(a) < Len(f)
    ensures Rem(a, f) == a
  {
    if a > 0 { RemSmall(a / 2, f); }
  }

  lemma ReduceXor(s: nat, t: nat, f: nat)
    requires f > 0 && Len(s) <= Len(f) && Len(t) <= Len(f)
    ensures Reduce(Xor(s, t), f) == Xor(Reduce(s, f), Reduce(t, f))
  {
    LenXor(s, t);
    XorSwap(s, f, t, f); XorSelf(f);
    XorAssoc(s, t, f); XorAssoc(s, f, t); XorComm(t, f);
  }

  /** Remainder of a, given that of a / 2. */
  function Horner(r: nat, a: nat, f: nat): nat {
    Reduce(2 * r + a % 2, f)
  }

  lemma RemStep(a: nat, f: nat)
    requires f > 0
    ensures Rem(a, f) == Horner(Rem(a / 2, f), a, f)
  {
  }

  lemma HornerXor(r: nat, s: nat, a: nat, b: nat, f: nat)
    requires f > 0 && Len(r) < Len(f) && Len(s) < Len(f)
    ensures Horner(Xor(r, s), Xor(a, b), f) == Xor(Horner(r, a, f), Horner(s, b, f))
  {
    hide Xor, Len, Reduce;
    var x, y := a % 2, b % 2;
    XorDigits(r, s, x, y);
    assert Xor(a, b) % 2 == AddBit(x, y) by { HalfXor(a, b); }
    LenDigit(r, x);
    LenDigit(s, y);
    ReduceXor(2 * r + x, 2 * s + y, f);
  }

  /** Rem is linear. */
  lemma {:induction false} RemXor(a: nat, b: nat, f: nat)
    requires f > 0
    ensures Rem(Xor(a, b), f) == Xor(Rem(a, f), Rem(b, f))
  {
    if a > 0 && b > 0 {
      RemXor(a / 2, b / 2, f);
      HalfXor(a, b);
      HornerXor(Rem(a / 2, f), Rem(b / 2, f), a, b, f);
      RemStep(a, f); RemStep(b, f); RemStep(Xor(a, b), f);
    }
  }

  lemma RemDouble(a: nat, f: nat)
    requires f > 0
    ensures Rem(2 * a, f) == Reduce(2 * Rem(a, f), f)
  {
    var b := 2 * a;
    assert b / 2 == a && b % 2 == 0;
    RemStep(b, f);
    hide Rem, Reduce;
  }

  lemma RemSelf(f: nat)
    requires f > 0
    ensures Rem(f, f) == 0
  {
    hide Xor, Rem;
    assert Len(f / 2) < Len(f);
    hide Len;
    RemSmall(f / 2, f);
    RemStep(f, f);
    XorSelf(f);
  }

  lemma {:induction false} RemMultiple(q: nat, f: nat)
    requires f > 0
    ensures Rem(CMul(q, f), f) == 0
  {
    if q > 0 {
      RemMultiple(q / 2, f);
      RemDouble(CMul(q / 2, f), f);
      RemXor(Gate(q % 2 == 1, f), 2 * CMul(q / 2, f), f);
      RemSelf(f);
    }
  }

  lemma QuoStep(q: nat, t: nat, f: nat)
    requires f > 0
    ensures Xor(CMul(QuoDigit(q, t, f), f), Reduce(t, f)) == Xor(2 * CMul(q, f), t)
  {
    hide Xor, Len, CMul;
    var qf := 2 * CMul(q, f);
    CMulDoubleLeft(q, f);
    if Len(t) == Len(f) {
      CMulStep(2 * q + 1, f);
      XorComm(f, qf);
      XorAssoc(qf, f, Xor(t, f));
      XorComm(t, f);
      XorCancel(f, t);
    }
  }

  lemma DivisionStep(h: nat, x: nat, q: nat, r: nat, f: nat)
    requires f > 0 && x < 2 && h == Xor(CMul(q, f), r)
    ensures 2 * h + x == Xor(CMul(QuoDigit(q, 2 * r + x, f), f), Reduce(2 * r + x, f))
  {
    hide *;
    XorDigits(CMul(q, f), r, 0, x);
    QuoStep(q, 2 * r + x, f);
    assert AddBit(0, x) == x by { AddBitZero(x); }
  }

  lemma AddBitZero(x: nat)
    requires x < 2
    ensures AddBit(0, x) == x
  {
  }

  lemma {:induction false} DivisionExists(a: nat, f: nat)
    requires f > 0
    ensures a == Xor(CMul(Quo(a, f), f), Rem(a, f))
  {
    if a > 0 {
      DivisionExists(a / 2, f);
      DivisionStep(a / 2, a % 2, Quo(a / 2, f), Rem(a / 2, f), f);
      hide Xor, CMul, Len, Reduce, QuoDigit;
    }
  }

  /** Quotient and remainder are unique: this is what makes Rem the specification of reduction. */
  lemma DivisionUnique(a: nat, f: nat, q: nat, r: nat)
    requires f > 0 && Len(r) < Len(f)
    requires a == Xor(CMul(q, f), r)
    ensures r == Rem(a, f) && q == Quo(a, f)
  {
    RemXor(CMul(q, f), r, f);
    RemMultiple(q, f);
    RemSmall(r, f);
    DivisionExists(a, f);
    var q' := Quo(a, f);
    XorComm(CMul(q, f), r); XorComm(CMul(q', f), r);
    XorCancel(r, CMul(q, f)); XorCancel(r, CMul(q', f));
    CMulDistribLeft(q, q', f);
    XorSelf(CMul(q, f));
    if Xor(q, q') > 0 { LenCMul(Xor(q, q'), f); }
    XorZeroEq(q, q');
  }

  /** Factors may be reduced before multiplying. */
  lemma RemMulRight(a: nat, b: nat, f: nat)
    requires f > 0
    ensures Rem(CMul(a, Rem(b, f)), f) == Rem(CMul(a, b), f)
  {
    var q, r := Quo(b, f), Rem(b, f);
    DivisionExists(b, f);
    CMulDistribRight(a, CMul(q, f), r);
    CMulAssoc(a, q, f);
    RemXor(CMul(CMul(a, q), f), CMul(a, r), f);
    RemMultiple(CMul(a, q), f);
  }

  /** Replacing the high part H x^m by H p is reduction by x^m + p. */
  lemma RemFold(a: nat, m: nat, p: nat)
    requires Len(p) <= m
    ensures Len(Xor(Shl(1, m), p)) == m + 1
    ensures Rem(a, Xor(Shl(1, m), p)) == Rem(Xor(Low(a, m), CMul(High(a, m), p)), Xor(Shl(1, m), p))
  {
    var f, h, l := Xor(Shl(1, m), p), High(a, m), Low(a, m);
    LenShl(1, m);
    LenXor(Shl(1, m), p);
    SplitAt(a, m);
    CMulShl(h, 1, m);
    CMulOneRight(h);
    CMulDistribRight(h, Shl(1, m), p);
    var s, t := Shl(h, m), CMul(h, p);
    assert CMul(h, f) == Xor(s, t);
    RemMultiple(h, f);
    RemXor(s, t, f);
    XorZeroEq(Rem(s, f), Rem(t, f));
    RemXor(l, s, f);
    RemXor(l, t, f);
  }

  // ---------- Powers of two and splitting ----------

  lemma DoublePow2(i: nat)
    ensures Pow2(i) + Pow2(i) == Pow2(i + 1)
  {
  }

  lemma PositivePower(i: nat)
    requires i > 0
    ensures Pow2(i) >= 2
  {
    assert Pow2(i) == 2 * Pow2(i - 1);
  }

  lemma {:induction false} PowersAdd(i: nat, j: nat)
    ensures Pow2(i) * Pow2(j) == Pow2(i + j)
  {
    if i > 0 {
      PowersAdd(i - 1, j);
      assert 2 * Pow2(i - 1) * Pow2(j) == 2 * (Pow2(i - 1) * Pow2(j));
    }
  }

  lemma {:induction false} LowHighNext(n: nat, i: nat)
    ensures High(n, i + 1) == High(n, i) / 2
    ensures Low(n, i + 1) == Low(n, i) + (if High(n, i) % 2 == 1 then Pow2(i) else 0)
  {
    if i > 0 { LowHighNext(n / 2, i - 1); }
  }

  lemma DoubleFactor(h: nat, w: nat)
    ensures h * (2 * w) == 2 * (h * w)
  {
  }

  lemma {:induction false} LowHighSum(n: nat, i: nat)
    ensures n == Low(n, i) + High(n, i) * Pow2(i)
    ensures Low(n, i) < Pow2(i)
  {
    if i > 0 {
      LowHighSum(n / 2, i - 1);
      var h, w, l := High(n, i), Pow2(i - 1), Low(n / 2, i - 1);
      assert Pow2(i) == 2 * w && High(n / 2, i - 1) == h && Low(n, i) == n % 2 + 2 * l;
      hide High, Pow2, Low;
      DoubleFactor(h, w);
    }
  }

  lemma LowNext(n: nat, i: nat)
    ensures High(n, i + 1) == High(n, i) / 2
    ensures Low(n, i + 1) == Low(n, i) + (if High(n, i) % 2 == 1 then Pow2(i) else 0)
    ensures n == Low(n, i) + High(n, i) * Pow2(i)
    ensures Low(n, i) < Pow2(i)
  {
    LowHighNext(n, i);
    LowHighSum(n, i);
  }

  lemma LenZero(a: nat)
    ensures Len(a) == 0 <==> a == 0
  {
  }

  lemma SmallLen(a: nat)
    requires Len(a) <= 1
    ensures a <= 1
  {
  }

  lemma {:induction false} ShlZero(k: nat)
    ensures Shl(0, k) == 0
  {
    if k > 0 { ShlZero(k - 1); }
  }

  lemma TopIsSet(a: nat, k: nat)
    requires Len(a) <= k + 1 && Bit(a, k)
    ensures Len(a) == k + 1
  {
    if Len(a) <= k { BitLen(a, k); }
  }

  // ---------- Lists of coefficients ----------

  function Coefficient(c: bool): nat {
    if c then 1 else 0
  }

  function FromBits(s: seq<bool>): nat {
    if s == [] then 0 else 2 * FromBits(s[1..]) + Coefficient(s[0])
  }

  /** x^m + p. */
  function Monic(m: nat, p: nat): nat {
    Xor(Shl(1, m), p)
  }

  lemma {:induction false} BitFromBits(s: seq<bool>, i: nat)
    ensures Bit(FromBits(s), i) == (i < |s| && s[i])
  {
    if s == [] {
      BitZero(i);
    } else if i > 0 {
      BitFromBits(s[1..], i - 1);
      assert FromBits(s) / 2 == FromBits(s[1..]);
    }
  }

  lemma {:induction false} LenFromBits(s: seq<bool>)
    ensures Len(FromBits(s)) <= |s|
  {
    if s != [] {
      LenFromBits(s[1..]);
      LenDigit(FromBits(s[1..]), Coefficient(s[0]));
    }
  }

  /** An array holds v when its entries are the coefficients of v and v is short enough. */
  lemma HoldsValue(s: seq<bool>, v: nat)
    requires Len(v) <= |s| && forall i :: 0 <= i < |s| ==> s[i] == Bit(v, i)
    ensures FromBits(s) == v
  {
    forall i: nat ensures Bit(FromBits(s), i) == Bit(v, i) {
      BitFromBits(s, i);
      if i >= |s| { BitLen(v, i); }
    }
    BitsDetermine(FromBits(s), v);
  }

  lemma SameValue(s: seq<bool>, t: seq<bool>)
    requires |s| == |t| && FromBits(s) == FromBits(t)
    ensures s == t
  {
    forall i | 0 <= i < |s| ensures s[i] == t[i] {
      BitFromBits(s, i);
      BitFromBits(t, i);
    }
  }

  lemma MonicPositive(m: nat, p: nat)
    requires Len(p) <= m
    ensures Monic(m, p) > 0 && (m > 0 ==> Monic(m, p) > 1)
  {
    RemFold(0, m, p);
  }

  // ---------- Products from the leading bit down ----------

  /** Reduction of 2r by x^m + p, with the coefficient of x^m split off as a flag. */
  lemma DelayedReduction(r: nat, m: nat, p: nat)
    requires Len(r) <= m && Len(p) <= m
    ensures Reduce(2 * r, Monic(m, p)) == Xor(Low(2 * r, m), Gate(Bit(2 * r, m), p))
  {
    var t := 2 * r;
    LenDigit(r, 0);
    TopDigit(t, m);
    SplitAt(t, m);
    RemFold(0, m, p);
    hide Xor, Len, Low, Bit, Rem, CMul, Shl;
    if Bit(t, m) {
      XorAssoc(Low(t, m), Shl(1, m), Monic(m, p));
      XorCancel(Shl(1, m), p);
    } else {
      XorComm(Low(t, m), 0);
      assert Shl(0, m) == 0 by { ShlZero(m); }
    }
  }

  /** The part from x^m up of a polynomial of degree at most m is its leading digit. */
  lemma TopDigit(t: nat, m: nat)
    requires Len(t) <= m + 1
    ensures High(t, m) == (if Bit(t, m) then 1 else 0)
    ensures Bit(t, m) <==> Len(t) == m + 1
  {
    hide Len, High;
    LenHigh(t, m);
    BitHigh(t, m, 0);
    SmallLen(High(t, m));
    if Bit(t, m) { TopIsSet(t, m); } else { LenZero(High(t, m)); }
  }

  /** The partial product when bits i and up of the multiplier a have been read. */
  function Partial(a: nat, b: nat, f: nat, i: nat): nat
    requires f > 0
  {
    Rem(CMul(High(a, i), b), f)
  }

  lemma PartialNext(a: nat, b: nat, m: nat, p: nat, i: nat)
    requires Len(b) <= m && Len(p) <= m && Monic(m, p) > 0
    ensures var f, t := Monic(m, p), 2 * Partial(a, b, Monic(m, p), i + 1);
            Len(f) == m + 1 &&
            Partial(a, b, f, i) == Xor(Xor(Low(t, m), Gate(Bit(a, i), b)), Gate(Bit(t, m), p))
  {
    hide Rem, CMul, Xor, Low, Shl;
    var f, h := Monic(m, p), High(a, i + 1);
    var r := Rem(CMul(h, b), f);
    RemFold(0, m, p);
    BitHigh(a, i, 0);
    assert High(a, i) / 2 == h by { LowHighNext(a, i); }
    CMulStep(High(a, i), b);
    var g := Gate(Bit(a, i), b);
    RemXor(g, 2 * CMul(h, b), f);
    RemDouble(CMul(h, b), f);
    RemSmall(g, f);
    DelayedReduction(r, m, p);
    var l, c := Low(2 * r, m), Gate(Bit(2 * r, m), p);
    XorAssoc(l, g, c);
    XorComm(g, c);
    XorAssoc(l, c, g);
    XorComm(Xor(l, c), g);
  }

  lemma Initial(a: nat, b: nat, f: nat, m: nat, s: seq<bool>)
    requires f > 0 && Len(a) <= m == |s| && forall k :: 0 <= k < m ==> !s[k]
    ensures Partial(a, b, f, m) == 0 && FromBits(s) == Low(0, m) == 0 && !Bit(0, m)
  {
    LenHigh(a, m);
    forall i: nat ensures Bit(Low(0, m), i) == Bit(0, i) { BitLow(0, m, i); BitZero(i); }
    BitsDetermine(Low(0, m), 0);
    forall k | 0 <= k < m ensures s[k] == Bit(0, k) { BitZero(k); }
    HoldsValue(s, 0);
    BitZero(m);
  }
}
