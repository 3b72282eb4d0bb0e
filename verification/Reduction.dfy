/**
 The unrolled reduction networks of simulation.py, and the arithmetic of its squaring and of
 its Karatsuba split.
 */
module Reduction {
  import opened Gf2Poly

  // ---------- The networks ----------

  /** Coefficient i of the reduction by x^163 + x^7 + x^6 + x^3 + 1, in eight cases. */
  function PentanomialBit(x: nat, i: nat): bool {
    if i <= 1 then
      (((Bit(x, i) != Bit(x, i + 163)) != Bit(x, i + 319)) != Bit(x, i + 320)) != Bit(x, i + 323)
    else if i == 2 then
      ((Bit(x, 2) != Bit(x, 165)) != Bit(x, 321)) != Bit(x, 322)
    else if i <= 5 then
      ((((Bit(x, i) != Bit(x, i + 163)) != Bit(x, i + 160)) != Bit(x, i + 319)) != Bit(x, i + 316)) != Bit(x, i + 317)
    else if i == 6 then
      (((((Bit(x, 6) != Bit(x, 169)) != Bit(x, 163)) != Bit(x, 166)) != Bit(x, 322)) != Bit(x, 319)) != Bit(x, 320)
    else if i <= 10 then
      (((((Bit(x, i) != Bit(x, i + 163)) != Bit(x, i + 156)) != Bit(x, i + 157)) != Bit(x, i + 160)) != Bit(x, i + 312)) != Bit(x, i + 314)
    else if i <= 12 then
      ((((Bit(x, i) != Bit(x, i + 163)) != Bit(x, i + 156)) != Bit(x, i + 157)) != Bit(x, i + 160)) != Bit(x, i + 312)
    else if i <= 161 then
      (((Bit(x, i) != Bit(x, i + 163)) != Bit(x, i + 156)) != Bit(x, i + 157)) != Bit(x, i + 160)
    else
      ((Bit(x, 162) != Bit(x, 318)) != Bit(x, 319)) != Bit(x, 322)
  }

  /** Coefficient i of the reduction by x^m + x^6 + 1, in five cases. */
  function TrinomialBit(x: nat, m: nat, i: nat): bool
    requires m > 6
  {
    if i <= 4 then (Bit(x, i) != Bit(x, i + m)) != Bit(x, 2 * m + i - 6)
    else if i == 5 then Bit(x, 5) != Bit(x, m + 5)
    else if i <= 10 then ((Bit(x, i) != Bit(x, i + m)) != Bit(x, i + 2 * m - 12)) != Bit(x, i + m - 6)
    else if i <= m - 2 then (Bit(x, i) != Bit(x, i + m)) != Bit(x, i + m - 6)
    else Bit(x, m - 1) != Bit(x, 2 * m - 7)
  }

  function Pentanomial(x: nat): nat {
    FromBits(seq(163, i => i >= 0 && PentanomialBit(x, i)))
  }

  function Trinomial(x: nat, m: nat): nat
    requires m > 6
  {
    FromBits(seq(m, i => i >= 0 && TrinomialBit(x, m, i)))
  }

  // ---------- Folding ----------

  /** One round of reduction: the part above x^m is replaced by its multiple of p. */
  function Fold(x: nat, m: nat, p: nat): nat {
    Xor(Low(x, m), CMul(High(x, m), p))
  }

  lemma TwoRounds(x: nat, m: nat, p: nat)
    requires Len(p) <= m && Len(Fold(Fold(x, m, p), m, p)) <= m
    ensures Monic(m, p) > 0 && Rem(x, Monic(m, p)) == Fold(Fold(x, m, p), m, p)
  {
    MonicPositive(m, p);
    RemFold(x, m, p);
    RemFold(Fold(x, m, p), m, p);
    RemSmall(Fold(Fold(x, m, p), m, p), Monic(m, p));
  }

  lemma LenFold(x: nat, m: nat, p: nat, k: nat)
    requires p > 0 && Len(x) <= m + k && Len(p) >= 1
    ensures Len(Fold(x, m, p)) <= if k == 0 || k + Len(p) - 1 <= m then m else k + Len(p) - 1
  {
    hide CMul, Xor, Low, High;
    var h := High(x, m);
    LenHigh(x, m);
    LenLow(x, m);
    if h > 0 {
      LenCMul(h, p);
    } else {
      assert CMul(0, p) == 0 by { CMulOfZero(p); }
      assert Len(0) == 0;
    }
    LenXor(Low(x, m), CMul(h, p));
    LenZero(h);
  }

  lemma CMulOfZero(p: nat)
    ensures CMul(0, p) == 0
  {
  }

  /** h (x^k + 1). */
  lemma MulBinomial(h: nat, k: nat, i: nat)
    ensures Bit(CMul(h, Xor(Shl(1, k), 1)), i) == (Bit(h, i) != (i >= k && Bit(h, i - k)))
  {
    hide CMul, Xor, Shl, Bit;
    CMulDistribRight(h, Shl(1, k), 1);
    CMulShl(h, 1, k);
    CMulOneRight(h);
    BitXor(Shl(h, k), h, i);
    BitShl(h, k, i);
  }

  /** h (x^j + x^k) = (h x^j) + (h x^k). */
  lemma MulTwoShifts(h: nat, j: nat, k: nat, i: nat)
    ensures Bit(CMul(h, Xor(Shl(1, j), Shl(1, k))), i)
         == ((i >= j && Bit(h, i - j)) != (i >= k && Bit(h, i - k)))
  {
    hide CMul, Xor, Shl, Bit;
    CMulDistribRight(h, Shl(1, j), Shl(1, k));
    CMulShl(h, 1, j);
    CMulShl(h, 1, k);
    CMulOneRight(h);
    BitXor(Shl(h, j), Shl(h, k), i);
    BitShl(h, j, i);
    BitShl(h, k, i);
  }

  // ---------- x^163 + x^7 + x^6 + x^3 + 1 ----------

  const PENTANOMIAL_TAIL: nat := 201

  const TRINOMIAL_TAIL: nat := 65

  lemma SmallShifts()
    ensures Shl(1, 3) == 8 && Shl(1, 6) == 64 && Shl(1, 7) == 128
  {
  }

  /** Where the summands have no coefficient in common, the sum is that of numbers. */
  lemma {:induction false} DisjointSum(k: nat, a: nat)
    requires Len(a) <= k
    ensures Xor(Shl(1, k), a) == Shl(1, k) + a
  {
    if k > 0 && a > 0 { DisjointSum(k - 1, a / 2); }
  }

  lemma SmallSums()
    ensures Xor(8, 1) == 9 && Xor(128, 64) == 192 && Xor(192, 9) == 201 && Xor(64, 1) == 65
  {
    SmallShifts();
    assert Len(1) == 1 && Len(9) == 4 && Len(64) == 7 && Len(73) == 7;
    hide Xor, Shl, Len;
    DisjointSum(3, 1);
    DisjointSum(7, 64);
    DisjointSum(6, 1);
    DisjointSum(6, 9);
    DisjointSum(7, 73);
    XorAssoc(128, 64, 9);
  }

  lemma SmallLengths()
    ensures Len(PENTANOMIAL_TAIL) == 8 && Len(TRINOMIAL_TAIL) == 7
  {
  }

  lemma TailsAreSums()
    ensures PENTANOMIAL_TAIL == Xor(Xor(Shl(1, 7), Shl(1, 6)), Xor(Shl(1, 3), 1)) && Len(PENTANOMIAL_TAIL) == 8
    ensures TRINOMIAL_TAIL == Xor(Shl(1, 6), 1) && Len(TRINOMIAL_TAIL) == 7
  {
    hide Shl, Xor, Len;
    SmallShifts();
    SmallSums();
    SmallLengths();
  }

  lemma MulPentanomialTail(h: nat, i: nat)
    ensures Bit(CMul(h, PENTANOMIAL_TAIL), i)
         == (((Bit(h, i) != (i >= 3 && Bit(h, i - 3))) != (i >= 6 && Bit(h, i - 6))) != (i >= 7 && Bit(h, i - 7)))
  {
    TailsAreSums();
    hide CMul, Xor, Shl, Bit;
    var s, t := Xor(Shl(1, 7), Shl(1, 6)), Xor(Shl(1, 3), 1);
    CMulDistribRight(h, s, t);
    BitXor(CMul(h, s), CMul(h, t), i);
    MulTwoShifts(h, 7, 6, i);
    MulBinomial(h, 3, i);
  }

  lemma FoldBit163(x: nat, i: nat)
    ensures Bit(Fold(x, 163, PENTANOMIAL_TAIL), i)
         == (((((i < 163 && Bit(x, i)) != Bit(x, i + 163)) != (i >= 3 && Bit(x, i + 160)))
               != (i >= 6 && Bit(x, i + 157))) != (i >= 7 && Bit(x, i + 156)))
  {
    hide CMul, Xor, Low, High, Bit;
    var h := High(x, 163);
    BitXor(Low(x, 163), CMul(h, PENTANOMIAL_TAIL), i);
    BitLow(x, 163, i);
    MulPentanomialTail(h, i);
    BitHigh(x, 163, i);
    if i >= 3 { BitHigh(x, 163, i - 3); }
    if i >= 6 { BitHigh(x, 163, i - 6); }
    if i >= 7 { BitHigh(x, 163, i - 7); }
  }

  /** Each of the eight cases is two rounds of folding with the cancelled terms left out. */
  lemma PentanomialBitIsFold(x: nat, i: nat)
    requires Len(x) <= 325 && i < 163
    ensures PentanomialBit(x, i) == Bit(Fold(Fold(x, 163, PENTANOMIAL_TAIL), 163, PENTANOMIAL_TAIL), i)
  {
    hide CMul, Xor, Low, High, Bit, Fold;
    var y := Fold(x, 163, PENTANOMIAL_TAIL);
    forall k | 325 <= k ensures !Bit(x, k) { BitLen(x, k); }
    FoldBit163(y, i);
    FoldBit163(x, i);
    FoldBit163(x, i + 163);
    if i >= 3 { FoldBit163(x, i + 160); }
    if i >= 6 { FoldBit163(x, i + 157); }
    if i >= 7 { FoldBit163(x, i + 156); }
  }

  /** The network computes the remainder of everything a product of two elements can be. */
  lemma PentanomialCorrect(x: nat)
    requires Len(x) <= 325
    ensures Monic(163, PENTANOMIAL_TAIL) > 0 && Pentanomial(x) == Rem(x, Monic(163, PENTANOMIAL_TAIL))
  {
    TailsAreSums();
    hide CMul, Xor, Low, High, Bit, Fold, Len, Rem, FromBits;
    var p := PENTANOMIAL_TAIL;
    var y := Fold(x, 163, p);
    var z := Fold(y, 163, p);
    LenFold(x, 163, p, 162);
    LenFold(y, 163, p, 6);
    TwoRounds(x, 163, p);
    var s := seq(163, i => i >= 0 && PentanomialBit(x, i));
    forall i | 0 <= i < 163 ensures s[i] == Bit(z, i) { PentanomialBitIsFold(x, i); }
    HoldsValue(s, z);
  }

  /** Bits from 325 up are never looked at. */
  lemma PentanomialIgnoresHigh(x: nat)
    ensures Pentanomial(x) == Pentanomial(Low(x, 325))
  {
    hide FromBits, Bit, Low;
    var l := Low(x, 325);
    forall i: nat | i < 163 ensures PentanomialBit(x, i) == PentanomialBit(l, i) {
      forall k: nat | k < 325 ensures Bit(l, k) == Bit(x, k) { BitLow(x, 325, k); }
    }
    assert seq(163, i => i >= 0 && PentanomialBit(x, i)) == seq(163, i => i >= 0 && PentanomialBit(l, i));
  }

  // ---------- x^m + x^6 + 1 ----------

  lemma FoldBitTrinomial(x: nat, m: nat, i: nat)
    ensures Bit(Fold(x, m, TRINOMIAL_TAIL), i)
         == (((i < m && Bit(x, i)) != Bit(x, i + m)) != (i >= 6 && Bit(x, i - 6 + m)))
  {
    TailsAreSums();
    hide CMul, Xor, Low, High, Bit, Shl;
    var h := High(x, m);
    BitXor(Low(x, m), CMul(h, TRINOMIAL_TAIL), i);
    BitLow(x, m, i);
    MulBinomial(h, 6, i);
    BitHigh(x, m, i);
    if i >= 6 { BitHigh(x, m, i - 6); }
  }

  lemma TrinomialBitIsFold(x: nat, m: nat, i: nat)
    requires m >= 11 && Len(x) <= 2 * m - 1 && i < m
    ensures TrinomialBit(x, m, i) == Bit(Fold(Fold(x, m, TRINOMIAL_TAIL), m, TRINOMIAL_TAIL), i)
  {
    hide CMul, Xor, Low, High, Bit, Fold;
    var y := Fold(x, m, TRINOMIAL_TAIL);
    forall k | 2 * m - 1 <= k ensures !Bit(x, k) { BitLen(x, k); }
    FoldBitTrinomial(y, m, i);
    FoldBitTrinomial(x, m, i);
    FoldBitTrinomial(x, m, i + m);
    if i >= 6 { FoldBitTrinomial(x, m, i - 6 + m); }
  }

  lemma TrinomialCorrect(x: nat, m: nat)
    requires m >= 11 && Len(x) <= 2 * m - 1
    ensures Monic(m, TRINOMIAL_TAIL) > 0 && Trinomial(x, m) == Rem(x, Monic(m, TRINOMIAL_TAIL))
  {
    TailsAreSums();
    hide CMul, Xor, Low, High, Bit, Fold, Len, Rem, FromBits;
    var p := TRINOMIAL_TAIL;
    var y := Fold(x, m, p);
    var z := Fold(y, m, p);
    LenFold(x, m, p, m - 1);
    LenFold(y, m, p, 5);
    TwoRounds(x, m, p);
    var s := seq(m, i => i >= 0 && TrinomialBit(x, m, i));
    forall i | 0 <= i < m ensures s[i] == Bit(z, i) { TrinomialBitIsFold(x, m, i); }
    HoldsValue(s, z);
  }

  /** x^10 modulo x^m + x^6 + 1, from x^m = x^6 + 1 by doubling. */
  function TenthPower(m: nat): nat {
    if m == 7 then 79 else if m == 8 then 69 else if m == 9 then 130 else 65
  }

  lemma TrinomialModuli()
    ensures Monic(7, 65) == 193 && Monic(8, 65) == 321 && Monic(9, 65) == 577 && Monic(10, 65) == 1089
  {
    assert Shl(1, 7) == 128 && Shl(1, 8) == 256 && Shl(1, 9) == 512 && Shl(1, 10) == 1024;
    assert Len(65) == 7;
    hide Shl, Xor, Len;
    DisjointSum(7, 65);
    DisjointSum(8, 65);
    DisjointSum(9, 65);
    DisjointSum(10, 65);
  }

  /** Subtracting x^m + p from x^m + l leaves l + p. */
  lemma ReduceTop(m: nat, l: nat, p: nat)
    requires Len(l) <= m && Len(p) <= m
    ensures Reduce(Shl(1, m) + l, Shl(1, m) + p) == Xor(l, p)
  {
    hide Xor, Shl, Len;
    var u := Shl(1, m);
    DisjointSum(m, l);
    DisjointSum(m, p);
    LenMonic(m, l);
    LenMonic(m, p);
    XorComm(u, l);
    XorAssoc(l, u, Xor(u, p));
    XorCancel(u, p);
  }

  lemma LenMonic(m: nat, p: nat)
    requires Len(p) <= m
    ensures Len(Xor(Shl(1, m), p)) == m + 1
  {
    hide Xor, Rem, CMul;
    RemFold(0, m, p);
  }

  lemma LiteralLengths()
    ensures Len(2) == 2 && Len(4) == 3 && Len(6) == 3 && Len(14) == 4 && Len(65) == 7
    ensures Len(130) == 8 && Len(321) == 9 && Len(577) == 10
  {
  }

  lemma LiteralSums()
    ensures Xor(2, 65) == 67 && Xor(4, 65) == 69 && Xor(6, 65) == 71 && Xor(14, 65) == 79
  {
    XorDigits(1, 32, 0, 1); XorDigits(2, 32, 0, 1); XorDigits(3, 32, 0, 1); XorDigits(7, 32, 0, 1);
    XorDigits(0, 16, 1, 0); XorDigits(1, 16, 0, 0); XorDigits(1, 16, 1, 0); XorDigits(3, 16, 1, 0);
    XorDigits(0, 8, 1, 0); XorDigits(1, 8, 1, 0); XorDigits(0, 4, 1, 0);
    assert Xor(0, 4) == 4 && Xor(0, 8) == 8 && Xor(0, 16) == 16;
    hide Xor;
  }

  lemma LiteralPowers()
    ensures Shl(1, 7) == 128 && Shl(1, 8) == 256
  {
  }

  lemma Reductions()
    ensures Reduce(130, 193) == 67 && Reduce(134, 193) == 71 && Reduce(142, 193) == 79
    ensures Reduce(260, 321) == 69 && Reduce(130, 321) == 130 && Reduce(130, 577) == 130
  {
    hide Xor, Shl, Len;
    LiteralPowers();
    LiteralLengths();
    LiteralSums();
    ReduceTop(7, 2, 65);
    ReduceTop(7, 6, 65);
    ReduceTop(7, 14, 65);
    ReduceTop(8, 4, 65);
  }

  lemma PowerOfModulus(m: nat, p: nat)
    requires Len(p) <= m
    ensures Monic(m, p) > 0 && Rem(Shl(1, m), Monic(m, p)) == p
  {
    hide Rem, Xor, Shl, Len;
    var f := Monic(m, p);
    MonicPositive(m, p);
    RemFold(0, m, p);
    RemSelf(f);
    RemXor(Shl(1, m), p, f);
    RemSmall(p, f);
    XorZeroEq(Rem(Shl(1, m), f), p);
  }

  lemma DoublePower(k: nat, r: nat, s: nat, f: nat)
    requires f > 0 && Rem(Shl(1, k), f) == r && Reduce(2 * r, f) == s
    ensures Rem(Shl(1, k + 1), f) == s
  {
    hide Rem, Reduce;
    RemDouble(Shl(1, k), f);
  }

  lemma TenthPowerCorrect(m: nat)
    requires 7 <= m <= 10
    ensures Monic(m, TRINOMIAL_TAIL) > 0 && Rem(Shl(1, 10), Monic(m, TRINOMIAL_TAIL)) == TenthPower(m)
  {
    hide Rem, Shl, Reduce, Xor, Len;
    SmallLengths();
    TrinomialModuli();
    Reductions();
    PowerOfModulus(m, 65);
    if m == 7 {
      DoublePower(7, 65, 67, 193); DoublePower(8, 67, 71, 193); DoublePower(9, 71, 79, 193);
    } else if m == 8 {
      DoublePower(8, 65, 130, 321); DoublePower(9, 130, 69, 321);
    } else if m == 9 {
      DoublePower(9, 65, 130, 577);
    }
  }

  lemma TenthPowerBit(m: nat)
    requires 7 <= m <= 10
    ensures Bit(TenthPower(m), 10 - m)
  {
    assert Bit(79, 3) == Bit(39, 2) == Bit(19, 1) == Bit(9, 0);
    assert Bit(69, 2) == Bit(34, 1) == Bit(17, 0);
    assert Bit(130, 1) == Bit(65, 0);
  }

  /** x^(2m - 2) = x^10 + x^4 + x^(m - 2) modulo x^m + x^6 + 1. */
  lemma HighestPower(m: nat)
    requires 7 <= m
    ensures var f := Monic(m, TRINOMIAL_TAIL);
            f > 0 && Rem(Shl(1, 2 * m - 2), f) == Rem(Xor(Xor(Shl(1, 10), Shl(1, 4)), Shl(1, m - 2)), f)
  {
    TailsAreSums();
    hide Rem, Xor, Shl, Len, Low, High, Bit, Fold;
    var x := Shl(1, 2 * m - 2);
    var y := Fold(x, m, TRINOMIAL_TAIL);
    var z := Fold(y, m, TRINOMIAL_TAIL);
    RemFold(x, m, TRINOMIAL_TAIL);
    RemFold(y, m, TRINOMIAL_TAIL);
    MonicPositive(m, TRINOMIAL_TAIL);
    assert z == Xor(Xor(Shl(1, 10), Shl(1, 4)), Shl(1, m - 2)) by { HighestPowerFolded(m); }
    FoldIs(x, m, TRINOMIAL_TAIL);
    FoldIs(y, m, TRINOMIAL_TAIL);
  }

  lemma FoldIs(x: nat, m: nat, p: nat)
    ensures Fold(x, m, p) == Xor(Low(x, m), CMul(High(x, m), p))
  {
  }

  lemma BitOne(i: nat)
    ensures Bit(1, i) == (i == 0)
  {
    if i > 0 { BitZero(i - 1); }
  }

  lemma BitPower(k: nat, i: nat)
    ensures Bit(Shl(1, k), i) == (i == k)
  {
    BitShl(1, k, i);
    if i >= k { BitOne(i - k); }
  }

  lemma HighestPowerFolded(m: nat)
    requires 7 <= m
    ensures Fold(Fold(Shl(1, 2 * m - 2), m, TRINOMIAL_TAIL), m, TRINOMIAL_TAIL)
         == Xor(Xor(Shl(1, 10), Shl(1, 4)), Shl(1, m - 2))
  {
    hide Xor, Shl, Bit, Fold;
    var x := Shl(1, 2 * m - 2);
    var y := Fold(x, m, TRINOMIAL_TAIL);
    var z, w := Fold(y, m, TRINOMIAL_TAIL), Xor(Xor(Shl(1, 10), Shl(1, 4)), Shl(1, m - 2));
    forall i: nat ensures Bit(y, i) == (i == m - 2 || i == m + 4) {
      FoldBitTrinomial(x, m, i);
      BitPower(2 * m - 2, i);
      BitPower(2 * m - 2, i + m);
      if i >= 6 { BitPower(2 * m - 2, i - 6 + m); }
    }
    forall i: nat ensures Bit(z, i) == Bit(w, i) {
      FoldBitTrinomial(y, m, i);
      BitXor(Xor(Shl(1, 10), Shl(1, 4)), Shl(1, m - 2), i);
      BitXor(Shl(1, 10), Shl(1, 4), i);
      BitPower(10, i); BitPower(4, i); BitPower(m - 2, i);
    }
    BitsDetermine(z, w);
  }

  /** The remainder of x^(2m - 2) has a coefficient at x^(10 - m), for m from 7 to 10. */
  lemma HighestRemainder(m: nat)
    requires 7 <= m <= 10
    ensures Monic(m, TRINOMIAL_TAIL) > 0 && Bit(Rem(Shl(1, 2 * m - 2), Monic(m, TRINOMIAL_TAIL)), 10 - m)
  {
    hide Xor, Shl, Bit, Rem, Len, TenthPower;
    SmallLengths();
    LenOne();
    TenthPowerBit(m);
    HighestPower(m);
    TenthPowerCorrect(m);
    var f, t, u := Monic(m, TRINOMIAL_TAIL), Shl(1, 4), Shl(1, m - 2);
    RemXor(Xor(Shl(1, 10), t), u, f);
    RemXor(Shl(1, 10), t, f);
    LenMonic(m, TRINOMIAL_TAIL);
    LenShl(1, 4); LenShl(1, m - 2);
    RemSmall(t, f);
    RemSmall(u, f);
    BitXor(Xor(TenthPower(m), t), u, 10 - m);
    BitXor(TenthPower(m), t, 10 - m);
    BitPower(4, 10 - m);
    BitPower(m - 2, 10 - m);
  }

  /** The network leaves that coefficient out. */
  lemma HighestNetwork(m: nat)
    requires 7 <= m <= 10
    ensures !Bit(Trinomial(Shl(1, 2 * m - 2), m), 10 - m)
  {
    hide Shl, Bit, FromBits;
    var x, i := Shl(1, 2 * m - 2), 10 - m;
    BitFromBits(seq(m, k => k >= 0 && TrinomialBit(x, m, k)), i);
    BitPower(2 * m - 2, i);
    BitPower(2 * m - 2, i + m);
    BitPower(2 * m - 2, 2 * m + i - 6);
  }

  /** For m below 11 a third round of folding is needed: x^(2m - 2) is reduced wrongly. */
  lemma TrinomialTooShort(m: nat)
    requires 7 <= m <= 10
    ensures var x := Shl(1, 2 * m - 2);
            Len(x) == 2 * m - 1 && Monic(m, TRINOMIAL_TAIL) > 0 && Trinomial(x, m) != Rem(x, Monic(m, TRINOMIAL_TAIL))
  {
    LenOne();
    hide Bit, Rem, Len, Trinomial, Monic, Shl;
    LenShl(1, 2 * m - 2);
    HighestRemainder(m);
    HighestNetwork(m);
  }

  lemma LenOne()
    ensures Len(1) == 1
  {
  }

  /**
   The trinomial network computes the remainder of every product of two elements exactly
   when the width is at least 11.
   */
  lemma TrinomialExact(m: nat)
    requires m >= 7
    ensures Monic(m, TRINOMIAL_TAIL) > 0
    ensures (forall x: nat :: Len(x) <= 2 * m - 1 ==> Trinomial(x, m) == Rem(x, Monic(m, TRINOMIAL_TAIL))) <==> m >= 11
  {
    SmallLengths();
    MonicPositive(m, TRINOMIAL_TAIL);
    hide Rem, Trinomial, Monic, Len;
    if m >= 11 {
      forall x: nat | Len(x) <= 2 * m - 1 ensures Trinomial(x, m) == Rem(x, Monic(m, TRINOMIAL_TAIL)) {
        TrinomialCorrect(x, m);
      }
    } else {
      TrinomialTooShort(m);
    }
  }

  // ---------- Squaring ----------

  /** Squares have no cross terms: a^2 = 4 (a / 2)^2 + a % 2. */
  lemma SquareStep(a: nat)
    ensures CMul(a, a) == 4 * CMul(a / 2, a / 2) + a % 2
  {
    hide CMul, Xor;
    var b, h := a % 2, a / 2;
    LowBitSplit(a);
    CMulDistribLeft(b, 2 * h, a);
    CMulDistribRight(b, b, 2 * h);
    CMulDistribRight(2 * h, b, 2 * h);
    CMulDoubleLeft(h, 2 * h);
    CMulDoubleRight(h, h);
    CMulComm(b, 2 * h);
    var t, u := CMul(b, b), CMul(b, 2 * h);
    XorAssoc(t, u, Xor(u, 4 * CMul(h, h)));
    XorCancel(u, 4 * CMul(h, h));
    assert t == b by { SquareOfBit(b); }
    XorDigits(0, 2 * CMul(h, h), b, 0);
    assert Xor(b, 4 * CMul(h, h)) == 4 * CMul(h, h) + b by { XorZeroLeft(2 * CMul(h, h)); }
  }

  lemma SquareOfBit(b: nat)
    requires b < 2
    ensures CMul(b, b) == b
  {
  }

  lemma XorZeroLeft(a: nat)
    ensures Xor(0, a) == a
  {
  }

  /** Squaring puts a zero between any two coefficients. */
  lemma {:induction false} SquareInterleaves(a: nat, i: nat)
    ensures Bit(CMul(a, a), i) == (i % 2 == 0 && Bit(a, i / 2))
    decreases i
  {
    SquareStep(a);
    var s := CMul(a / 2, a / 2);
    hide CMul;
    if i >= 2 {
      SquareInterleaves(a / 2, i - 2);
      assert (4 * s + a % 2) / 2 == 2 * s && 2 * s / 2 == s;
      assert Bit(4 * s + a % 2, i) == Bit(2 * s, i - 1) == Bit(s, i - 2);
      assert (i - 2) / 2 == i / 2 - 1 && (i - 2) % 2 == i % 2;
    } else if i == 1 {
      assert (4 * s + a % 2) / 2 == 2 * s;
    }
  }

  // ---------- Karatsuba ----------

  /** Recombination of the three partial products of the split at x^k. */
  function Recombine(ll: nat, mid: nat, hh: nat, k: nat): nat {
    Xor(Shl(hh, 2 * k), Xor(Shl(Xor(Xor(mid, ll), hh), k), ll))
  }

  lemma SplitProduct(l: nat, h: nat, b: nat, k: nat)
    ensures CMul(Xor(l, Shl(h, k)), b) == Xor(CMul(l, b), Shl(CMul(h, b), k))
  {
    hide CMul, Xor, Shl;
    CMulDistribLeft(l, Shl(h, k), b);
    CMulShl(h, b, k);
  }

  lemma SplitProductRight(a: nat, l: nat, h: nat, k: nat)
    ensures CMul(a, Xor(l, Shl(h, k))) == Xor(CMul(a, l), Shl(CMul(a, h), k))
  {
    hide CMul, Xor, Shl;
    CMulDistribRight(a, l, Shl(h, k));
    CMulShl(a, h, k);
  }

  lemma FourProducts(a: nat, b: nat, c: nat, d: nat, k: nat, i: nat)
    ensures Bit(Recombine(a, Xor(Xor(a, b), Xor(c, d)), d, k), i)
         == Bit(Xor(Xor(a, Shl(b, k)), Shl(Xor(c, Shl(d, k)), k)), i)
  {
    hide Xor, Shl, Bit;
    var mid := Xor(Xor(a, b), Xor(c, d));
    var m := Xor(Xor(mid, a), d);
    BitXor(Shl(d, 2 * k), Xor(Shl(m, k), a), i);
    BitXor(Shl(m, k), a, i);
    BitShl(d, 2 * k, i); BitShl(m, k, i); BitShl(b, k, i); BitShl(Xor(c, Shl(d, k)), k, i);
    BitXor(Xor(a, Shl(b, k)), Shl(Xor(c, Shl(d, k)), k), i);
    BitXor(a, Shl(b, k), i);
    if i >= k {
      var j := i - k;
      BitXor(Xor(mid, a), d, j); BitXor(mid, a, j);
      BitXor(Xor(a, b), Xor(c, d), j); BitXor(a, b, j); BitXor(c, d, j);
      BitXor(c, Shl(d, k), j);
      BitShl(d, k, j);
    }
  }

  /** Three products make the four of the schoolbook product of l1 + h1 x^k and l2 + h2 x^k. */
  lemma KaratsubaCorrect(l1: nat, h1: nat, l2: nat, h2: nat, k: nat)
    ensures Recombine(CMul(l1, l2), CMul(Xor(l1, h1), Xor(l2, h2)), CMul(h1, h2), k)
         == CMul(Xor(l1, Shl(h1, k)), Xor(l2, Shl(h2, k)))
  {
    hide CMul, Xor, Shl, Bit, Recombine;
    var a, b, c, d := CMul(l1, l2), CMul(l1, h2), CMul(h1, l2), CMul(h1, h2);
    CMulDistribLeft(l1, h1, Xor(l2, h2));
    CMulDistribRight(l1, l2, h2);
    CMulDistribRight(h1, l2, h2);
    SplitProduct(l1, h1, Xor(l2, Shl(h2, k)), k);
    SplitProductRight(l1, l2, h2, k);
    SplitProductRight(h1, l2, h2, k);
    var r := Recombine(a, Xor(Xor(a, b), Xor(c, d)), d, k);
    var p := Xor(Xor(a, Shl(b, k)), Shl(Xor(c, Shl(d, k)), k));
    forall i: nat ensures Bit(r, i) == Bit(p, i) { FourProducts(a, b, c, d, k, i); }
    BitsDetermine(r, p);
  }
}
