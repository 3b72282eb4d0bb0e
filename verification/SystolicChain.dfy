/**
 src/multiplier.cpp, module PE, and the chain that module MULT (and the generator
 src/genmult.py, for any width) wires from it.  Reset is taken to be inactive.
 */
module SystolicChain {
  import opened Gf2Poly

  /** What one processing element stores at a clock edge: its wires w0 to w3. */
  function PeNext(a: bool, b: bool, p: bool, mPre: bool, w4: bool, isMul: bool, toMod: bool, clean: bool): bool {
    var w0 := p && toMod;
    var w1 := a && b;
    var w2 := if isMul then mPre else w4;
    var w3 := (w0 != w1) != w2;
    !clean && w3
  }

  /** Register i of a chain of n elements after an edge; element 0 is fed by ground. */
  function NextBit(w: nat, a: bool, b: nat, p: nat, isMul: bool, clean: bool, n: nat, i: nat): bool
    requires i < n
  {
    var mPre := i > 0 && Bit(w, i - 1);
    var toMod := isMul && Bit(w, n - 1);
    PeNext(a, Bit(b, i), Bit(p, i), mPre, Bit(w, i), isMul, toMod, clean)
  }

  /** All registers after an edge, as one word. */
  function ChainNext(w: nat, a: bool, b: nat, p: nat, isMul: bool, clean: bool, n: nat): nat {
    FromBits(seq(n, i => 0 <= i < n && NextBit(w, a, b, p, isMul, clean, n, i)))
  }

  /** The same on lists of register and signal values. */
  function Element(s: seq<bool>, a: bool, b: seq<bool>, p: seq<bool>, isMul: bool, clean: bool, k: nat): bool
    requires k < |s| == |b| == |p|
  {
    PeNext(a, b[k], p[k], k > 0 && s[k - 1], s[k], isMul, isMul && s[|s| - 1], clean)
  }

  /** The n elements and their registers, clocked together. */
  class PeChain {
    var w4: array<bool>

    constructor (n: nat)
      ensures fresh(w4) && w4.Length == n && FromBits(w4[..]) == 0
    {
      w4 := new bool[n](_ => false);
      new;
      LowZero(n);
      Initial(0, 0, 1, n, w4[..]);
    }

    /** One rising edge: every register takes the value its element computed from the old ones. */
    method Clock(a: bool, b: seq<bool>, p: seq<bool>, isMul: bool, clean: bool)
      requires |b| == |p| == w4.Length > 0
      modifies w4
      ensures FromBits(w4[..])
           == ChainNext(old(FromBits(w4[..])), a, FromBits(b), FromBits(p), isMul, clean, w4.Length)
    {
      ghost var s, w := w4[..], FromBits(w4[..]);
      var n := w4.Length;
      var toMod := isMul && w4[n - 1];
      var i := n - 1;
      while i >= 0
        invariant -1 <= i < n
        invariant forall k :: 0 <= k <= i ==> w4[k] == s[k]
        invariant forall k :: i < k < n ==> w4[k] == Element(s, a, b, p, isMul, clean, k)
      {
        var mPre := i > 0 && w4[i - 1];
        w4[i] := PeNext(a, b[i], p[i], mPre, w4[i], isMul, toMod, clean);
        i := i - 1;
      }
      hide FromBits, Bit;
      BitFromBits(s, n - 1);
      forall k | 0 <= k < n ensures w4[k] == NextBit(w, a, FromBits(b), FromBits(p), isMul, clean, n, k) {
        BitFromBits(s, k); BitFromBits(b, k); BitFromBits(p, k);
        if k > 0 { BitFromBits(s, k - 1); }
        assert w4[k] == Element(s, a, b, p, isMul, clean, k);
      }
      assert w4[..] == seq(n, i => 0 <= i < n && NextBit(w, a, FromBits(b), FromBits(p), isMul, clean, n, i));
    }
  }

  lemma LowZero(n: nat)
    ensures Len(0) <= n
  {
  }

  lemma ChainBits(w: nat, a: bool, b: nat, p: nat, isMul: bool, clean: bool, n: nat, v: nat)
    requires Len(v) <= n
    requires forall i: nat :: i < n ==> NextBit(w, a, b, p, isMul, clean, n, i) == Bit(v, i)
    ensures ChainNext(w, a, b, p, isMul, clean, n) == v
  {
    HoldsValue(seq(n, i => 0 <= i < n && NextBit(w, a, b, p, isMul, clean, n, i)), v);
  }

  /** In multiply mode an edge maps w to x w + a b modulo x^n + p. */
  lemma ChainMultiplies(w: nat, a: bool, b: nat, p: nat, n: nat)
    requires n > 0 && Len(w) <= n && Len(b) <= n && Len(p) <= n
    ensures ChainNext(w, a, b, p, true, false, n) == Xor(Xor(Low(2 * w, n), Gate(a, b)), Gate(Bit(2 * w, n), p))
    ensures Monic(n, p) > 0
    ensures ChainNext(w, a, b, p, true, false, n) == Rem(Xor(2 * w, Gate(a, b)), Monic(n, p))
  {
    hide Low, Xor, Bit, Len, ChainNext, Rem;
    var top := Bit(2 * w, n);
    var v := Xor(Xor(Low(2 * w, n), Gate(a, b)), Gate(top, p));
    DoubleBit(w, n);
    assert Len(0) <= n by { LowZero(n); }
    LenLow(2 * w, n);
    LenXor(Low(2 * w, n), Gate(a, b));
    LenXor(Xor(Low(2 * w, n), Gate(a, b)), Gate(top, p));
    forall i: nat | i < n ensures NextBit(w, a, b, p, true, false, n, i) == Bit(v, i) {
      BitXor(Xor(Low(2 * w, n), Gate(a, b)), Gate(top, p), i);
      BitXor(Low(2 * w, n), Gate(a, b), i);
      BitLow(2 * w, n, i);
      if i > 0 { DoubleBit(w, i); } else { DoubleIsEven(w); }
      BitZero(i);
    }
    ChainBits(w, a, b, p, true, false, n, v);
    MonicPositive(n, p);
    ChainIsRem(w, a, b, p, n);
  }

  lemma DoubleBit(w: nat, i: nat)
    requires i > 0
    ensures Bit(2 * w, i) == Bit(w, i - 1)
  {
  }

  lemma DoubleIsEven(w: nat)
    ensures !Bit(2 * w, 0)
  {
  }

  lemma ChainIsRem(w: nat, a: bool, b: nat, p: nat, n: nat)
    requires n > 0 && Len(w) <= n && Len(b) <= n && Len(p) <= n && Monic(n, p) > 0
    ensures Xor(Xor(Low(2 * w, n), Gate(a, b)), Gate(Bit(2 * w, n), p)) == Rem(Xor(2 * w, Gate(a, b)), Monic(n, p))
  {
    hide Low, Xor, Bit, Len, Rem;
    var f, g, l, c := Monic(n, p), Gate(a, b), Low(2 * w, n), Gate(Bit(2 * w, n), p);
    RemFold(0, n, p);
    assert Len(0) <= n by { LowZero(n); }
    RemXor(2 * w, g, f);
    RemSmall(g, f);
    RemSmall(w, f);
    RemDouble(w, f);
    DelayedReduction(w, n, p);
    XorAssoc(l, g, c);
    XorComm(g, c);
    XorAssoc(l, c, g);
  }

  /** In add mode an edge maps w to w + a b. */
  lemma ChainAdds(w: nat, a: bool, b: nat, p: nat, n: nat)
    requires n > 0 && Len(w) <= n && Len(b) <= n
    ensures ChainNext(w, a, b, p, false, false, n) == Xor(w, Gate(a, b))
  {
    hide Xor, Bit, Len, ChainNext;
    assert Len(0) <= n by { LowZero(n); }
    LenXor(w, Gate(a, b));
    forall i: nat | i < n ensures NextBit(w, a, b, p, false, false, n, i) == Bit(Xor(w, Gate(a, b)), i) {
      BitXor(w, Gate(a, b), i);
      BitZero(i);
    }
    ChainBits(w, a, b, p, false, false, n, Xor(w, Gate(a, b)));
  }

  lemma ChainCleans(w: nat, a: bool, b: nat, p: nat, isMul: bool, n: nat)
    requires n > 0
    ensures ChainNext(w, a, b, p, isMul, true, n) == 0
  {
    hide FromBits, Bit, Len, ChainNext;
    forall i: nat ensures !Bit(0, i) { BitZero(i); }
    assert Len(0) <= n by { LowZero(n); }
    ChainBits(w, a, b, p, isMul, true, n, 0);
  }

  lemma LenChainNext(w: nat, a: bool, b: nat, p: nat, isMul: bool, clean: bool, n: nat)
    ensures Len(ChainNext(w, a, b, p, isMul, clean, n)) <= n
  {
    LenFromBits(seq(n, i => 0 <= i < n && NextBit(w, a, b, p, isMul, clean, n, i)));
  }

  /** k edges in multiply mode, fed with the digits of a from digit i + k - 1 down to digit i. */
  function Feed(a: nat, b: nat, p: nat, n: nat, i: nat): nat
    requires i <= n
    decreases n - i
  {
    if i == n then 0 else ChainNext(Feed(a, b, p, n, i + 1), Bit(a, i), b, p, true, false, n)
  }

  /** The registers hold the partial products of the bit-serial program of ecc.cpp. */
  lemma {:induction false} FeedIsPartial(a: nat, b: nat, p: nat, n: nat, i: nat)
    requires i <= n && n > 0 && Len(a) <= n && Len(b) <= n && Len(p) <= n
    ensures Monic(n, p) > 0 && Len(Feed(a, b, p, n, i)) <= n
    ensures Feed(a, b, p, n, i) == Partial(a, b, Monic(n, p), i)
    decreases n - i
  {
    hide Len, Rem, Xor, Low, Bit, ChainNext, Monic, Partial;
    MonicPositive(n, p);
    if i == n {
      StartPartial(a, b, Monic(n, p), n);
      LowZero(n);
    } else {
      FeedIsPartial(a, b, p, n, i + 1);
      var w := Feed(a, b, p, n, i + 1);
      ChainMultiplies(w, Bit(a, i), b, p, n);
      PartialNext(a, b, n, p, i);
      LenChainNext(w, Bit(a, i), b, p, true, false, n);
    }
  }

  lemma StartPartial(a: nat, b: nat, f: nat, n: nat)
    requires f > 0 && Len(a) <= n
    ensures Partial(a, b, f, n) == 0
  {
    LenHigh(a, n);
    LenZero(High(a, n));
  }

  /** n edges from cleared registers compute the product of ecc.cpp. */
  lemma FeedIsProduct(a: nat, b: nat, p: nat, n: nat)
    requires n > 0 && Len(a) <= n && Len(b) <= n && Len(p) <= n
    ensures Monic(n, p) > 0 && Feed(a, b, p, n, 0) == Rem(CMul(a, b), Monic(n, p))
  {
    hide Rem, CMul, Feed, Len;
    FeedIsPartial(a, b, p, n, 0);
    assert High(a, 0) == a;
  }
}
