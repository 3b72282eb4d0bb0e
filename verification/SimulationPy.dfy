/**
 src/sw_sim/simulation.py: the functions that loop over strings and lists of bits.  A string
 of binary digits is a sequence of bool, leading digit first as format(x, "b") gives it.
 */
module SimulationPy {
  import opened Gf2Poly
  import opened Reduction
  import opened Fermat
  import opened Field
  import opened BinaryField
  import opened Wrappers

  // ---------- Strings of digits ----------

  function Reverse(s: seq<bool>): (r: seq<bool>)
    ensures |r| == |s|
  {
    seq(|s|, i requires 0 <= i < |s| => s[|s| - 1 - i])
  }

  /** The n lowest digits of x, lowest first. */
  function Digits(x: nat, n: nat): (s: seq<bool>)
    ensures |s| == n && forall i :: 0 <= i < n ==> s[i] == Bit(x, i)
  {
    seq(n, i => i >= 0 && Bit(x, i))
  }

  /** format(x, "b"): no leading zeros, but one digit for 0. */
  function Format(x: nat): seq<bool> {
    Reverse(Digits(x, if x == 0 then 1 else Len(x)))
  }

  /** int(s, 2). */
  function IntOf(s: seq<bool>): nat {
    FromBits(Reverse(s))
  }

  lemma DigitsValue(x: nat, n: nat)
    requires Len(x) <= n
    ensures FromBits(Digits(x, n)) == x
  {
    HoldsValue(Digits(x, n), x);
  }

  /** Padding with zeros at the leading end, up to n digits. */
  method PadLeft(s: seq<bool>, n: nat) returns (t: seq<bool>)
    ensures t == seq(if |s| < n then n - |s| else 0, i => false) + s
  {
    t := s;
    if |s| != n {
      var i := 0;
      while i < n - |s|
        invariant 0 <= i && (i <= n - |s| || i == 0)
        invariant t == seq(i, k => false) + s
      {
        t := [false] + t;
        i := i + 1;
      }
    }
  }

  /** Padding with zeros at the trailing end, up to n digits. */
  method PadRight(s: seq<bool>, n: nat) returns (t: seq<bool>)
    ensures t == s + seq(if |s| < n then n - |s| else 0, i => false)
  {
    t := s;
    if |s| != n {
      var i := 0;
      while i < n - |s|
        invariant 0 <= i && (i <= n - |s| || i == 0)
        invariant t == s + seq(i, k => false)
      {
        t := t + [false];
        i := i + 1;
      }
    }
  }

  /** The digits of x with leading zeros up to width n. */
  lemma PaddedDigits(x: nat, n: nat)
    requires Len(x) <= n && n > 0
    ensures seq(if |Format(x)| < n then n - |Format(x)| else 0, i => false) + Format(x) == Reverse(Digits(x, n))
  {
    hide Bit;
    var f := Format(x);
    var m := |f|;
    assert Len(x) <= m <= n by { LenZero(x); }
    hide Len;
    var z := seq(n - m, i => false);
    FormatDigit(x);
    var d := Reverse(Digits(x, n));
    forall k | 0 <= k < n ensures d[k] == Bit(x, n - 1 - k) { ReverseDigit(x, n, k); }
    hide Reverse, Digits, Format;
    forall k | 0 <= k < n ensures (z + f)[k] == d[k] {
      if k < n - m { BitLen(x, n - 1 - k); }
    }
    assert z + f == d;
  }

  lemma ReverseDigit(x: nat, n: nat, k: nat)
    requires k < n
    ensures Reverse(Digits(x, n))[k] == Bit(x, n - 1 - k)
  {
  }

  lemma FormatDigit(x: nat)
    ensures |Format(x)| == if x == 0 then 1 else Len(x)
    ensures forall k :: 0 <= k < |Format(x)| ==> Format(x)[k] == Bit(x, |Format(x)| - 1 - k)
  {
  }

  /** Reversed and padded at the other end: digit i is coefficient i, whatever the length. */
  lemma ReversedDigits(x: nat, n: nat)
    ensures var s := Reverse(Format(x)); var t := s + seq(if |s| < n then n - |s| else 0, i => false);
            t == Digits(x, if |s| < n then n else |s|)
  {
    var s := Reverse(Format(x));
    var t := s + seq(if |s| < n then n - |s| else 0, i => false);
    forall k | 0 <= k < |t| ensures t[k] == Bit(x, k) {
      if k >= |s| { BitLen(x, k); }
    }
  }

  lemma ReverseTwice(s: seq<bool>)
    ensures Reverse(Reverse(s)) == s
  {
  }

  // ---------- Reduction ----------

  /** The digits of the 163-bit network, appended one by one. */
  method PentanomialDigits(b: seq<bool>, bitnum: nat, ghost x1: nat) returns (tempList: seq<bool>)
    requires bitnum == 163 && |b| >= 326 && forall j :: 0 <= j < 326 ==> b[j] == Bit(x1, j)
    ensures tempList == seq(163, i => i >= 0 && PentanomialBit(x1, i))
  {
    hide Bit;
    tempList := [];
    for i := 0 to bitnum
      invariant |tempList| == i && forall j :: 0 <= j < i ==> tempList[j] == PentanomialBit(x1, j)
    {
      var bit;
      if i <= 1 {
        bit := (((b[i] != b[i + 163]) != b[i + 319]) != b[i + 320]) != b[i + 323];
      } else if i == 2 {
        bit := ((b[2] != b[165]) != b[321]) != b[322];
      } else if i <= 5 {
        bit := ((((b[i] != b[i + 163]) != b[i + 160]) != b[i + 319]) != b[i + 316]) != b[i + 317];
      } else if i == 6 {
        bit := (((((b[6] != b[169]) != b[163]) != b[166]) != b[322]) != b[319]) != b[320];
      } else if i <= 10 {
        bit := (((((b[i] != b[i + 163]) != b[i + 156]) != b[i + 157]) != b[i + 160]) != b[i + 312]) != b[i + 314];
      } else if i <= 12 {
        bit := ((((b[i] != b[i + 163]) != b[i + 156]) != b[i + 157]) != b[i + 160]) != b[i + 312];
      } else if i <= 161 {
        bit := (((b[i] != b[i + 163]) != b[i + 156]) != b[i + 157]) != b[i + 160];
      } else {
        bit := ((b[162] != b[318]) != b[319]) != b[322];
      }
      assert bit == PentanomialBit(x1, i);
      hide PentanomialBit;
      tempList := tempList + [bit];
    }
  }

  /** The digits of the trinomial network, appended one by one. */
  method TrinomialDigits(b: seq<bool>, bitnum: nat, k: int, ghost x1: nat) returns (tempList: seq<bool>)
    requires bitnum > 6 && k == 6
    requires |b| >= 2 * bitnum && forall j :: 0 <= j < 2 * bitnum ==> b[j] == Bit(x1, j)
    ensures tempList == seq(bitnum, i => i >= 0 && TrinomialBit(x1, bitnum, i))
  {
    hide Bit;
    tempList := [];
    for i := 0 to bitnum
      invariant |tempList| == i && forall j :: 0 <= j < i ==> tempList[j] == TrinomialBit(x1, bitnum, j)
    {
      var bit;
      if i <= k - 2 {
        bit := (b[i] != b[i + bitnum]) != b[2 * bitnum + i - k];
      } else if i == k - 1 {
        bit := b[k - 1] != b[bitnum + k - 1];
      } else if i <= 2 * k - 2 {
        bit := ((b[i] != b[i + bitnum]) != b[i + 2 * bitnum - 2 * k]) != b[i + bitnum - k];
      } else if i <= bitnum - 2 {
        bit := (b[i] != b[i + bitnum]) != b[i + bitnum - k];
      } else {
        bit := b[bitnum - 1] != b[2 * bitnum - k - 1];
      }
      assert bit == TrinomialBit(x1, bitnum, i);
      hide TrinomialBit;
      tempList := tempList + [bit];
    }
  }

  /** Reduction of any number: by a network where there is one for the width, else an exception. */
  method PolyModHardware(x1: nat, bitnum: nat, k: int) returns (r: Result<nat>)
    requires bitnum > 6
    ensures r == if bitnum == 163 then Ok(Pentanomial(x1)) else if k == 6 then Ok(Trinomial(x1, bitnum)) else Raised
    ensures r.Ok? ==> Len(r.value) <= bitnum
  {
    hide Bit, FromBits, Len, Format, PentanomialBit, TrinomialBit;
    var b := Reverse(Format(x1));
    ReversedDigits(x1, 2 * bitnum);
    b := PadRight(b, 2 * bitnum);
    var tempList: seq<bool>;
    if bitnum == 163 {
      tempList := PentanomialDigits(b, bitnum, x1);
    } else if k == 1 {
      return Raised;
    } else if k == 6 {
      tempList := TrinomialDigits(b, bitnum, k, x1);
    } else {
      return Raised;
    }
    ReverseTwice(tempList);
    LenFromBits(tempList);
    hide Reverse;
    return Ok(IntOf(Reverse(tempList)));
  }

  // ---------- The two fields of the script ----------

  /** x^163 + x^7 + x^6 + x^3 + 1 at width 163, x^m + x^6 + 1 otherwise. */
  function ModulusFor(bitnum: nat): Modulus
    requires bitnum > 6
  {
    SmallLengths();
    MonicPositive(bitnum, if bitnum == 163 then PENTANOMIAL_TAIL else TRINOMIAL_TAIL);
    Monic(bitnum, if bitnum == 163 then PENTANOMIAL_TAIL else TRINOMIAL_TAIL)
  }

  lemma ModulusForDegree(bitnum: nat)
    requires bitnum > 7
    ensures Degree(ModulusFor(bitnum)) == bitnum
  {
    SmallLengths();
    RemFold(0, bitnum, if bitnum == 163 then PENTANOMIAL_TAIL else TRINOMIAL_TAIL);
  }

  /** Reduction of anything as short as a product of two elements. */
  lemma NetworkIsRem(x: nat, bitnum: nat, k: int)
    requires (bitnum == 163 || (bitnum >= 11 && k == 6)) && Len(x) <= 2 * bitnum - 1
    ensures (if bitnum == 163 then Pentanomial(x) else Trinomial(x, bitnum)) == Rem(x, ModulusFor(bitnum))
  {
    hide Pentanomial, Trinomial, Rem, Monic, Len;
    if bitnum == 163 { PentanomialCorrect(x); } else { TrinomialCorrect(x, bitnum); }
  }

  lemma LenProduct(a: nat, b: nat, m: nat)
    requires Len(a) <= m && Len(b) <= m && m > 0
    ensures Len(CMul(a, b)) <= 2 * m - 1
  {
    CMulZeroRight(a);
    if a > 0 && b > 0 { LenCMul(a, b); }
  }

  // ---------- Squaring ----------

  lemma Interleaved(x: nat, bitnum: nat, s: seq<bool>)
    requires Len(x) <= bitnum && bitnum > 0 && |s| == 2 * bitnum - 1
    requires forall i :: 0 <= i < |s| ==> s[i] == (i % 2 == 0 && Bit(x, bitnum - 1 - i / 2))
    ensures IntOf(s) == CMul(x, x)
  {
    hide Bit, CMul, FromBits, Len;
    LenProduct(x, x, bitnum);
    var r := Reverse(s);
    forall i | 0 <= i < |r| ensures r[i] == Bit(CMul(x, x), i) {
      SquareInterleaves(x, i);
      var j := |s| - 1 - i;
      assert j % 2 == i % 2;
      if i % 2 == 0 { assert j / 2 == bitnum - 1 - i / 2; }
    }
    HoldsValue(r, CMul(x, x));
  }

  /** Squaring by interleaving zeros is multiplication of x by itself. */
  method Square(x1: nat, bitnum: nat, k: int) returns (r: Result<nat>)
    requires bitnum > 6 && Len(x1) <= bitnum
    ensures r.Raised? <==> bitnum != 163 && k != 6
    ensures r.Ok? ==> Len(r.value) <= bitnum
    ensures bitnum == 163 || (bitnum >= 11 && k == 6) ==> r == Ok(MulMod(x1, x1, ModulusFor(bitnum)))
    ensures bitnum != 163 && k == 6 ==> r == Ok(Trinomial(CMul(x1, x1), bitnum))
  {
    hide Bit, FromBits, Len, Format, Pentanomial, Trinomial, CMul, Rem, ModulusFor;
    var temp := Format(x1);
    PaddedDigits(x1, bitnum);
    temp := PadLeft(temp, bitnum);
    var tempAns: seq<bool> := [];
    for i := 0 to bitnum
      invariant |tempAns| == if i < bitnum then 2 * i else 2 * bitnum - 1
      invariant forall j :: 0 <= j < |tempAns| ==> tempAns[j] == (j % 2 == 0 && Bit(x1, bitnum - 1 - j / 2))
    {
      tempAns := tempAns + [temp[i]];
      if i != bitnum - 1 {
        tempAns := tempAns + [false];
      }
    }
    Interleaved(x1, bitnum, tempAns);
    var ans := IntOf(tempAns);
    LenProduct(x1, x1, bitnum);
    r := PolyModHardware(ans, bitnum, k);
    if bitnum == 163 || (bitnum >= 11 && k == 6) { NetworkIsRem(ans, bitnum, k); }
  }

  // ---------- Products ----------

  lemma AppendDigit(s: seq<bool>, b: bool)
    ensures FromBits(s + [b]) == Xor(FromBits(s), Gate(b, Shl(1, |s|)))
  {
    hide FromBits, Xor, Shl, Bit, Len;
    var t := s + [b];
    var g := Gate(b, Shl(1, |s|));
    forall i: nat ensures Bit(FromBits(t), i) == Bit(Xor(FromBits(s), g), i) {
      BitFromBits(t, i); BitFromBits(s, i);
      BitXor(FromBits(s), g, i);
      BitPower(|s|, i);
      BitZero(i);
    }
    BitsDetermine(FromBits(t), Xor(FromBits(s), g));
  }

  lemma ShiftAdd(s: seq<bool>, b: bool, y: nat)
    ensures CMul(FromBits(s + [b]), y) == Xor(CMul(FromBits(s), y), Gate(b, Shl(y, |s|)))
  {
    hide FromBits, Xor, Shl, CMul;
    AppendDigit(s, b);
    CMulDistribLeft(FromBits(s), Gate(b, Shl(1, |s|)), y);
    CMulShl(1, y, |s|);
    CMulOne(y);
    CMulOfZero(y);
  }

  /** The loop all products share: add the shifted multiplicand where the multiplier has a digit. */
  method ShiftAddProduct(bits: seq<bool>, y: nat, n: nat) returns (ans: nat)
    requires |bits| == n
    ensures ans == CMul(FromBits(bits), y)
  {
    hide FromBits, Xor, CMul;
    ans := 0;
    var cur := y;
    CMulOfZero(y);
    assert FromBits([]) == 0 by { EmptyValue(); }
    for i := 0 to n
      invariant ans == CMul(FromBits(bits[..i]), y)
      invariant cur == Shl(y, i)
    {
      ShiftAdd(bits[..i], bits[i], y);
      assert bits[..i + 1] == bits[..i] + [bits[i]];
      if bits[i] {
        ans := Xor(ans, cur);
      } else {
        assert Xor(ans, 0) == ans by { XorZero(ans); }
      }
      cur := 2 * cur;
    }
    assert bits[..n] == bits;
  }

  lemma EmptyValue()
    ensures FromBits([]) == 0
  {
  }

  /** An upper and a lower part of the digits are the split at x^k. */
  lemma SplitDigits(x: nat, n: nat, k: nat)
    requires Len(x) <= n && k <= n
    ensures var t := Reverse(Digits(x, n));
            IntOf(t[..n - k]) == High(x, k) && IntOf(t[n - k..]) == Low(x, k)
  {
    var t := Reverse(Digits(x, n));
    var h, l := Reverse(t[..n - k]), Reverse(t[n - k..]);
    LenHigh(x, k);
    LenLow(x, k);
    hide Bit, Len, High, Low, FromBits;
    forall i | 0 <= i < n - k ensures h[i] == Bit(High(x, k), i) { BitHigh(x, k, i); }
    forall i | 0 <= i < k ensures l[i] == Bit(Low(x, k), i) { BitLow(x, k, i); }
    HoldsValue(h, High(x, k));
    HoldsValue(l, Low(x, k));
  }

  lemma PaddedValue(s: seq<bool>, n: nat)
    ensures FromBits(s + seq(n, i => false)) == FromBits(s)
  {
    var t := s + seq(n, i => false);
    hide FromBits, Bit;
    forall i: nat ensures Bit(FromBits(t), i) == Bit(FromBits(s), i) { BitFromBits(t, i); BitFromBits(s, i); }
    BitsDetermine(FromBits(t), FromBits(s));
  }

  /** A partial product: the digits of a, reversed and padded, times y. */
  method PartialProduct(a: seq<bool>, y: nat, bitnum: nat) returns (p: nat)
    requires |a| <= 2 * bitnum
    ensures p == CMul(IntOf(a), y)
  {
    hide FromBits, CMul;
    var bits := PadRight(Reverse(a), 2 * bitnum);
    PaddedValue(Reverse(a), if |a| < 2 * bitnum then 2 * bitnum - |a| else 0);
    p := ShiftAddProduct(bits, y, 2 * bitnum);
  }

  /** Three partial products on the 82 upper and 81 lower digits, recombined without reduction. */
  method Karatsuba(x1: nat, x2: nat, bitnum: nat) returns (ans: nat)
    requires bitnum == 163 && Len(x1) <= bitnum && Len(x2) <= bitnum
    ensures ans == CMul(x1, x2)
  {
    hide Bit, FromBits, Len, Format, CMul, High, Low, Xor, Shl, Recombine, IntOf, Reverse;
    var s1, s2 := Format(x1), Format(x2);
    PaddedDigits(x1, bitnum);
    PaddedDigits(x2, bitnum);
    s1 := PadLeft(s1, bitnum);
    s2 := PadLeft(s2, bitnum);
    var x1h, x1l, x2h, x2l := s1[0..82], s1[82..163], s2[0..82], s2[82..163];
    SplitDigits(x1, 163, 81);
    SplitDigits(x2, 163, 81);
    assert x1h == s1[..82] && x1l == s1[82..] && x2h == s2[..82] && x2l == s2[82..];
    ghost var l1, h1, l2, h2 := Low(x1, 81), High(x1, 81), Low(x2, 81), High(x2, 81);
    var mid1, mid2 := Xor(IntOf(x1l), IntOf(x1h)), Xor(IntOf(x2l), IntOf(x2h));
    MiddleLength(x1);
    FormatValue(mid1);
    var ll := PartialProduct(x1l, IntOf(x2l), bitnum);
    var hh := PartialProduct(x1h, IntOf(x2h), bitnum);
    var mm := PartialProduct(Format(mid1), mid2, bitnum);
    KaratsubaCorrect(l1, h1, l2, h2, 81);
    RecombineIs(ll, mm, hh, 81);
    SplitAt(x1, 81);
    SplitAt(x2, 81);
    mm := Xor(mm, ll);
    mm := Xor(mm, hh);
    ans := Xor(Shl(mm, 81), ll);
    ans := Xor(Shl(hh, 162), ans);
  }

  lemma RecombineIs(ll: nat, mid: nat, hh: nat, k: nat)
    ensures Recombine(ll, mid, hh, k) == Xor(Shl(hh, 2 * k), Xor(Shl(Xor(Xor(mid, ll), hh), k), ll))
  {
  }

  lemma FormatValue(x: nat)
    ensures IntOf(Format(x)) == x && |Format(x)| == if x == 0 then 1 else Len(x)
  {
    var n := if x == 0 then 1 else Len(x);
    ReverseTwice(Digits(x, n));
    DigitsValue(x, n);
  }

  lemma MiddleLength(x: nat)
    requires Len(x) <= 163
    ensures Len(Xor(Low(x, 81), High(x, 81))) <= 82
  {
    hide Len, Xor, Low, High;
    LenLow(x, 81);
    LenHigh(x, 81);
    LenXor(Low(x, 81), High(x, 81));
  }

  /** Multiplication: Karatsuba at width 163, one long loop otherwise, then reduction. */
  method MultipleHardware(x1: nat, x2: nat, bitnum: nat, k: int) returns (r: Result<nat>)
    requires bitnum > 6 && Len(x1) <= bitnum && Len(x2) <= bitnum
    ensures r.Raised? <==> bitnum != 163 && k != 6
    ensures r.Ok? ==> Len(r.value) <= bitnum
    ensures bitnum == 163 || (bitnum >= 11 && k == 6) ==> r == Ok(MulMod(x1, x2, ModulusFor(bitnum)))
    ensures bitnum != 163 && k == 6 ==> r == Ok(Trinomial(CMul(x1, x2), bitnum))
  {
    hide Bit, FromBits, Len, Pentanomial, Trinomial, CMul, Rem, ModulusFor, Format, IntOf;
    LenProduct(x1, x2, bitnum);
    if bitnum == 163 || (bitnum >= 11 && k == 6) { NetworkIsRem(CMul(x1, x2), bitnum, k); }
    if bitnum == 163 {
      var ans := Karatsuba(x1, x2, bitnum);
      r := PolyModHardware(ans, bitnum, k);
      return;
    }
    FormatValue(x1);
    var ans := PartialProduct(Format(x1), x2, bitnum);
    r := PolyModHardware(ans, bitnum, k);
  }

  // ---------- Inversion ----------

  lemma MulModShort(a: nat, b: nat, bitnum: nat)
    requires bitnum > 7
    ensures Len(MulMod(a, b, ModulusFor(bitnum))) <= bitnum
  {
    ModulusForDegree(bitnum);
  }

  /** n squarings in a row. */
  method SquareLoop(t: nat, n: nat, bitnum: nat, k: int) returns (r: Result<nat>)
    requires bitnum >= 11 && Len(t) <= bitnum
    ensures r.Raised? <==> n > 0 && bitnum != 163 && (bitnum < 11 || k != 6)
    ensures r.Ok? ==> Len(r.value) <= bitnum && r.value == SquareTimes(ModulusFor(bitnum), t, n)
  {
    hide Len, MulMod, ModulusFor;
    var temp := t;
    for j := 0 to n
      invariant Len(temp) <= bitnum && temp == SquareTimes(ModulusFor(bitnum), t, j)
      invariant j > 0 ==> bitnum == 163 || (bitnum >= 11 && k == 6)
    {
      MulModShort(temp, temp, bitnum);
      temp :- Square(temp, bitnum, k);
    }
    return Ok(temp);
  }

  /** c is an addition chain: v names the two summands of each entry, and u lists the entries the loop reads. */
  ghost predicate Chain(u: seq<nat>, v: seq<(nat, nat)>, c: seq<nat>) {
    && |c| == |v| == 10 && c[0] == 1
    && forall i :: 1 <= i < 10 ==> Link(u, v, c, i)
  }

  predicate Link(u: seq<nat>, v: seq<(nat, nat)>, c: seq<nat>, i: nat)
    requires |c| == |v| == 10 && i < 10
  {
    && v[i].0 < i && v[i].1 < i && v[i].1 < |u|
    && c[i] == c[v[i].0] + c[v[i].1] && u[v[i].1] == c[v[i].1] > 0
  }

  /** The lists u and v of the script, with (0, 0) for the unused first pair. */
  const U167: seq<nat> := [1, 2, 3, 5, 10, 20, 40, 80, 83, 166]
  const V167: seq<(nat, nat)> := [(0, 0), (0, 0), (1, 0), (2, 1), (3, 3), (4, 4), (5, 5), (6, 6), (7, 2), (8, 8)]
  const U163: seq<nat> := [1, 2, 4, 8, 16, 32, 64, 80, 81]
  const V163: seq<(nat, nat)> := [(0, 0), (0, 0), (1, 1), (2, 2), (3, 3), (4, 4), (5, 5), (6, 4), (7, 0), (8, 8)]

  /** Both lists describe addition chains, to 166 and to 162. */
  lemma ChainsAreValid()
    ensures Chain(U167, V167, U167) && U167[9] == 166
    ensures Chain(U163, V163, U163 + [162]) && (U163 + [162])[9] == 162
  {
    Chain167();
    Chain163();
  }

  lemma Chain167()
    ensures Chain(U167, V167, U167)
  {
  }

  lemma Chain163()
    ensures Chain(U163, V163, U163 + [162])
  {
  }

  /** The loop over the chain: betas[i] is a^(2^c[i] - 1). */
  method BetaLoop(a: nat, bitnum: nat, k: int, u: seq<nat>, v: seq<(nat, nat)>, ghost c: seq<nat>) returns (r: Result<nat>)
    requires bitnum >= 11 && Len(a) <= bitnum && Chain(u, v, c)
    ensures r.Raised? <==> bitnum != 163 && (bitnum < 11 || k != 6)
    ensures r.Ok? ==> Len(r.value) <= bitnum && r.value == Beta(ModulusFor(bitnum), a, c[9])
  {
    hide Len, MulMod, ModulusFor, SquareTimes, Beta;
    ghost var f := ModulusFor(bitnum);
    BetaOne(a, bitnum);
    var betas := [a];
    for i := 1 to 10
      invariant |betas| == i
      invariant forall j :: 0 <= j < i ==> Len(betas[j]) <= bitnum && betas[j] == Beta(f, a, c[j])
      invariant i > 1 ==> bitnum == 163 || (bitnum >= 11 && k == 6)
    {
      assert Link(u, v, c, i);
      var i1, i2 := v[i].0, v[i].1;
      var temp1 := betas[i1];
      var temp2 := betas[i2];
      temp1 :- SquareLoop(temp1, u[i2], bitnum, k);
      BetaStep(f, a, c[i1], c[i2]);
      MulModShort(temp1, temp2, bitnum);
      var betaI := MultipleHardware(temp1, temp2, bitnum, k);
      betas := betas + [betaI.value];
    }
    return Ok(betas[9]);
  }

  lemma BetaOne(a: nat, bitnum: nat)
    requires bitnum > 7 && Len(a) <= bitnum
    ensures Beta(ModulusFor(bitnum), a, 1) == a
  {
    var f := ModulusFor(bitnum);
    ModulusForDegree(bitnum);
    ElemIsShort(a, f);
    RingIsMonoid(f);
    PowOne(MonoidOf(f), a);
    assert Pow2(1) == 2 * Pow2(0);
  }

  /** Itoh-Tsujii inversion computes the power a^(2^m - 2), as the loop of ecc.cpp does. */
  method InverseItoh(x1: nat, bitnum: nat, k: int) returns (r: Result<nat>)
    requires bitnum > 6 && Len(x1) <= bitnum
    ensures bitnum == 163 ==> r == Ok(Inverse(x1, ModulusFor(163)))
    ensures bitnum == 167 && k == 6 ==> r == Ok(Inverse(x1, ModulusFor(167)))
    ensures r.Raised? <==> bitnum != 163 && (bitnum != 167 || k != 6)
    ensures r.Ok? ==> Len(r.value) <= bitnum && r.value == Inverse(x1, ModulusFor(bitnum))
  {
    hide Len, MulMod, ModulusFor, Beta, Inverse;
    ghost var f := ModulusFor(bitnum);
    ChainsAreValid();
    hide Chain;
    if bitnum == 167 {
      var beta9 :- BetaLoop(x1, bitnum, k, U167, V167, U167);
      BetaEnd(x1, bitnum);
      MulModShort(beta9, beta9, bitnum);
      r := Square(beta9, bitnum, k);
    } else if bitnum == 163 {
      var beta9 := BetaLoop(x1, bitnum, k, U163, V163, U163 + [162]);
      BetaEnd(x1, bitnum);
      MulModShort(beta9.value, beta9.value, bitnum);
      r := Square(beta9.value, bitnum, k);
    } else {
      r := Raised;
    }
  }

  lemma BetaEnd(a: nat, bitnum: nat)
    requires bitnum > 7
    ensures var f := ModulusFor(bitnum); MulMod(Beta(f, a, bitnum - 1), Beta(f, a, bitnum - 1), f) == Inverse(a, f)
  {
    ModulusForDegree(bitnum);
    BetaFinish(ModulusFor(bitnum), a);
  }
}
