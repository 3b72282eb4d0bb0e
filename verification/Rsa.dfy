/**
 src/systemc-2.3.3/examples/sysc/rsa/rsa.cpp.  bigint is a signed integer of 250 bits; an
 expression is computed without loss and wraps when it is stored.
 */
module Rsa {
  import opened Gf2Poly
  import opened Modular
  import opened StrongTest
  import opened Wrappers

  const NBITS: nat := 250

  /** The least number that does not fit: 2^249. */
  function Limit(): int {
    Pow2(NBITS - 1)
  }

  predicate Fits(x: int) {
    -Limit() <= x < Limit()
  }

  /** Assignment to a bigint. */
  function Store(x: int): int {
    (x + Limit()) % (2 * Limit()) - Limit()
  }

  lemma StoreExact(x: int)
    requires Fits(x)
    ensures Store(x) == x
  {
    hide Pow2;
    ModUnique(x + Limit(), 0, x + Limit(), 2 * Limit());
  }

  /** What does not fit wraps: the stored value fits and differs by a multiple of 2^250. */
  lemma StoreWraps(x: int)
    ensures 0 <= Store(x) + Pow2(249) < Pow2(250) && Congruent(Store(x), x, Pow2(250))
  {
    assert Pow2(250) == 2 * Pow2(249);
    hide Pow2;
    var m := 2 * Limit();
    var q := (x + Limit()) / m;
    assert x + Limit() == m * q + (x + Limit()) % m;
    assert x == Store(x) + m * q;
    AddMultiple(Store(x), q, m);
  }

  /** Division rounds towards zero. */
  function TruncDiv(a: int, b: int): int
    requires b != 0
  {
    if a >= 0 then a / b else -((-a) / b)
  }

  /** The remainder has the sign of the dividend. */
  function TruncMod(a: int, b: int): int
    requires b != 0
  {
    a - TruncDiv(a, b) * b
  }

  lemma TruncModCongruent(a: int, n: int)
    requires n > 0
    ensures -n < TruncMod(a, n) < n && Congruent(TruncMod(a, n), a, n)
    ensures a >= 0 ==> TruncMod(a, n) == a % n && TruncDiv(a, n) == a / n
    ensures a <= 0 ==> TruncMod(a, n) <= 0
  {
    var q := TruncDiv(a, n);
    if a >= 0 {
      assert a == n * (a / n) + a % n;
      assert q * n == n * q;
    } else {
      assert -a == n * ((-a) / n) + (-a) % n;
      assert q * n == -(n * ((-a) / n));
    }
    assert TruncMod(a, n) == a + n * (-q) by { assert n * (-q) == -(q * n); }
    AddMultiple(a, -q, n);
  }

  function RetPos(x: int, n: int): int {
    if x < 0 then x + n else x
  }

  lemma RetPosReduces(x: int, n: int)
    requires n > 0 && -n < x < n
    ensures RetPos(x, n) == x % n
  {
    if x < 0 { ModUnique(x, -1, x + n, n); } else { ModUnique(x, 0, x, n); }
  }

  // ---------- Euclid ----------

  function Gcd(a: nat, b: nat): nat
    decreases b
  {
    if b == 0 then a else Gcd(b, a % b)
  }

  function Max(a: int, b: int): int {
    if a > b then a else b
  }

  function Abs(a: int): nat {
    if a < 0 then -a else a
  }

  /** The coefficients Euclid's algorithm finds. */
  function Bezout(a: nat, b: nat): (int, int)
    decreases b
  {
    if b == 0 then (1, 0)
    else var r := Bezout(b, a % b); (r.1, r.0 - (a / b) * r.1)
  }

  /** d = ax + by. */
  predicate Combines(a: int, b: int, r: (int, int), d: int) {
    a * r.0 + b * r.1 == d
  }

  lemma {:induction false} BezoutIdentity(a: nat, b: nat)
    ensures Combines(a, b, Bezout(a, b), Gcd(a, b))
    decreases b
  {
    if b > 0 {
      BezoutIdentity(b, a % b);
      CombinesStep(a, b, Bezout(b, a % b), Gcd(b, a % b));
      hide Combines;
    }
  }

  lemma CombinesStep(a: nat, b: nat, r: (int, int), d: int)
    requires b > 0 && Combines(b, a % b, r, d)
    ensures Combines(a, b, (r.1, r.0 - (a / b) * r.1), d)
  {
    IdentityStep(a, b, a / b, a % b, r.0, r.1);
  }

  lemma IdentityStep(a: int, b: int, q: int, c: int, x: int, y: int)
    requires a == b * q + c
    ensures a * y + b * (x - q * y) == b * x + c * y
  {
    assert (b * q + c) * y == (b * q) * y + c * y;
    assert b * (q * y) == (b * q) * y;
    assert b * (x - q * y) == b * x - b * (q * y);
  }

  /** One step of the bound: y = x' - q y' for |x'| <= max(1, r), |y'| <= b and a = bq + r. */
  lemma BoundStep(a: nat, b: nat, q: nat, r: nat, x: int, y: int)
    requires b > 0 && a == b * q + r && Abs(y) <= b
    requires if r == 0 then x == 1 && y == 0 else Abs(x) <= r
    ensures Abs(x - q * y) <= Max(1, a)
  {
    ProductBound(q, y, b);
    if r == 0 { assert q * y == 0; }
  }

  lemma BezoutZero(b: nat)
    ensures Bezout(b, 0) == (1, 0)
  {
  }

  /** The coefficients never exceed the arguments. */
  lemma {:induction false} BezoutBound(a: nat, b: nat)
    ensures Abs(Bezout(a, b).0) <= Max(1, b) && Abs(Bezout(a, b).1) <= Max(1, a)
    decreases b
  {
    if b > 0 {
      var q, r := a / b, a % b;
      BezoutBound(b, r);
      BezoutZero(b);
      var t := Bezout(b, r);
      assert Bezout(a, b) == (t.1, t.0 - q * t.1);
      hide Bezout;
      BoundStep(a, b, q, r, t.0, t.1);
    }
  }

  lemma ProductBound(q: nat, y: int, b: nat)
    requires Abs(y) <= b
    ensures Abs(q * y) <= b * q
  {
    if y >= 0 { assert q * y <= q * b; } else { assert q * (-y) <= q * b; assert q * y == -(q * (-y)); }
    assert q * b == b * q;
  }

  lemma {:induction false} GcdDivides(a: nat, b: nat)
    requires a + b > 0
    ensures Gcd(a, b) > 0 && Divides(Gcd(a, b), a) && Divides(Gcd(a, b), b)
    decreases b
  {
    if b == 0 {
      ModUnique(a, 1, 0, a);
      ModUnique(0, 0, 0, a);
    } else {
      GcdDivides(b, a % b);
      var g, q := Gcd(a, b), a / b;
      assert a == b * q + a % b;
      MultipleOfMultiple(g, b, q);
      assert q * b == b * q;
      SumDivides(g, b * q, a % b);
    }
  }

  lemma SumDivides(p: int, x: int, y: int)
    requires p > 0 && Divides(p, x) && Divides(p, y)
    ensures Divides(p, x + y)
  {
    assert x + y == p * (x / p + y / p);
    MultipleOf(p, x / p + y / p);
  }

  /** gcd is the greatest common divisor. */
  lemma GcdIsGreatest(a: nat, b: nat, d: int)
    requires a + b > 0 && d > 0 && Divides(d, a) && Divides(d, b)
    ensures Divides(d, Gcd(a, b)) && d <= Gcd(a, b)
  {
    hide Gcd, Bezout, Divides;
    var x, y := Bezout(a, b).0, Bezout(a, b).1;
    BezoutIdentity(a, b);
    GcdDivides(a, b);
    MultipleOfMultiple(d, a, x);
    MultipleOfMultiple(d, b, y);
    assert x * a == a * x && y * b == b * y;
    SumDivides(d, a * x, b * y);
    DivisorBound(d, Gcd(a, b));
  }

  lemma DivisorBound(d: int, g: int)
    requires d > 0 && g > 0 && Divides(d, g)
    ensures d <= g
  {
    MulAtLeast(d, g / d);
  }

  lemma {:induction false} GcdBound(a: nat, b: nat)
    ensures Gcd(a, b) <= Max(a, b)
    decreases b
  {
    if b > 0 { GcdBound(b, a % b); }
  }

  /** Extended Euclid; nothing stored ever wraps. */
  method Euclid(a: nat, b: nat) returns (d: int, x: int, y: int)
    requires Fits(a) && Fits(b)
    ensures d == Gcd(a, b) && a * x + b * y == d
    ensures Abs(x) <= Max(1, b) && Abs(y) <= Max(1, a)
    ensures (x, y) == Bezout(a, b)
    decreases b
  {
    BezoutIdentity(a, b);
    BezoutBound(a, b);
    LimitIsLarge();
    hide Limit;
    if b != 0 {
      TruncModCongruent(a, b);
      d, x, y := Euclid(b, a % b);
      var tmp := Store(x);
      StoreExact(x);
      x := Store(y);
      StoreExact(y);
      StoreExact(tmp - TruncDiv(a, b) * y);
      y := Store(tmp - TruncDiv(a, b) * y);
    } else {
      StoreExact(a);
      d, x, y := Store(a), Store(1), Store(0);
      StoreExact(1);
      StoreExact(0);
    }
  }

  lemma LimitIsLarge()
    ensures Limit() >= 4
  {
    assert Pow2(NBITS - 1) == 2 * Pow2(NBITS - 2) && Pow2(NBITS - 2) == 2 * Pow2(NBITS - 3);
  }

  /** The multiplicative inverse modulo n; the assertion fails exactly when a and n are not coprime. */
  method Inverse(a: nat, n: nat) returns (r: Option<int>)
    requires Fits(a) && Fits(n) && n > 0
    ensures r.Some? <==> Gcd(a, n) == 1
    ensures r.Some? ==> 0 <= r.value < n && Congruent(a * r.value, 1, n)
  {
    var d, x, y := Euclid(a, n);
    if d != 1 {
      return None;
    }
    TruncModCongruent(x, n);
    StoreExact(TruncMod(x, n));
    x := Store(TruncMod(x, n));
    ghost var x0 := Bezout(a, n).0;
    RetPosReduces(x, n);
    r := Some(RetPos(x, n));
    InverseCongruence(a, n, r.value, x0, y);
  }

  lemma InverseCongruence(a: nat, n: nat, r: int, x: int, y: int)
    requires n > 0 && a * x + n * y == 1 && r == x % n
    ensures Congruent(a * r, 1, n)
  {
    ModCongruent(x, n);
    Reflexive(a, n);
    MulCongruent(a, a, x % n, x, n);
    assert a * x == 1 + n * (-y) by { assert n * (-y) == -(n * y); }
    AddMultiple(1, -y, n);
  }

  // ---------- Modular exponentiation ----------

  /** Bits 249 and up of a number that fits are clear. */
  lemma FitsIsShort(b: nat)
    requires Fits(b)
    ensures High(b, NBITS) == 0
  {
    LenPow2(b, NBITS - 1);
    LenHigh(b, NBITS);
    LenZero(High(b, NBITS));
  }

  /** d stands for a^h, the prefix of the exponent read so far being h. */
  predicate Tracks(d: int, a: int, h: nat, n: int)
    requires n > 0
  {
    Congruent(d, IntPow(a, h), n) && -n < d && (d < n || d == 1)
  }

  lemma SquareTracks(d: int, a: int, h: nat, n: int)
    requires n > 0 && Tracks(d, a, h, n)
    ensures Tracks(TruncMod(d * d, n), a, 2 * h, n)
  {
    hide IntPow, TruncMod;
    MulCongruent(d, IntPow(a, h), d, IntPow(a, h), n);
    IntPowAdd(a, h, h);
    TruncModCongruent(d * d, n);
  }

  lemma MultiplyTracks(d: int, a: int, h: nat, n: int)
    requires n > 0 && Tracks(d, a, h, n)
    ensures Tracks(TruncMod(d * a, n), a, h + 1, n)
  {
    Reflexive(a, n);
    MulCongruent(d, IntPow(a, h), a, a, n);
    assert IntPow(a, h + 1) == a * IntPow(a, h) == IntPow(a, h) * a;
    TruncModCongruent(d * a, n);
  }

  lemma StoreTracks(d: int, n: int)
    requires n > 0 && Fits(n) && -n < d < n
    ensures Store(d) == d
  {
    StoreExact(d);
  }

  lemma PrefixStep(b: nat, i: nat)
    ensures High(b, i) == 2 * High(b, i + 1) + (if Bit(b, i) then 1 else 0)
  {
    LowHighNext(b, i);
    BitHigh(b, i, 0);
  }

  lemma TracksStart(a: int, n: int)
    requires n > 0
    ensures Tracks(1, a, 0, n)
  {
  }

  /** Square and multiply over all 250 bits: a^b modulo n, in [0, n). */
  method ModularExp(a: int, b: nat, n: int) returns (r: int)
    requires Fits(b) && Fits(n) && n > 0
    ensures r == IntPow(a, b) % n
  {
    hide IntPow, TruncMod, Store, High, Bit, Fits, Tracks;
    FitsIsShort(b);
    var d := 1;
    TracksStart(a, n);
    var i := NBITS;
    while i > 0
      invariant 0 <= i <= NBITS
      invariant Tracks(d, a, High(b, i), n) && (i < NBITS ==> -n < d < n)
    {
      i := i - 1;
      PrefixStep(b, i);
      SquareTracks(d, a, High(b, i + 1), n);
      TruncModCongruent(d * d, n);
      StoreTracks(TruncMod(d * d, n), n);
      d := Store(TruncMod(d * d, n));
      if Bit(b, i) {
        MultiplyTracks(d, a, 2 * High(b, i + 1), n);
        TruncModCongruent(d * a, n);
        StoreTracks(TruncMod(d * a, n), n);
        d := Store(TruncMod(d * a, n));
      }
    }
    assert High(b, 0) == b by { HighZero(b); }
    RetPosReduces(d, n);
    TracksEnd(d, a, b, n);
    r := RetPos(d, n);
  }

  lemma HighZero(b: nat)
    ensures High(b, 0) == b
  {
  }

  lemma TracksEnd(d: int, a: int, h: nat, n: int)
    requires n > 0 && Tracks(d, a, h, n)
    ensures d % n == IntPow(a, h) % n
  {
  }

  // ---------- The cipher ----------

  method Cipher(msg: int, e: nat, n: int) returns (r: int)
    requires Fits(e) && Fits(n) && n > 0
    ensures r == IntPow(msg, e) % n
  {
    r := ModularExp(msg, e, n);
  }

  method Decipher(msg: int, d: nat, n: int) returns (r: int)
    requires Fits(d) && Fits(n) && n > 0
    ensures r == IntPow(msg, d) % n
  {
    r := ModularExp(msg, d, n);
  }

  /** m^(1 + k(p - 1)) = m modulo a prime p. */
  lemma FermatExponent(p: int, m: int, k: nat)
    requires Prime(p)
    ensures Congruent(IntPow(m, 1 + (p - 1) * k), m, p)
  {
    hide IntPow;
    var x := IntPow(m, (p - 1) * k);
    assert IntPow(m, 1 + (p - 1) * k) == m * x by { IntPowSucc(m, (p - 1) * k); }
    if Divides(p, m) {
      MultipleOfMultiple(p, m, x);
      DividesIff(p, x * m);
      DividesIff(p, m);
      assert x * m == m * x;
    } else {
      LittleFermat(p, m);
      IntPowMul(m, p - 1, k);
      ModUnique(1, 0, 1, p);
      PowCongruent(IntPow(m, p - 1), 1, k, p);
      IntPowOne(k);
      Reflexive(m, p);
      MulCongruent(m, m, x, 1, p);
    }
  }

  lemma IntPowSucc(a: int, k: nat)
    ensures IntPow(a, 1 + k) == a * IntPow(a, k)
  {
  }

  /** m^(ed) = m modulo pq whenever ed is 1 modulo (p - 1)(q - 1). */
  lemma RsaCorrect(p: int, q: int, e: nat, d: nat, msg: int)
    requires Prime(p) && Prime(q) && p != q && 0 <= msg < p * q
    requires (e * d) % ((p - 1) * (q - 1)) == 1
    ensures IntPow(IntPow(msg, e) % (p * q), d) % (p * q) == msg
  {
    hide IntPow, Prime;
    var n, m := p * q, (p - 1) * (q - 1);
    TotientExponent(p, q, e * d, msg);
    var x := IntPow(msg, e * d);
    ModCongruent(IntPow(msg, e), n);
    PowCongruent(IntPow(msg, e) % n, IntPow(msg, e), d, n);
    IntPowMul(msg, e, d);
    ModUnique(msg, 0, msg, n);
  }

  /** m^t = m modulo pq when t is 1 modulo (p - 1)(q - 1). */
  lemma TotientExponent(p: int, q: int, t: nat, msg: int)
    requires Prime(p) && Prime(q) && p != q && t % ((p - 1) * (q - 1)) == 1
    ensures p * q > 0 && Congruent(IntPow(msg, t), msg, p * q)
  {
    var m := (p - 1) * (q - 1);
    assert m > 0 by { ProductPositive(p - 1, q - 1); }
    var k := t / m;
    assert t == m * k + 1;
    QuotientNonNegative(t, m);
    hide IntPow, Prime, Congruent;
    ExponentForm(p, q, t, k, msg);
  }

  lemma ProductPositive(a: nat, b: nat)
    requires a > 0 && b > 0
    ensures a * b > 0
  {
  }

  lemma ExponentForm(p: int, q: int, t: nat, k: nat, msg: int)
    requires Prime(p) && Prime(q) && p != q && t == (p - 1) * (q - 1) * k + 1
    ensures p * q > 0 && Congruent(IntPow(msg, t), msg, p * q)
  {
    ExponentNonNegative(p - 1, k);
    ExponentNonNegative(q - 1, k);
    Regroup(p - 1, q - 1, k);
    hide IntPow, Prime, Congruent;
    FermatExponent(p, msg, (q - 1) * k);
    FermatExponent(q, msg, (p - 1) * k);
    BothDivide(p, q, IntPow(msg, t), msg);
  }

  lemma Regroup(a: int, b: int, k: int)
    ensures a * (b * k) == (a * b) * k && b * (a * k) == (a * b) * k
  {
    assert a * (b * k) == (a * b) * k;
    assert b * (a * k) == (b * a) * k;
    assert b * a == a * b;
  }

  lemma QuotientNonNegative(x: nat, m: int)
    requires m > 0
    ensures x / m >= 0
  {
  }

  lemma ExponentNonNegative(a: nat, k: nat)
    ensures a * k >= 0
  {
  }

  lemma BothDivide(p: int, q: int, x: int, y: int)
    requires Prime(p) && Prime(q) && p != q && Congruent(x, y, p) && Congruent(x, y, q)
    ensures p * q > 0 && Congruent(x, y, p * q)
  {
    var j := Difference(x, y, p);
    var k := Difference(x, y, q);
    MultipleOf(p, j);
    MultipleOf(q, k);
    DistinctPrimes(p, q, x - y);
    var t := (x - y) / (p * q);
    assert x - y == (p * q) * t;
    AddMultiple(y, t, p * q);
  }

  /** Neighbours are coprime. */
  lemma GcdPredecessor(n: nat)
    requires n >= 2
    ensures Gcd(n - 1, n) == 1
  {
    hide Gcd, Divides;
    GcdDivides(n - 1, n);
    var g := Gcd(n - 1, n);
    DifferenceDivides(g, n, n - 1);
    DivisorBound(g, 1);
  }

  lemma GcdThreeTwo()
    ensures Gcd(3, 2) == 1
  {
    assert Gcd(2, 1) == Gcd(1, 0);
  }

  /** The least odd number from 3 on that is coprime to n, unless the assertion stops the search; it does not for even n. */
  method FindRelPrime(n: nat) returns (r: Option<nat>)
    ensures r.Some? ==> r.value >= 3 && r.value % 2 == 1 && Gcd(r.value, n) == 1
    ensures r.Some? ==> forall c: nat {:trigger Gcd(c, n)} :: 3 <= c < r.value && c % 2 == 1 ==> Gcd(c, n) != 1
    ensures r.Some? && r.value > 3 ==> r.value < n
    ensures n > 0 && n % 2 == 0 ==> r.Some?
    ensures r.None? ==> forall c: nat {:trigger Gcd(c, n)} :: c == 3 || (3 <= c < n && c % 2 == 1) ==> Gcd(c, n) != 1
  {
    hide Gcd;
    GcdThreeTwo();
    if n >= 2 { GcdPredecessor(n); }
    var a := 3;
    while Gcd(a, n) != 1
      invariant a >= 3 && a % 2 == 1 && (a > 3 ==> a < n)
      invariant forall c: nat {:trigger Gcd(c, n)} :: 3 <= c < a && c % 2 == 1 ==> Gcd(c, n) != 1
      decreases if a < n then n - a else 0
    {
      a := a + 2;
      if a >= n {
        return None;
      }
    }
    r := Some(a);
  }

  /** Key generation, ciphering and deciphering of rsa(), for two given distinct primes. */
  method RoundTrip(p: nat, q: nat, msg: nat) returns (r: Option<int>)
    requires Prime(p) && Prime(q) && p != q && Fits(p * q) && msg < p * q
    ensures r == Some(msg)
  {
    hide IntPow, Prime, Fits, Gcd;
    var n, m := p * q, (p - 1) * (q - 1);
    TotientBound(p, q);
    TotientEven(p, q);
    var e := FindRelPrime(m);
    if e.None? { return None; }
    FitsBelow(m, n);
    FitsThree(e.value, m);
    var d := Inverse(e.value, m);
    if d.None? { return None; }
    FitsBelow(d.value, n);
    var c := Cipher(msg, e.value, n);
    var back := Decipher(c, d.value, n);
    ModUnique(1, 0, 1, m);
    RsaCorrect(p, q, e.value, d.value, msg);
    r := Some(back);
  }

  lemma OddPrime(p: int)
    requires Prime(p) && p != 2
    ensures p % 2 == 1
  {
    assert !Divides(2, p);
  }

  lemma TotientEven(p: int, q: int)
    requires Prime(p) && Prime(q) && p != q
    ensures ((p - 1) * (q - 1)) % 2 == 0
  {
    hide Prime;
    if p != 2 {
      OddPrime(p);
      EvenProduct((p - 1) / 2, q - 1);
    } else {
      OddPrime(q);
    }
  }

  lemma EvenProduct(h: int, k: int)
    ensures ((2 * h) * k) % 2 == 0
  {
    MulAssociates(2, h, k);
    MultipleOf(2, h * k);
  }

  lemma FitsBelow(x: nat, n: nat)
    requires x <= n && Fits(n)
    ensures Fits(x)
  {
  }

  lemma FitsThree(x: nat, m: nat)
    requires Fits(m) && (x > 3 ==> x < m)
    ensures Fits(x)
  {
    LimitIsLarge();
  }

  lemma TotientBound(p: nat, q: nat)
    requires Prime(p) && Prime(q) && p != q
    ensures 1 < (p - 1) * (q - 1) < p * q
  {
    assert (p - 1) * (q - 1) == p * q - p - q + 1;
    if p == 2 {
      assert (p - 1) * (q - 1) == q - 1;
    } else {
      ProductAtLeast(p - 1, q - 1);
    }
  }

  lemma ProductAtLeast(a: nat, b: nat)
    requires a >= 2 && b >= 1
    ensures a * b >= 2
  {
  }

  // ---------- Primality ----------

  /** The power of a for the bits of n - 1 above position i is a square root of 1 other than 1 and n - 1. */
  predicate RootFound(a: nat, n: nat, i: nat)
    requires n >= 2
  {
    var x := IntPow(a, High(n - 1, i + 1)) % n;
    (x * x) % n == 1 && x != 1 && x != n - 1
  }

  /** a proves n composite, by such a root or by Fermat's theorem. */
  ghost predicate IsWitness(a: nat, n: nat)
    requires n >= 2
  {
    IntPow(a, n - 1) % n != 1 || exists i: nat :: i < NBITS && RootFound(a, n, i)
  }

  /** A prime has no witnesses. */
  lemma PrimeHasNoWitness(a: nat, n: nat)
    requires Prime(n) && 1 <= a < n
    ensures !IsWitness(a, n)
  {
    hide IntPow, High, Prime;
    ModUnique(a, 0, a, n);
    LittleFermat(n, a);
    forall i: nat | i < NBITS ensures !RootFound(a, n, i) {
      var x := IntPow(a, High(n - 1, i + 1)) % n;
      if (x * x) % n == 1 { SquareRootsOfOne(n, x); }
    }
  }

  /** No root is found to a base to which n is a strong probable prime, wherever the loop looks. */
  lemma StrongHasNoWitness(a: nat, n: nat, s: nat, t: nat)
    requires n > 2 && n - 1 == Pow2(s) * t && t % 2 == 1 && StrongProbablePrime(a, n, s, t)
    ensures !IsWitness(a, n)
  {
    hide IntPow, High, StrongProbablePrime;
    PassesFermat(a, n, s, t);
    forall i: nat | i < NBITS ensures !RootFound(a, n, i) {
      var h := High(n - 1, i + 1);
      var y := IntPow(a, h);
      if (y % n * (y % n)) % n == 1 {
        RootIsPower(a, n, h);
        OnlyTrivialRoots(a, n, s, t, h);
        TrivialValue(y, n);
      }
    }
  }

  lemma TrivialValue(y: int, n: int)
    requires n > 1 && Trivial(y, n)
    ensures y % n == 1 || y % n == n - 1
  {
    ModUnique(1, 0, 1, n);
    ModUnique(-1, -1, n - 1, n);
  }

  lemma RootIsPower(a: nat, n: nat, h: nat)
    requires n > 1 && (IntPow(a, h) % n * (IntPow(a, h) % n)) % n == 1
    ensures Congruent(IntPow(a, 2 * h), 1, n)
  {
    hide IntPow;
    var y := IntPow(a, h);
    SquareOfPower(a, h);
    ModCongruent(y, n);
    MulCongruent(y % n, y, y % n, y, n);
    ModUnique(1, 0, 1, n);
  }

  /** Conversely, without a witness every root the strong test looks at is trivial. */
  lemma NoWitnessIsStrong(a: nat, n: nat, s: nat, t: nat)
    requires Fits(n) && n > 2 && n - 1 == Pow2(s) * t && t % 2 == 1 && !IsWitness(a, n)
    ensures StrongProbablePrime(a, n, s, t)
  {
    hide IntPow, High, Fits, StrongProbablePrime;
    FewTwos(n, s, t);
    forall r: nat | r < s && (Root(a, n, t, r) * Root(a, n, t, r)) % n == 1
      ensures Root(a, n, t, r) == 1 || Root(a, n, t, r) == n - 1
    {
      PrefixOfShifted(s, t, r);
      assert !RootFound(a, n, s - r - 1);
    }
    Descend(a, n, s, t, s);
  }

  lemma FewTwos(n: nat, s: nat, t: nat)
    requires Fits(n) && n > 0 && n - 1 == Pow2(s) * t && t > 0
    ensures s < NBITS
  {
    MulAtLeast(Pow2(s), t);
    LenPow2(n - 1, NBITS - 1);
    LenPow2(Pow2(s), s);
    LenMonotone(Pow2(s), n - 1);
  }

  /** The witnesses are exactly the bases to which n fails the strong test. */
  lemma WitnessExact(a: nat, n: nat, s: nat, t: nat)
    requires Fits(n) && n > 2 && n - 1 == Pow2(s) * t && t % 2 == 1
    ensures IsWitness(a, n) <==> !StrongProbablePrime(a, n, s, t)
  {
    hide IsWitness, StrongProbablePrime, Fits;
    if IsWitness(a, n) {
      if StrongProbablePrime(a, n, s, t) { StrongHasNoWitness(a, n, s, t); }
    } else {
      NoWitnessIsStrong(a, n, s, t);
    }
  }

  lemma WitnessIsStrongTest(a: nat, n: nat)
    requires Fits(n) && n >= 2
    ensures n > 2 ==> (IsWitness(a, n) <==> !StrongProbablePrime(a, n, Twos(n - 1), OddPart(n - 1)))
  {
    hide IsWitness, StrongProbablePrime, Fits;
    if n > 2 {
      TwosAndOdd(n - 1);
      WitnessExact(a, n, Twos(n - 1), OddPart(n - 1));
    }
  }

  /** A base with a common divisor is a witness. */
  lemma CommonDivisorIsWitness(a: nat, n: nat, d: int)
    requires n > 1 && d > 1 && Divides(d, a) && Divides(d, n)
    ensures IsWitness(a, n)
  {
    hide Divides;
    var m := IntPow(a, n - 1);
    assert m == a * IntPow(a, n - 2);
    MultipleOfMultiple(d, a, IntPow(a, n - 2));
    assert m == IntPow(a, n - 2) * a;
    hide IntPow;
    if m % n == 1 {
      assert m - n * (m / n) == 1;
      MultipleOfMultiple(d, n, m / n);
      assert (m / n) * n == n * (m / n);
      DifferenceDivides(d, m, n * (m / n));
      DivisorBound(d, 1);
    }
  }

  lemma CoprimeOrWitness(a: nat, n: nat)
    requires n > 1 && Gcd(a, n) != 1
    ensures IsWitness(a, n)
  {
    hide Gcd, Divides, IsWitness;
    GcdDivides(a, n);
    CommonDivisorIsWitness(a, n, Gcd(a, n));
  }

  /** The loop answers exactly whether n fails the strong test to base a. */
  method Witness(a: nat, n: nat) returns (w: bool)
    requires Fits(n) && n >= 2 && 1 <= a < n
    ensures w <==> IsWitness(a, n)
    ensures n > 2 ==> (w <==> !StrongProbablePrime(a, n, Twos(n - 1), OddPart(n - 1)))
  {
    hide StrongProbablePrime, Twos, OddPart, IntPow, TruncMod, Store, High, Bit, Fits, Tracks, RootFound;
    WitnessIsStrongTest(a, n);
    var nMinus1 := n - 1;
    FitsBelow(n - 1, n);
    FitsIsShort(n - 1);
    var x := 0;
    var d := 1;
    TracksStart(a, n);
    var i := NBITS;
    while i > 0
      invariant 0 <= i <= NBITS && 0 <= d < n
      invariant Tracks(d, a, High(n - 1, i), n)
      invariant forall k: nat :: i <= k < NBITS ==> !RootFound(a, n, k)
    {
      i := i - 1;
      x := Abs(d);
      RootFoundIs(d, a, n, i);
      PrefixStep(n - 1, i);
      SquareTracks(d, a, High(n - 1, i + 1), n);
      SquareInRange(d, n);
      d := Store(TruncMod(d * d, n));
      if Abs(d) == 1 && x != 1 && x != nMinus1 {
        assert RootFound(a, n, i);
        return true;
      }
      if Bit(nMinus1, i) {
        MultiplyTracks(d, a, 2 * High(n - 1, i + 1), n);
        ProductInRange(d, a, n);
        d := Store(TruncMod(d * a, n));
      }
    }
    HighZero(n - 1);
    TracksEnd(d, a, n - 1, n);
    ModUnique(d, 0, d, n);
    if Abs(d) != 1 {
      return true;
    }
    return false;
  }

  lemma RootFoundIs(d: nat, a: nat, n: nat, i: nat)
    requires n >= 2 && d < n && Tracks(d, a, High(n - 1, i + 1), n)
    ensures RootFound(a, n, i) <==> (d * d) % n == 1 && d != 1 && d != n - 1
  {
    hide IntPow, High, Tracks;
    TracksEnd(d, a, High(n - 1, i + 1), n);
    ModUnique(d, 0, d, n);
  }

  lemma SquareInRange(d: int, n: nat)
    requires Fits(n) && 0 <= d < n
    ensures Store(TruncMod(d * d, n)) == TruncMod(d * d, n) == (d * d) % n
  {
    TruncModCongruent(d * d, n);
    assert d * d >= 0;
    StoreTracks(TruncMod(d * d, n), n);
  }

  lemma ProductInRange(d: nat, a: nat, n: nat)
    requires Fits(n) && n > 0
    ensures Store(TruncMod(d * a, n)) == TruncMod(d * a, n) == (d * a) % n
  {
    assert d * a >= 0;
    TruncModCongruent(d * a, n);
    StoreTracks(TruncMod(d * a, n), n);
  }

  /** The last trial divisor. */
  function TrialLimit(n: int): int {
    if n < 1023 then n - 2 else 1023
  }

  lemma TruncModDivides(n: nat, i: int)
    requires i > 0
    ensures TruncMod(n, i) == 0 <==> Divides(i, n)
  {
    TruncModCongruent(n, i);
  }

  /** No odd number from 3 to the limit divides n. */
  ghost predicate PassesTrial(n: int) {
    forall i: int {:trigger Divides(i, n)} :: 3 <= i <= TrialLimit(n) && i % 2 == 1 ==> !Divides(i, n)
  }

  /** Trial division by the odd numbers from 3 to the limit. */
  method DivTest(n: int) returns (r: bool)
    requires n > 2
    ensures r <==> PassesTrial(n)
  {
    hide TruncMod, Divides;
    var limit := if n < 1023 then n - 2 else 1023;
    var i := 3;
    while i <= limit
      invariant i >= 3 && i % 2 == 1
      invariant forall j: int {:trigger Divides(j, n)} :: 3 <= j < i && j % 2 == 1 ==> !Divides(j, n)
    {
      TruncModDivides(n, i);
      if TruncMod(n, i) == 0 {
        return false;
      }
      i := i + 2;
    }
    return true;
  }

  lemma PrimePassesTrial(n: int)
    requires Prime(n) && n > 2
    ensures PassesTrial(n)
  {
    ModUnique(1023, 341, 0, 3);
    assert Divides(3, 1023);
    assert n != 1023;
  }

  /** A divisor the loop reaches is found: up to n - 2 for small n, up to 1023 for the others. */
  lemma TrialFinds(n: int, d: int)
    requires n > 2 && 3 <= d && d % 2 == 1 && Divides(d, n)
    requires d <= if n < 1023 then n - 2 else 1023
    ensures !PassesTrial(n)
  {
  }

  /** Odd numbers below 1025^2 pass trial division exactly when they are prime. */
  lemma TrialIsComplete(n: int)
    requires 2 < n < 1025 * 1025 && n % 2 == 1
    ensures PassesTrial(n) <==> Prime(n)
  {
    hide PassesTrial;
    if Prime(n) { PrimePassesTrial(n); }
    if PassesTrial(n) {
      forall d: int | 1 < d < n ensures !Divides(d, n) {
        if Divides(d, n) { SmallDivisorFound(n, d); }
      }
    }
  }

  /** Of a divisor and its cofactor one is within the limit. */
  lemma SmallDivisorFound(n: int, d: int)
    requires 2 < n < 1025 * 1025 && n % 2 == 1 && 1 < d < n && Divides(d, n)
    ensures !PassesTrial(n)
  {
    hide PassesTrial, Divides;
    var k := n / d;
    Cofactor(n, d, k);
    OddDivisor(n, d);
    OddDivisor(n, k);
    if n < 1023 || d < 1025 {
      TrialFinds(n, d);
    } else {
      BothLarge(n, d, k);
      TrialFinds(n, k);
    }
  }

  lemma Cofactor(n: int, d: int, k: int)
    requires n > 2 && 1 < d < n && Divides(d, n) && k == n / d
    ensures n == d * k && 1 < k < n && Divides(k, n)
  {
    assert n == d * k;
    hide Divides;
    MulAtLeast(d, k);
    assert k > 0 && k != 1;
    assert k * d == d * k;
    MultipleOf(k, d);
    ProductMonotone(2, d, k, k);
  }

  lemma ProductMonotone(a: nat, b: nat, c: nat, d: nat)
    requires a <= b && c <= d
    ensures a * c <= b * d
  {
    assert a * c <= b * c;
    assert b * c <= b * d;
  }

  lemma BothLarge(n: int, d: int, k: int)
    requires n == d * k && 1025 <= d && n < 1025 * 1025 && k > 0
    ensures k < 1025
  {
    if k >= 1025 { ProductMonotone(1025, d, 1025, k); }
  }

  /** A proper divisor of an odd number is odd and not its predecessor. */
  lemma OddDivisor(n: int, d: int)
    requires n > 2 && n % 2 == 1 && 1 < d < n && Divides(d, n)
    ensures d % 2 == 1 && d <= n - 2
  {
    var k, h := n / d, d / 2;
    assert n == d * k;
    assert (2 * h) * k == 2 * (h * k);
    AlmostMultiple(n, k);
  }

  lemma AlmostMultiple(n: int, k: int)
    requires n > 2
    ensures n != (n - 1) * k
  {
    MulAtLeast(n - 1, k - 1);
    MulAtLeast(n - 1, k);
    assert (n - 1) * k == (n - 1) * (k - 1) + (n - 1);
  }

  /** Each draw is brought into [1, n - 1]. */
  function Base(draw: nat, n: nat): (a: nat)
    requires n > 2
    ensures 1 <= a < n
  {
    draw % (n - 1) + 1
  }

  /** n passes both stages of the test for these draws. */
  ghost predicate Accepted(n: nat, draws: seq<nat>) {
    n > 2 && PassesTrial(n) && forall j :: 0 <= j < |draws| ==> !IsWitness(Base(draws[j], n), n)
  }

  /** Spelled out: the range of the trial divisors, and the strong test to each base. */
  lemma AcceptedExact(n: nat, draws: seq<nat>)
    requires Fits(n)
    ensures Accepted(n, draws) <==>
            && n > 2
            && (forall i: int {:trigger Divides(i, n)} :: 3 <= i <= (if n < 1023 then n - 2 else 1023) && i % 2 == 1 ==> !Divides(i, n))
            && (forall j :: 0 <= j < |draws| ==> StrongProbablePrime(draws[j] % (n - 1) + 1, n, Twos(n - 1), OddPart(n - 1)))
  {
    hide IsWitness, StrongProbablePrime, Divides, Twos, OddPart, Fits;
    if n > 2 {
      forall j | 0 <= j < |draws|
        ensures IsWitness(Base(draws[j], n), n)
           <==> !StrongProbablePrime(draws[j] % (n - 1) + 1, n, Twos(n - 1), OddPart(n - 1))
      {
        WitnessIsStrongTest(Base(draws[j], n), n);
      }
    }
  }

  /** The test accepts n exactly when no small divisor and no base drawn speaks against it. */
  method MillerRabin(n: nat, draws: seq<nat>) returns (r: bool)
    requires Fits(n) && |draws| == 50
    ensures r <==> Accepted(n, draws)
    ensures r <==>
            && n > 2
            && (forall i: int {:trigger Divides(i, n)} :: 3 <= i <= (if n < 1023 then n - 2 else 1023) && i % 2 == 1 ==> !Divides(i, n))
            && (forall j :: 0 <= j < 50 ==> StrongProbablePrime(draws[j] % (n - 1) + 1, n, Twos(n - 1), OddPart(n - 1)))
  {
    hide Prime, Fits, IsWitness, PassesTrial, StrongProbablePrime, Divides, Twos, OddPart;
    AcceptedExact(n, draws);
    if n <= 2 {
      return false;
    }
    var passed := DivTest(n);
    if !passed {
      return false;
    }
    var s := 50;
    for j := 1 to s + 1
      invariant forall i :: 0 <= i < j - 1 ==> !IsWitness(Base(draws[i], n), n)
    {
      var a := draws[j - 1];
      a := a % (n - 1) + 1;
      assert a == Base(draws[j - 1], n);
      var w := Witness(a, n);
      if w {
        return false;
      }
    }
    return true;
  }

  /** The test errs on one side only: of the primes it rejects 2 alone, whatever is drawn. */
  lemma AcceptsPrimes(n: nat, draws: seq<nat>)
    requires Prime(n)
    ensures Accepted(n, draws) <==> n != 2
  {
    hide IsWitness, PassesTrial, Prime;
    if n > 2 {
      PrimePassesTrial(n);
      forall j | 0 <= j < |draws| ensures !IsWitness(Base(draws[j], n), n) {
        PrimeHasNoWitness(Base(draws[j], n), n);
      }
    } else {
      SmallPrime(n);
    }
  }

  /** Below 1025^2 it accepts exactly the odd primes, of all odd numbers. */
  lemma SmallAccepted(n: nat, draws: seq<nat>)
    requires n % 2 == 1 && n < 1025 * 1025
    ensures Accepted(n, draws) <==> Prime(n)
  {
    hide IsWitness, PassesTrial, Prime;
    if Accepted(n, draws) { TrialIsComplete(n); }
    if Prime(n) { AcceptsPrimes(n, draws); OddIsNotTwo(n); }
    if n <= 2 { OneIsNotPrime(); }
  }

  lemma OddIsNotTwo(n: nat)
    requires n % 2 == 1
    ensures n != 2
  {
  }

  lemma OneIsNotPrime()
    ensures !Prime(1)
  {
  }

  /** One draw that brings in a common divisor is enough to reject a composite number. */
  lemma RejectsCommonDivisor(n: nat, draws: seq<nat>, j: nat)
    requires n > 2 && j < |draws| && Gcd(draws[j] % (n - 1) + 1, n) != 1
    ensures !Accepted(n, draws)
  {
    hide IsWitness, PassesTrial, Gcd;
    CoprimeOrWitness(draws[j] % (n - 1) + 1, n);
    assert Base(draws[j], n) == draws[j] % (n - 1) + 1;
  }

  /** Every composite number is rejected for some draws: any that bring in one of its divisors. */
  lemma CompositeCanBeRejected(n: nat, draws: seq<nat>, j: nat, d: int)
    requires n > 2 && 1 < d < n && Divides(d, n) && j < |draws| && draws[j] == d - 1
    ensures !Accepted(n, draws)
  {
    hide IsWitness, PassesTrial, Divides;
    ModUnique(d - 1, 0, d - 1, n - 1);
    assert Base(draws[j], n) == d;
    assert Divides(d, d) by { MultipleOf(d, 1); }
    CommonDivisorIsWitness(d, n, d);
  }

  lemma CompositeHasBase(n: nat) returns (d: int)
    requires n > 2 && !Prime(n)
    ensures 1 < d < n && Divides(d, n)
    ensures forall draws: seq<nat>, j: nat :: j < |draws| && draws[j] == d - 1 ==> !Accepted(n, draws)
  {
    d :| 1 < d < n && Divides(d, n);
    hide Accepted, Divides;
    forall draws: seq<nat>, j: nat | j < |draws| && draws[j] == d - 1 ensures !Accepted(n, draws) {
      CompositeCanBeRejected(n, draws, j, d);
    }
  }

  lemma SmallPrime(n: nat)
    requires Prime(n) && n <= 2
    ensures n == 2
  {
  }
}
