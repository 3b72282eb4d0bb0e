/**
 Residues of integers, primes, and Fermat's theorem for them: what rsa.cpp rests on.
 */
module Modular {
  import opened Fermat

  function IntPow(a: int, k: nat): int {
    if k == 0 then 1 else a * IntPow(a, k - 1)
  }

  predicate Divides(d: int, n: int)
    requires d > 0
  {
    n % d == 0
  }

  predicate Congruent(x: int, y: int, n: int)
    requires n > 0
  {
    x % n == y % n
  }

  // ---------- Congruences ----------

  lemma MulAtLeast(n: int, t: int)
    requires n > 0
    ensures t >= 1 ==> n * t >= n
    ensures t <= -1 ==> n * t <= -n
  {
    if t >= 1 { assert n * t >= n * 1; }
    if t <= -1 { assert n * t <= n * -1; }
  }

  lemma SmallMultiple(n: int, t: int)
    requires n > 0 && -n < n * t < n
    ensures t == 0
  {
    MulAtLeast(n, t);
  }

  /** Quotient and remainder are unique. */
  lemma ModUnique(x: int, q: int, r: int, n: int)
    requires n > 0 && x == n * q + r && 0 <= r < n
    ensures x % n == r && x / n == q
  {
    var q', r' := x / n, x % n;
    assert x == n * q' + r';
    assert n * (q - q') == n * q - n * q' == r' - r;
    SmallMultiple(n, q - q');
  }

  lemma AddMultiple(x: int, k: int, n: int)
    requires n > 0
    ensures Congruent(x + n * k, x, n)
  {
    var q, r := x / n, x % n;
    assert x == n * q + r;
    assert x + n * k == n * (q + k) + r;
    ModUnique(x + n * k, q + k, r, n);
  }

  /** Congruent numbers differ by a multiple. */
  lemma Difference(x: int, y: int, n: int) returns (k: int)
    requires n > 0 && Congruent(x, y, n)
    ensures x == y + n * k
  {
    k := x / n - y / n;
    assert x == n * (x / n) + x % n && y == n * (y / n) + y % n;
    assert n * k == n * (x / n) - n * (y / n);
  }

  lemma MulCongruent(x: int, x': int, y: int, y': int, n: int)
    requires n > 0 && Congruent(x, x', n) && Congruent(y, y', n)
    ensures Congruent(x * y, x' * y', n)
  {
    var j := Difference(x, x', n);
    var k := Difference(y, y', n);
    assert x * y == x' * y' + n * (x' * k + j * y' + j * (n * k)) by {
      assert x * y == (x' + n * j) * (y' + n * k);
      assert (x' + n * j) * (y' + n * k) == x' * y' + x' * (n * k) + (n * j) * y' + (n * j) * (n * k);
      assert x' * (n * k) == n * (x' * k);
      assert (n * j) * y' == n * (j * y');
      assert (n * j) * (n * k) == n * (j * (n * k));
    }
    AddMultiple(x' * y', x' * k + j * y' + j * (n * k), n);
  }

  lemma {:induction false} PowCongruent(x: int, y: int, k: nat, n: int)
    requires n > 0 && Congruent(x, y, n)
    ensures Congruent(IntPow(x, k), IntPow(y, k), n)
  {
    hide Congruent;
    if k > 0 {
      PowCongruent(x, y, k - 1, n);
      MulCongruent(x, y, IntPow(x, k - 1), IntPow(y, k - 1), n);
    } else {
      Reflexive(1, n);
    }
  }

  lemma Reflexive(x: int, n: int)
    requires n > 0
    ensures Congruent(x, x, n)
  {
  }

  lemma ModCongruent(x: int, n: int)
    requires n > 0
    ensures Congruent(x % n, x, n)
  {
    ModUnique(x % n, 0, x % n, n);
  }

  lemma {:induction false} IntPowAdd(a: int, j: nat, k: nat)
    ensures IntPow(a, j + k) == IntPow(a, j) * IntPow(a, k)
  {
    if j > 0 {
      IntPowAdd(a, j - 1, k);
      var x, y := IntPow(a, j - 1), IntPow(a, k);
      assert a * (x * y) == (a * x) * y;
    }
  }

  lemma {:induction false} IntPowMul(a: int, j: nat, k: nat)
    ensures IntPow(IntPow(a, j), k) == IntPow(a, j * k)
  {
    if k > 0 {
      IntPowMul(a, j, k - 1);
      IntPowAdd(a, j, j * (k - 1));
      assert j + j * (k - 1) == j * k;
    } else {
      assert j * k == 0;
    }
  }

  lemma {:induction false} IntPowOne(k: nat)
    ensures IntPow(1, k) == 1
  {
    if k > 0 { IntPowOne(k - 1); }
  }

  // ---------- Primes ----------

  predicate Prime(p: int) {
    p >= 2 && forall d: int {:trigger Divides(d, p)} :: 1 < d < p ==> !Divides(d, p)
  }

  /** A prime that divides a product divides a factor: descent on a. */
  lemma {:induction false} PrimeDividesProduct(p: int, a: int, b: int)
    requires Prime(p) && 0 < a < p && Divides(p, a * b)
    ensures Divides(p, b)
    decreases a
  {
    var q, r := p / a, p % a;
    assert p == a * q + r;
    if r == 0 {
      assert a == 1 by { if a > 1 { assert Divides(a, p); } }
    } else {
      assert r * b == p * b - q * (a * b) by {
        assert r * b == (p - a * q) * b;
        assert (p - a * q) * b == p * b - (a * q) * b;
        assert (a * q) * b == q * (a * b);
      }
      MultipleOf(p, b);
      MultipleOfMultiple(p, a * b, q);
      DifferenceDivides(p, p * b, q * (a * b));
      PrimeDividesProduct(p, r, b);
    }
  }

  lemma MultipleOf(p: int, b: int)
    requires p > 0
    ensures Divides(p, p * b)
  {
    ModUnique(p * b, b, 0, p);
  }

  lemma MultipleOfMultiple(p: int, x: int, q: int)
    requires p > 0 && Divides(p, x)
    ensures Divides(p, q * x)
  {
    var k := x / p;
    assert x == p * k;
    assert q * x == p * (q * k);
    MultipleOf(p, q * k);
  }

  lemma DifferenceDivides(p: int, x: int, y: int)
    requires p > 0 && Divides(p, x) && Divides(p, y)
    ensures Divides(p, x - y)
  {
    assert x - y == p * (x / p - y / p);
    MultipleOf(p, x / p - y / p);
  }

  lemma DividesIff(p: int, x: int)
    requires p > 0
    ensures Divides(p, x) <==> Congruent(x, 0, p)
  {
    ModUnique(0, 0, 0, p);
  }

  // ---------- The residues form a monoid ----------

  function Residues(p: nat): Monoid {
    Monoid(p, (a: nat, b: nat) => if p == 0 then 0 else (a * b) % p)
  }

  lemma ResiduesAssoc(p: int, a: int, b: int, c: int)
    requires p > 0
    ensures (((a * b) % p) * c) % p == (a * ((b * c) % p)) % p
  {
    ModCongruent(a * b, p); Reflexive(c, p); Reflexive(a, p); ModCongruent(b * c, p);
    MulCongruent((a * b) % p, a * b, c, c, p);
    MulCongruent(a, a, (b * c) % p, b * c, p);
    assert (a * b) * c == a * (b * c);
  }

  lemma ResiduesAreMonoid(p: nat)
    requires p > 1
    ensures IsMonoid(Residues(p))
  {
    var M := Residues(p);
    forall a: nat, b: nat ensures M.mul(a, b) == M.mul(b, a) { assert a * b == b * a; }
    forall a: nat, b: nat, c: nat ensures M.mul(M.mul(a, b), c) == M.mul(a, M.mul(b, c)) { ResiduesAssoc(p, a, b, c); }
    forall a: nat, b: nat ensures M.mul(a, b) < M.size { }
    forall a: nat | a < M.size ensures M.mul(1, a) == a { ModUnique(1 * a, 0, a, p); }
  }

  lemma ResidueCancel(p: nat, a: nat, b: nat, c: nat)
    requires Prime(p) && 0 < a < p && b < p && c < p && (a * b) % p == (a * c) % p
    ensures b == c
  {
    var lo, hi := if b < c then b else c, if b < c then c else b;
    FactorDifference(p, a, hi, lo);
    PrimeDividesProduct(p, a, hi - lo);
    ModUnique(hi - lo, 0, hi - lo, p);
  }

  lemma FactorDifference(p: nat, a: nat, hi: nat, lo: nat)
    requires p > 0 && (a * hi) % p == (a * lo) % p
    ensures Divides(p, a * (hi - lo))
  {
    var k := Difference(a * hi, a * lo, p);
    assert a * (hi - lo) == a * hi - a * lo;
    MultipleOf(p, k);
  }

  lemma ResiduesCancel(p: nat)
    requires Prime(p)
    ensures NonZeroCancels(Residues(p))
  {
    hide Prime, Divides;
    var M := Residues(p);
    forall a: nat, b: nat | Unit(M, a) && Unit(M, b) ensures Unit(M, M.mul(a, b)) { ResidueNonZero(p, a, b); }
    forall a: nat, b: nat, c: nat | Unit(M, a) && b < M.size && c < M.size && M.mul(a, b) == M.mul(a, c) ensures b == c {
      ResidueCancel(p, a, b, c);
    }
  }

  lemma ResidueNonZero(p: nat, a: nat, b: nat)
    requires Prime(p) && 0 < a < p && 0 < b < p
    ensures 0 < (a * b) % p < p
  {
    if (a * b) % p == 0 {
      PrimeDividesProduct(p, a, b);
      ModUnique(b, 0, b, p);
    }
  }

  lemma {:induction false} ResiduePow(p: nat, a: nat, k: nat)
    requires p > 1
    ensures Pow(Residues(p), a, k) == IntPow(a, k) % p
  {
    if k == 0 {
      ModUnique(1, 0, 1, p);
    } else {
      ResiduePow(p, a, k - 1);
      var x := IntPow(a, k - 1);
      Reflexive(a, p);
      ModCongruent(x, p);
      MulCongruent(a, a, x % p, x, p);
    }
  }

  /** Fermat's little theorem. */
  lemma LittleFermat(p: nat, a: int)
    requires Prime(p) && !Divides(p, a)
    ensures IntPow(a, p - 1) % p == 1
  {
    hide Pow, NonZeroCancels, IsMonoid, IntPow;
    var r := a % p;
    ResiduesAreMonoid(p);
    ResiduesCancel(p);
    FermatTheorem(Residues(p), r);
    ResiduePow(p, r, p - 1);
    ModCongruent(a, p);
    PowCongruent(r, a, p - 1, p);
  }

  /** Only 1 and -1 square to 1 modulo a prime. */
  lemma SquareRootsOfOne(p: int, x: int)
    requires Prime(p) && 0 <= x < p && (x * x) % p == 1
    ensures x == 1 || x == p - 1
  {
    if x > 1 {
      ModUnique(1, 0, 1, p);
      var k := Difference(x * x, 1, p);
      assert (x - 1) * (x + 1) == x * x - 1 == p * k;
      MultipleOf(p, k);
      PrimeDividesProduct(p, x - 1, x + 1);
      if x + 1 < p { ModUnique(x + 1, 0, x + 1, p); }
    } else if x == 0 {
      ModUnique(0, 0, 0, p);
    }
  }

  lemma PrimeNotMultiple(p: int, q: int)
    requires Prime(p) && Prime(q) && p != q
    ensures p % q != 0
  {
    if q < p { assert !Divides(q, p); } else { ModUnique(p, 0, p, q); }
  }

  /** A number divisible by two distinct primes is divisible by their product. */
  lemma DistinctPrimes(p: int, q: int, x: int)
    requires Prime(p) && Prime(q) && p != q && Divides(p, x) && Divides(q, x)
    ensures p * q > 0 && Divides(p * q, x)
  {
    var t := x / p;
    assert x == p * t;
    PrimeNotMultiple(p, q);
    ModCongruent(p, q);
    Reflexive(t, q);
    MulCongruent(p % q, p, t, t, q);
    PrimeDividesProduct(q, p % q, t);
    assert x == p * (q * (t / q)) == (p * q) * (t / q);
    MultipleOf(p * q, t / q);
  }
}
