/**
 The strong pseudoprime test: the powers of a for 2^r t, where n - 1 = 2^s t with t odd, and
 the square roots of 1 among all powers of a.
 */
module StrongTest {
  import opened Gf2Poly
  import opened Modular

  // ---------- The form 2^s t ----------

  function Twos(m: nat): nat {
    if m == 0 || m % 2 == 1 then 0 else 1 + Twos(m / 2)
  }

  function OddPart(m: nat): nat {
    if m == 0 || m % 2 == 1 then m else OddPart(m / 2)
  }

  lemma {:induction false} TwosAndOdd(m: nat)
    requires m > 0
    ensures m == Pow2(Twos(m)) * OddPart(m) && OddPart(m) % 2 == 1
  {
    if m % 2 == 0 {
      TwosAndOdd(m / 2);
      MulAssociates(2, Pow2(Twos(m / 2)), OddPart(m / 2));
    }
  }

  lemma MulAssociates(a: int, b: int, c: int)
    ensures (a * b) * c == a * (b * c)
  {
  }

  /** The prefixes of 2^s t, in binary, that end within its zeros. */
  lemma {:induction false} PrefixOfShifted(s: nat, t: nat, r: nat)
    requires r <= s
    ensures High(Pow2(s) * t, s - r) == Pow2(r) * t
    decreases s - r
  {
    if r < s {
      MulAssociates(2, Pow2(s - 1), t);
      assert (Pow2(s) * t) / 2 == Pow2(s - 1) * t;
      PrefixOfShifted(s - 1, t, r);
    }
  }

  /** The powers the test looks at. */
  function Root(a: nat, n: nat, t: nat, r: nat): nat
    requires n > 0
  {
    IntPow(a, Pow2(r) * t) % n
  }

  /** n passes the strong test to base a. */
  ghost predicate StrongProbablePrime(a: nat, n: nat, s: nat, t: nat)
    requires n > 0
  {
    Root(a, n, t, 0) == 1 || exists r: nat :: r < s && Root(a, n, t, r) == n - 1
  }

  // ---------- Square roots of 1 among the powers ----------

  lemma {:induction false} PowersOfMinusOne(k: nat)
    ensures IntPow(-1, k) == if k % 2 == 0 then 1 else -1
  {
    if k > 0 { PowersOfMinusOne(k - 1); }
  }

  /** A number congruent to 1 or to -1. */
  predicate Trivial(x: int, n: int)
    requires n > 0
  {
    Congruent(x, 1, n) || Congruent(x, -1, n)
  }

  lemma PowerOfTrivial(x: int, k: nat, n: int)
    requires n > 0 && Congruent(x, -1, n)
    ensures Congruent(IntPow(x, k), if k % 2 == 0 then 1 else -1, n)
  {
    PowCongruent(x, -1, k, n);
    PowersOfMinusOne(k);
  }

  lemma PowerOfOne(x: int, k: nat, n: int)
    requires n > 0 && Congruent(x, 1, n)
    ensures Congruent(IntPow(x, k), 1, n)
  {
    PowCongruent(x, 1, k, n);
    IntPowOne(k);
  }

  lemma OneIsNotMinusOne(n: int)
    requires n > 2
    ensures !Congruent(1, -1, n)
  {
    ModUnique(1, 0, 1, n);
    ModUnique(-1, -1, n - 1, n);
  }

  /** An odd power of a square root of 1 is that root. */
  lemma OddPower(x: int, t: nat, n: int)
    requires n > 0 && t % 2 == 1 && Congruent(x * x, 1, n)
    ensures Congruent(IntPow(x, t), x, n)
  {
    hide Congruent;
    var k := t / 2;
    IntPowMul(x, 2, k);
    assert IntPow(x, 2) == x * IntPow(x, 1) && IntPow(x, 1) == x * IntPow(x, 0) && IntPow(x, 0) == 1;
    assert IntPow(x, t) == x * IntPow(x, 2 * k);
    hide IntPow;
    PowerOfOne(x * x, k, n);
    Reflexive(x, n);
    MulCongruent(x, x, IntPow(x, 2 * k), 1, n);
  }

  lemma SquareOfPower(y: int, h: nat)
    ensures IntPow(y, 2 * h) == IntPow(y, h) * IntPow(y, h) == IntPow(y * y, h)
  {
    IntPowAdd(y, h, h);
    IntPowMul(y, 2, h);
    assert IntPow(y, 2) == y * IntPow(y, 1) && IntPow(y, 1) == y * IntPow(y, 0) && IntPow(y, 0) == 1;
    assert h + h == 2 * h;
  }

  /** When y^(2^r) is -1, a power of y whose square is 1 is 1 or -1. */
  lemma {:induction false} RootBelowMinusOne(y: int, r: nat, h: nat, n: int)
    requires n > 2 && Congruent(IntPow(y, Pow2(r)), -1, n) && Congruent(IntPow(y, 2 * h), 1, n)
    ensures Trivial(IntPow(y, h), n)
    decreases r
  {
    hide IntPow, Congruent;
    if r == 0 {
      assert IntPow(y, 1) == y by { PowerOne(y); }
      PowerOfTrivial(y, h, n);
    } else {
      var z := y * y;
      SquareOfPower(y, Pow2(r - 1));
      SquareOfPower(y, h);
      if h % 2 == 0 {
        SquareOfPower(y, h / 2);
        RootBelowMinusOne(z, r - 1, h / 2, n);
      } else {
        BothSigns(z, Pow2(r - 1), h, n);
      }
    }
  }

  lemma PowerOne(y: int)
    ensures IntPow(y, 1) == y
  {
    assert IntPow(y, 0) == 1;
  }

  /** When some power of z is -1, no odd power is 1. */
  lemma BothSigns(z: int, w: nat, h: nat, n: int)
    requires n > 2 && h % 2 == 1 && Congruent(IntPow(z, w), -1, n)
    ensures !Congruent(IntPow(z, h), 1, n)
  {
    hide IntPow;
    PowerOfTrivial(IntPow(z, w), h, n);
    IntPowMul(z, w, h);
    IntPowMul(z, h, w);
    assert w * h == h * w;
    OneIsNotMinusOne(n);
    if Congruent(IntPow(z, h), 1, n) { PowerOfOne(IntPow(z, h), w, n); }
  }

  /** In a strong probable prime every power of a that squares to 1 is 1 or -1. */
  lemma OnlyTrivialRoots(a: nat, n: nat, s: nat, t: nat, h: nat)
    requires n > 2 && t % 2 == 1 && StrongProbablePrime(a, n, s, t)
    requires Congruent(IntPow(a, 2 * h), 1, n)
    ensures Trivial(IntPow(a, h), n)
  {
    hide IntPow, Congruent, Root, StrongProbablePrime;
    var x, y := IntPow(a, h), IntPow(a, t);
    SquareOfPower(a, h);
    OddPower(x, t, n);
    IntPowMul(a, h, t);
    IntPowMul(a, t, h);
    assert h * t == t * h;
    var r := StrongCases(a, n, s, t);
    if Congruent(y, 1, n) {
      PowerOfOne(y, h, n);
      CongruentBoth(IntPow(y, h), x, 1, n);
    } else {
      SquareOfPower(y, h);
      SquareOfPower(x, t);
      assert IntPow(y, 2 * h) == IntPow(x * x, t);
      PowerOfOne(x * x, t, n);
      RootBelowMinusOne(y, r, h, n);
      TrivialFollows(IntPow(y, h), x, n);
    }
  }

  lemma CongruentBoth(u: int, x: int, z: int, n: int)
    requires n > 0 && Congruent(u, x, n) && Congruent(u, z, n)
    ensures Congruent(x, z, n)
  {
  }

  lemma TrivialFollows(u: int, x: int, n: int)
    requires n > 0 && Congruent(u, x, n) && Trivial(u, n)
    ensures Trivial(x, n)
  {
  }

  lemma StrongCases(a: nat, n: nat, s: nat, t: nat) returns (r: nat)
    requires n > 2 && StrongProbablePrime(a, n, s, t)
    ensures Congruent(IntPow(a, t), 1, n) || (r < s && Congruent(IntPow(IntPow(a, t), Pow2(r)), -1, n))
  {
    ModUnique(1, 0, 1, n);
    ModUnique(-1, -1, n - 1, n);
    hide IntPow;
    r := 0;
    if Root(a, n, t, 0) == 1 {
      assert Pow2(0) * t == t;
    } else {
      r :| r < s && Root(a, n, t, r) == n - 1;
      IntPowMul(a, t, Pow2(r));
      assert t * Pow2(r) == Pow2(r) * t;
    }
  }

  /** A strong probable prime passes Fermat's test. */
  lemma PassesFermat(a: nat, n: nat, s: nat, t: nat)
    requires n > 2 && n - 1 == Pow2(s) * t && StrongProbablePrime(a, n, s, t)
    ensures IntPow(a, n - 1) % n == 1
  {
    hide IntPow, Root, StrongProbablePrime;
    var y := IntPow(a, t);
    var r := StrongCases(a, n, s, t);
    IntPowMul(a, t, Pow2(s));
    assert t * Pow2(s) == Pow2(s) * t;
    if Congruent(y, 1, n) {
      PowerOfOne(y, Pow2(s), n);
    } else {
      PowersAdd(r, s - r);
      IntPowMul(y, Pow2(r), Pow2(s - r));
      assert Pow2(s - r) == 2 * Pow2(s - r - 1);
      PowerOfTrivial(IntPow(y, Pow2(r)), Pow2(s - r), n);
    }
    ModUnique(1, 0, 1, n);
  }

  /** Every power 2^r t of a that squares to 1 is trivial. */
  ghost predicate TrivialUpTo(a: nat, n: nat, s: nat, t: nat)
    requires n > 0
  {
    forall r: nat {:trigger Root(a, n, t, r)} :: r < s && (Root(a, n, t, r) * Root(a, n, t, r)) % n == 1 ==>
      Root(a, n, t, r) == 1 || Root(a, n, t, r) == n - 1
  }

  lemma NextRoot(a: nat, n: nat, t: nat, r: nat)
    requires n > 0
    ensures (Root(a, n, t, r) * Root(a, n, t, r)) % n == Root(a, n, t, r + 1)
  {
    hide IntPow;
    var x := IntPow(a, Pow2(r) * t);
    SquareOfPower(a, Pow2(r) * t);
    MulAssociates(2, Pow2(r), t);
    ModCongruent(x, n);
    MulCongruent(x % n, x, x % n, x, n);
  }

  /** From the last power down: the first that is not 1 is -1. */
  lemma {:induction false} Descend(a: nat, n: nat, s: nat, t: nat, r: nat)
    requires n > 0 && r <= s && TrivialUpTo(a, n, s, t) && Root(a, n, t, r) == 1
    ensures StrongProbablePrime(a, n, s, t)
  {
    if r > 0 {
      NextRoot(a, n, t, r - 1);
      hide Root;
      if Root(a, n, t, r - 1) == 1 { Descend(a, n, s, t, r - 1); }
    }
  }
}
