/**
 Powers in a finite commutative monoid on [0, size), and Fermat's theorem for it.  Both the
 binary fields of the curve code and the residues modulo a prime of the RSA code are
 instances; the multiplication is a function value, so the proofs see only the laws.
 */
module Fermat {

  datatype Monoid = Monoid(size: nat, mul: (nat, nat) -> nat)

  /** Always true: naming three numbers here instantiates the associative law for them. */
  ghost predicate Triple(a: nat, b: nat, c: nat) { true }

  ghost predicate IsMonoid(M: Monoid) {
    && M.size > 1
    && (forall a: nat, b: nat :: M.mul(a, b) == M.mul(b, a))
    && (forall a: nat, b: nat, c: nat {:trigger Triple(a, b, c)} ::
          M.mul(M.mul(a, b), c) == M.mul(a, M.mul(b, c)))
    && (forall a: nat, b: nat :: M.mul(a, b) < M.size)
    && (forall a: nat :: a < M.size ==> M.mul(1, a) == a)
  }

  predicate Unit(M: Monoid, a: nat) {
    0 < a < M.size
  }

  /** The non-zero elements are closed under products and can be cancelled. */
  ghost predicate NonZeroCancels(M: Monoid) {
    && (forall a: nat, b: nat :: Unit(M, a) && Unit(M, b) ==> Unit(M, M.mul(a, b)))
    && (forall a: nat, b: nat, c: nat {:trigger M.mul(a, b), M.mul(a, c)} ::
          Unit(M, a) && b < M.size && c < M.size && M.mul(a, b) == M.mul(a, c) ==> b == c)
  }

  lemma Assoc(M: Monoid, a: nat, b: nat, c: nat)
    requires IsMonoid(M)
    ensures M.mul(M.mul(a, b), c) == M.mul(a, M.mul(b, c))
  {
    assert Triple(a, b, c);
  }

  /** (ab)(cd) = (ac)(bd). */
  lemma Swap(M: Monoid, a: nat, b: nat, c: nat, d: nat)
    requires IsMonoid(M)
    ensures M.mul(M.mul(a, b), M.mul(c, d)) == M.mul(M.mul(a, c), M.mul(b, d))
  {
    assert Triple(a, b, M.mul(c, d)) && Triple(b, c, d) && Triple(c, b, d) && Triple(a, c, M.mul(b, d));
  }

  // ---------- Powers ----------

  function Pow(M: Monoid, a: nat, k: nat): nat {
    if k == 0 then 1 else M.mul(a, Pow(M, a, k - 1))
  }

  lemma PowOne(M: Monoid, a: nat)
    requires IsMonoid(M) && a < M.size
    ensures Pow(M, a, 1) == a
  {
    assert Pow(M, a, 1) == M.mul(a, 1);
  }

  lemma {:induction false} PowInRange(M: Monoid, a: nat, k: nat)
    requires IsMonoid(M)
    ensures Pow(M, a, k) < M.size
  {
  }

  lemma {:induction false} PowAdd(M: Monoid, a: nat, j: nat, k: nat)
    requires IsMonoid(M)
    ensures Pow(M, a, j + k) == M.mul(Pow(M, a, j), Pow(M, a, k))
  {
    PowInRange(M, a, k);
    if j > 0 {
      PowAdd(M, a, j - 1, k);
      Assoc(M, a, Pow(M, a, j - 1), Pow(M, a, k));
    }
  }

  lemma {:induction false} PowDistrib(M: Monoid, a: nat, b: nat, k: nat)
    requires IsMonoid(M)
    ensures Pow(M, M.mul(a, b), k) == M.mul(Pow(M, a, k), Pow(M, b, k))
  {
    if k > 0 {
      PowDistrib(M, a, b, k - 1);
      Swap(M, a, b, Pow(M, a, k - 1), Pow(M, b, k - 1));
    }
  }

  lemma {:induction false} PowOfOne(M: Monoid, k: nat)
    requires IsMonoid(M)
    ensures Pow(M, 1, k) == 1
  {
    if k > 0 { PowOfOne(M, k - 1); }
  }

  lemma {:induction false} PowMul(M: Monoid, a: nat, j: nat, k: nat)
    requires IsMonoid(M)
    ensures Pow(M, Pow(M, a, j), k) == Pow(M, a, j * k)
  {
    hide IsMonoid;
    if k > 0 {
      PowMul(M, a, j, k - 1);
      ProductNext(j, k);
      PowAdd(M, a, j, j * (k - 1));
    }
  }

  lemma ProductNext(j: nat, k: nat)
    requires k > 0
    ensures j * (k - 1) >= 0 && j + j * (k - 1) == j * k
  {
  }

  lemma {:induction false} PowUnit(M: Monoid, a: nat, k: nat)
    requires IsMonoid(M) && NonZeroCancels(M) && Unit(M, a)
    ensures Unit(M, Pow(M, a, k))
  {
    if k > 0 { PowUnit(M, a, k - 1); }
  }

  // ---------- Products over sets ----------

  /** The product of the elements of s, in an order chosen by the logic. */
  ghost function Prod(M: Monoid, s: set<nat>): nat
    decreases |s|
  {
    if s == {} then 1 else
    var x :| x in s;
    M.mul(x, Prod(M, s - {x}))
  }

  /** Any element may be taken out first. */
  lemma {:induction false} ProdRemove(M: Monoid, s: set<nat>, x: nat)
    requires IsMonoid(M) && x in s
    ensures Prod(M, s) == M.mul(x, Prod(M, s - {x}))
    decreases |s|
  {
    var y :| y in s && Prod(M, s) == M.mul(y, Prod(M, s - {y}));
    if x != y {
      ProdRemove(M, s - {y}, x);
      ProdRemove(M, s - {x}, y);
      assert s - {y} - {x} == s - {x} - {y};
      var r := Prod(M, s - {x} - {y});
      assert Triple(y, x, r) && Triple(x, y, r);
    }
  }

  lemma {:induction false} ProdUnit(M: Monoid, s: set<nat>)
    requires IsMonoid(M) && NonZeroCancels(M)
    requires forall x :: x in s ==> Unit(M, x)
    ensures Unit(M, Prod(M, s))
    decreases |s|
  {
    if s != {} {
      var x :| x in s;
      ProdRemove(M, s, x);
      ProdUnit(M, s - {x});
    }
  }

  ghost function Image(M: Monoid, a: nat, s: set<nat>): set<nat> {
    set x | x in s :: M.mul(a, x)
  }

  lemma ImageRemove(M: Monoid, a: nat, s: set<nat>, x: nat)
    requires NonZeroCancels(M) && Unit(M, a) && x in s
    requires forall y :: y in s ==> Unit(M, y)
    ensures Image(M, a, s) == Image(M, a, s - {x}) + {M.mul(a, x)}
    ensures M.mul(a, x) !in Image(M, a, s - {x})
  {
    assert s == (s - {x}) + {x};
  }

  lemma EmptyProducts(M: Monoid, a: nat)
    requires IsMonoid(M)
    ensures Image(M, a, {}) == {} && Prod(M, {}) == 1 && M.mul(Pow(M, a, 0), 1) == 1
  {
  }

  lemma PowNext(M: Monoid, a: nat, k: nat)
    ensures Pow(M, a, k + 1) == M.mul(a, Pow(M, a, k))
  {
  }

  /** Multiplying every element of s by a multiplies the product by a^|s|. */
  lemma {:induction false} ProdImage(M: Monoid, a: nat, s: set<nat>)
    requires IsMonoid(M) && NonZeroCancels(M) && Unit(M, a)
    requires forall x :: x in s ==> Unit(M, x)
    ensures |Image(M, a, s)| == |s|
    ensures Prod(M, Image(M, a, s)) == M.mul(Pow(M, a, |s|), Prod(M, s))
    decreases |s|
  {
    hide Prod, Image, NonZeroCancels, IsMonoid, Pow, Unit;
    if s == {} {
      EmptyProducts(M, a);
    } else {
      var x :| x in s;
      var rest, ax := s - {x}, M.mul(a, x);
      ProdImage(M, a, rest);
      ImageRemove(M, a, s, x);
      assert Image(M, a, s) - {ax} == Image(M, a, rest);
      ProdRemove(M, Image(M, a, s), ax);
      ProdRemove(M, s, x);
      Swap(M, a, x, Pow(M, a, |rest|), Prod(M, rest));
      PowNext(M, a, |rest|);
      assert |s| == |rest| + 1;
    }
  }

  lemma {:induction false} SubsetSameSize(s: set<nat>, t: set<nat>)
    requires s <= t && |s| == |t|
    ensures s == t
  {
    if x :| x in t && x !in s {
      assert s <= t - {x};
      SubsetSize(s, t - {x});
    }
  }

  lemma {:induction false} SubsetSize(s: set<nat>, t: set<nat>)
    requires s <= t
    ensures |s| <= |t|
  {
    if x :| x in s { SubsetSize(s - {x}, t - {x}); }
  }

  function NonZero(n: nat): (s: set<nat>)
    ensures forall x :: x in s <==> 0 < x < n
    ensures n > 0 ==> |s| == n - 1
  {
    if n <= 1 then {} else NonZero(n - 1) + {n - 1}
  }

  lemma ImageOfNonZero(M: Monoid, a: nat)
    requires IsMonoid(M) && NonZeroCancels(M) && Unit(M, a)
    ensures Image(M, a, NonZero(M.size)) == NonZero(M.size)
  {
    var s := NonZero(M.size);
    ProdImage(M, a, s);
    assert forall x :: x in s ==> M.mul(a, x) in s;
    SubsetSameSize(Image(M, a, s), s);
  }

  lemma CancelOne(M: Monoid, p: nat, k: nat)
    requires IsMonoid(M) && NonZeroCancels(M) && Unit(M, p)
    requires k < M.size && M.mul(k, p) == p
    ensures k == 1
  {
    assert M.mul(p, k) == M.mul(p, 1);
  }

  /** Fermat: a^(size - 1) = 1 for every non-zero a. */
  lemma FermatTheorem(M: Monoid, a: nat)
    requires IsMonoid(M) && NonZeroCancels(M) && Unit(M, a)
    ensures Pow(M, a, M.size - 1) == 1
  {
    hide Pow, Prod, Image, NonZeroCancels;
    var s := NonZero(M.size);
    ImageOfNonZero(M, a);
    ProdImage(M, a, s);
    ProdUnit(M, s);
    PowInRange(M, a, M.size - 1);
    CancelOne(M, Prod(M, s), Pow(M, a, M.size - 1));
  }
}
