/**
 A field of characteristic 2 seen through its laws only.  Elements are the numbers below
 M.size; sums are decided coefficient by coefficient through bit.
 */
module Field {
  import opened Fermat

  datatype Field = Field(M: Monoid, add: (nat, nat) -> nat, inv: nat -> nat, bit: (nat, nat) -> bool) {
    predicate Elem(a: nat) {
      a < M.size
    }

    function Mul(a: nat, b: nat): nat {
      M.mul(a, b)
    }

    function Sq(a: nat): nat {
      M.mul(a, a)
    }
  }

  ghost predicate IsField(F: Field) {
    && IsMonoid(F.M)
    && (forall a: nat, b: nat, i: nat {:trigger F.bit(F.add(a, b), i)} ::
          F.bit(F.add(a, b), i) == (F.bit(a, i) != F.bit(b, i)))
    && (forall i: nat :: !F.bit(0, i))
    && (forall a: nat, b: nat {:trigger Same(F, a, b)} :: Same(F, a, b) ==> a == b)
    && (forall a: nat, b: nat :: F.Elem(a) && F.Elem(b) ==> F.Elem(F.add(a, b)))
    && (forall a: nat, b: nat, c: nat {:trigger Triple(a, b, c)} ::
          F.M.mul(a, F.add(b, c)) == F.add(F.M.mul(a, b), F.M.mul(a, c)))
    && (forall a: nat {:trigger F.M.mul(a, 0)} :: F.M.mul(a, 0) == 0)
    && (forall a: nat {:trigger F.inv(a)} :: F.Elem(F.inv(a)) && (F.Elem(a) && a != 0 ==> F.M.mul(a, F.inv(a)) == 1))
  }

  ghost predicate Same(F: Field, a: nat, b: nat) {
    forall i: nat :: F.bit(a, i) == F.bit(b, i)
  }

  lemma FieldIsMonoid(F: Field)
    requires IsField(F)
    ensures IsMonoid(F.M)
  {
  }

  /** Two sums with the same coefficients are equal. */
  lemma Equal(F: Field, a: nat, b: nat)
    requires IsField(F) && Same(F, a, b)
    ensures a == b
  {
  }

  /** Products distribute over sums, wherever both are mentioned. */
  lemma Expand(F: Field)
    requires IsField(F)
    ensures forall a: nat, b: nat, c: nat {:trigger F.M.mul(a, F.add(b, c))} ::
              F.M.mul(a, F.add(b, c)) == F.add(F.M.mul(a, b), F.M.mul(a, c))
  {
    forall a: nat, b: nat, c: nat
      ensures F.M.mul(a, F.add(b, c)) == F.add(F.M.mul(a, b), F.M.mul(a, c))
    {
      assert Triple(a, b, c);
    }
  }

  lemma MulDistrib(F: Field, a: nat, b: nat, c: nat)
    requires IsField(F)
    ensures F.Mul(F.add(a, b), c) == F.add(F.Mul(a, c), F.Mul(b, c))
  {
    assert Triple(c, a, b);
    assert F.M.mul(F.add(a, b), c) == F.M.mul(c, F.add(a, b));
    assert F.M.mul(a, c) == F.M.mul(c, a) && F.M.mul(b, c) == F.M.mul(c, b);
  }

  /** Adding twice changes nothing. */
  lemma AddTwice(F: Field, a: nat, b: nat)
    requires IsField(F)
    ensures F.add(F.add(a, b), b) == a
  {
    assert Same(F, F.add(F.add(a, b), b), a);
  }

  lemma AddSelf(F: Field, a: nat)
    requires IsField(F)
    ensures F.add(a, a) == 0
  {
    assert Same(F, F.add(a, a), 0);
  }

  lemma AddZeroEq(F: Field, a: nat, b: nat)
    requires IsField(F)
    ensures F.add(a, b) == 0 <==> a == b
  {
    if F.add(a, b) == 0 {
      assert forall i: nat :: F.bit(F.add(a, b), i) == (F.bit(a, i) != F.bit(b, i));
      assert Same(F, a, b);
    }
    AddSelf(F, a);
  }

  lemma SqAdd(F: Field, a: nat, b: nat)
    requires IsField(F)
    ensures F.Sq(F.add(a, b)) == F.add(F.Sq(a), F.Sq(b))
  {
    Expand(F);
    assert F.Sq(F.add(a, b)) == F.add(F.Mul(F.add(a, b), a), F.Mul(F.add(a, b), b));
    assert F.Mul(F.add(a, b), a) == F.add(F.Sq(a), F.Mul(a, b)) by { assert F.M.mul(F.add(a, b), a) == F.M.mul(a, F.add(a, b)); }
    assert F.Mul(F.add(a, b), b) == F.add(F.Mul(a, b), F.Sq(b)) by { assert F.M.mul(F.add(a, b), b) == F.M.mul(b, F.add(a, b)); }
    assert Same(F, F.Sq(F.add(a, b)), F.add(F.Sq(a), F.Sq(b)));
  }

  lemma NoZeroDivisors(F: Field, a: nat, b: nat)
    requires IsField(F) && F.Elem(a) && F.Elem(b)
    requires F.Mul(a, b) == 0
    ensures a == 0 || b == 0
  {
    if a != 0 {
      var v := F.inv(a);
      assert Triple(v, a, b);
      assert F.M.mul(v, a) == F.M.mul(a, v);
      assert F.M.mul(F.M.mul(v, a), b) == b;
      assert F.M.mul(v, 0) == 0;
    }
  }
}
