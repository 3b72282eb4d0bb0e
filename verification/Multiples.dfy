/**
 Multiples of a point and the double-and-add recursion.  That the law is associative on the
 multiples of a point is the explicit hypothesis Additive.
 */
module Multiples {
  import opened Fermat
  import opened Field
  import opened Curve

  /** kP, as the k-fold sum. */
  function Times(E: Curve, P: Point, k: nat): Point {
    if k == 0 then Infinity else Add(E, Times(E, P, k - 1), P)
  }

  /** Always true: naming two multiples here instantiates the hypothesis for them. */
  ghost predicate Pair(i: nat, j: nat) { true }

  ghost predicate Additive(E: Curve, P: Point) {
    forall i: nat, j: nat {:trigger Pair(i, j)} ::
      Add(E, Times(E, P, i), Times(E, P, j)) == Times(E, P, i + j)
  }

  lemma AddTimes(E: Curve, P: Point, i: nat, j: nat)
    requires Additive(E, P)
    ensures Add(E, Times(E, P, i), Times(E, P, j)) == Times(E, P, i + j)
  {
    assert Pair(i, j);
  }

  lemma TimesOne(E: Curve, P: Point)
    ensures Times(E, P, 1) == P
  {
    assert Times(E, P, 0) == Infinity;
  }

  lemma {:induction false} TimesOnCurve(E: Curve, P: Point, k: nat)
    requires IsCurve(E) && OnCurve(E, P)
    ensures OnCurve(E, Times(E, P, k))
  {
    if k > 0 {
      TimesOnCurve(E, P, k - 1);
      AddClosed(E, Times(E, P, k - 1), P);
    }
  }

  /** (kj)P = k(jP): what the key exchange in both programs rests on. */
  lemma {:induction false} TimesCompose(E: Curve, P: Point, j: nat, k: nat)
    requires Additive(E, P)
    ensures Times(E, Times(E, P, j), k) == Times(E, P, k * j)
  {
    hide Add;
    if k > 0 {
      TimesCompose(E, P, j, k - 1);
      AddTimes(E, P, (k - 1) * j, j);
      assert (k - 1) * j + j == k * j;
    }
  }

  lemma AdditiveOfMultiple(E: Curve, P: Point, j: nat)
    requires Additive(E, P)
    ensures Additive(E, Times(E, P, j))
  {
    hide Add, Times;
    var Q := Times(E, P, j);
    forall i: nat, k: nat
      ensures Add(E, Times(E, Q, i), Times(E, Q, k)) == Times(E, Q, i + k)
    {
      TimesCompose(E, P, j, i); TimesCompose(E, P, j, k); TimesCompose(E, P, j, i + k);
      AddTimes(E, P, i * j, k * j);
      assert i * j + k * j == (i + k) * j;
    }
  }

  /** The double-and-add loop, from the accumulator R and the current double A. */
  function DoubleAndAdd(E: Curve, k: nat, R: Point, A: Point): Point {
    if k == 0 then R
    else DoubleAndAdd(E, k / 2, if k % 2 == 1 then Add(E, R, A) else R, Add(E, A, A))
  }

  lemma {:induction false} DoubleAndAddRun(E: Curve, P: Point, k: nat, r: nat, w: nat)
    requires Additive(E, P)
    ensures DoubleAndAdd(E, k, Times(E, P, r), Times(E, P, w)) == Times(E, P, r + w * k)
  {
    hide Add, Times;
    if k > 0 {
      AddTimes(E, P, r, w);
      AddTimes(E, P, w, w);
      var r' := if k % 2 == 1 then r + w else r;
      DoubleAndAddRun(E, P, k / 2, r', 2 * w);
      assert k == 2 * (k / 2) + k % 2;
      assert r' + 2 * w * (k / 2) == r + w * k by {
        assert w * k == w * (2 * (k / 2)) + w * (k % 2);
      }
    }
  }

  /** Double-and-add computes the k-fold sum. */
  lemma DoubleAndAddIsTimes(E: Curve, P: Point, k: nat)
    requires Additive(E, P)
    ensures DoubleAndAdd(E, k, Infinity, P) == Times(E, P, k)
  {
    TimesOne(E, P);
    assert Times(E, P, 0) == Infinity;
    DoubleAndAddRun(E, P, k, 0, 1);
    hide Add, Times, DoubleAndAdd;
  }

  /** The agreement both programs check for one pair of keys holds for all. */
  lemma KeyExchange(E: Curve, P: Point, j: nat, k: nat)
    requires Additive(E, P)
    ensures var A, B := DoubleAndAdd(E, j, Infinity, P), DoubleAndAdd(E, k, Infinity, P);
            && DoubleAndAdd(E, k, Infinity, A) == DoubleAndAdd(E, j, Infinity, B)
            && DoubleAndAdd(E, k, Infinity, A) == DoubleAndAdd(E, k * j, Infinity, P)
  {
    hide Add, Times, DoubleAndAdd, Additive;
    DoubleAndAddIsTimes(E, P, j);
    DoubleAndAddIsTimes(E, P, k);
    DoubleAndAddIsTimes(E, P, k * j);
    AdditiveOfMultiple(E, P, j);
    AdditiveOfMultiple(E, P, k);
    DoubleAndAddIsTimes(E, Times(E, P, j), k);
    DoubleAndAddIsTimes(E, Times(E, P, k), j);
    TimesCompose(E, P, j, k);
    TimesCompose(E, P, k, j);
  }
}
