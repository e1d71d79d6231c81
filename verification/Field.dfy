/**
 A field given by its operations, so that the interpolation theorems are proved once and used
 both for scalars modulo a prime and for bytes in GF(2^8). The operations are total on T and
 land in the carrier `has`; the unit laws hold on the carrier.
 */
module Fields {
  datatype Field<!T> = Field(
    zero: T, one: T, add: (T, T) -> T, mul: (T, T) -> T, neg: T -> T, inv: T -> T, has: T -> bool)
  {
    function Sub(a: T, b: T): T
    {
      add(a, neg(b))
    }
  }

  ghost predicate Closed<T(!new)>(F: Field<T>)
  {
    && F.has(F.zero) && F.has(F.one) && F.zero != F.one
    && (forall a, b :: F.has(F.add(a, b)))
    && (forall a, b :: F.has(F.mul(a, b)))
    && (forall a :: F.has(F.neg(a)))
    && (forall a :: F.has(F.inv(a)))
  }

  ghost predicate Commutes<T(!new)>(F: Field<T>)
  {
    && (forall a, b {:trigger F.add(a, b), F.add(b, a)} :: F.add(a, b) == F.add(b, a))
    && (forall a, b {:trigger F.mul(a, b), F.mul(b, a)} :: F.mul(a, b) == F.mul(b, a))
  }

  ghost predicate Associates<T(!new)>(F: Field<T>)
  {
    && (forall a, b, c {:trigger F.add(F.add(a, b), c), F.add(a, F.add(b, c))} ::
          F.add(F.add(a, b), c) == F.add(a, F.add(b, c)))
    && (forall a, b, c {:trigger F.mul(F.mul(a, b), c), F.mul(a, F.mul(b, c))} ::
          F.mul(F.mul(a, b), c) == F.mul(a, F.mul(b, c)))
  }

  ghost predicate Distributes<T(!new)>(F: Field<T>)
  {
    forall a, b, c {:trigger F.mul(a, F.add(b, c)), F.add(F.mul(a, b), F.mul(a, c))} ::
      F.mul(a, F.add(b, c)) == F.add(F.mul(a, b), F.mul(a, c))
  }

  ghost predicate Units<T(!new)>(F: Field<T>)
  {
    && (forall a {:trigger F.add(a, F.zero)} :: F.has(a) ==> F.add(a, F.zero) == a)
    && (forall a {:trigger F.mul(a, F.one)} :: F.has(a) ==> F.mul(a, F.one) == a)
    && (forall a {:trigger F.add(a, F.neg(a))} :: F.add(a, F.neg(a)) == F.zero)
    && (forall a {:trigger F.mul(a, F.inv(a))} :: F.has(a) && a != F.zero ==> F.mul(a, F.inv(a)) == F.one)
  }

  ghost predicate Lawful<T(!new)>(F: Field<T>)
  {
    Closed(F) && Commutes(F) && Associates(F) && Distributes(F) && Units(F)
  }

  // ------------------------------------------------------- the laws, one at a time

  lemma Has<T(!new)>(F: Field<T>, a: T, b: T)
    requires Lawful(F)
    ensures F.has(F.zero) && F.has(F.one) && F.zero != F.one
    ensures F.has(F.add(a, b)) && F.has(F.mul(a, b)) && F.has(F.neg(a)) && F.has(F.inv(a)) && F.has(F.Sub(a, b))
  {
    hide Commutes, Associates, Distributes, Units;
  }

  lemma AddComm<T(!new)>(F: Field<T>, a: T, b: T)
    requires Lawful(F)
    ensures F.add(a, b) == F.add(b, a)
  {
    hide Closed, Associates, Distributes, Units;
  }

  lemma MulComm<T(!new)>(F: Field<T>, a: T, b: T)
    requires Lawful(F)
    ensures F.mul(a, b) == F.mul(b, a)
  {
    hide Closed, Associates, Distributes, Units;
  }

  lemma AddAssoc<T(!new)>(F: Field<T>, a: T, b: T, c: T)
    requires Lawful(F)
    ensures F.add(F.add(a, b), c) == F.add(a, F.add(b, c))
  {
    hide Closed, Commutes, Distributes, Units;
  }

  lemma MulAssoc<T(!new)>(F: Field<T>, a: T, b: T, c: T)
    requires Lawful(F)
    ensures F.mul(F.mul(a, b), c) == F.mul(a, F.mul(b, c))
  {
    hide Closed, Commutes, Distributes, Units;
  }

  lemma Distrib<T(!new)>(F: Field<T>, a: T, b: T, c: T)
    requires Lawful(F)
    ensures F.mul(a, F.add(b, c)) == F.add(F.mul(a, b), F.mul(a, c))
  {
    hide Closed, Commutes, Associates, Units;
  }

  lemma Unit<T(!new)>(F: Field<T>, a: T)
    requires Lawful(F)
    ensures F.has(a) ==> F.add(a, F.zero) == a && F.mul(a, F.one) == a
    ensures F.add(a, F.neg(a)) == F.zero
    ensures F.has(a) && a != F.zero ==> F.mul(a, F.inv(a)) == F.one
  {
    hide Commutes, Associates, Distributes, Closed;
  }

  // ------------------------------------------------------------------ consequences

  lemma DistribRight<T(!new)>(F: Field<T>, a: T, b: T, c: T)
    requires Lawful(F)
    ensures F.mul(F.add(a, b), c) == F.add(F.mul(a, c), F.mul(b, c))
  {
    hide *;
    MulComm(F, F.add(a, b), c);
    Distrib(F, c, a, b);
    MulComm(F, c, a);
    MulComm(F, c, b);
  }

  lemma AddSwap<T(!new)>(F: Field<T>, a: T, b: T, c: T, d: T)
    requires Lawful(F)
    ensures F.add(F.add(a, b), F.add(c, d)) == F.add(F.add(a, c), F.add(b, d))
  {
    hide *;
    AddAssoc(F, a, b, F.add(c, d));
    AddAssoc(F, b, c, d);
    AddComm(F, b, c);
    AddAssoc(F, c, b, d);
    AddAssoc(F, a, c, F.add(b, d));
  }

  lemma MulSwap3<T(!new)>(F: Field<T>, a: T, b: T, c: T)
    requires Lawful(F)
    ensures F.mul(F.mul(a, b), c) == F.mul(F.mul(a, c), b)
  {
    hide *;
    MulAssoc(F, a, b, c);
    MulComm(F, b, c);
    MulAssoc(F, a, c, b);
  }

  /** Adding is injective on the carrier. */
  lemma AddCancel<T(!new)>(F: Field<T>, a: T, b: T, c: T)
    requires Lawful(F) && F.has(a) && F.has(b) && F.add(a, c) == F.add(b, c)
    ensures a == b
  {
    hide *;
    AddAssoc(F, a, c, F.neg(c));
    AddAssoc(F, b, c, F.neg(c));
    Unit(F, a);
    Unit(F, b);
    Unit(F, c);
  }

  lemma MulZero<T(!new)>(F: Field<T>, a: T)
    requires Lawful(F)
    ensures F.mul(a, F.zero) == F.zero && F.mul(F.zero, a) == F.zero
  {
    hide *;
    var z := F.mul(a, F.zero);
    Has(F, a, F.zero);
    Unit(F, F.zero);
    Unit(F, z);
    Distrib(F, a, F.zero, F.zero);
    AddComm(F, F.zero, z);
    AddCancel(F, z, F.zero, z);
    MulComm(F, a, F.zero);
  }

  lemma NegUnique<T(!new)>(F: Field<T>, a: T, b: T)
    requires Lawful(F) && F.has(b) && F.add(a, b) == F.zero
    ensures b == F.neg(a)
  {
    hide *;
    Has(F, a, a);
    Unit(F, a);
    AddComm(F, a, b);
    AddComm(F, a, F.neg(a));
    AddCancel(F, b, F.neg(a), a);
  }

  lemma NegMul<T(!new)>(F: Field<T>, a: T, b: T)
    requires Lawful(F)
    ensures F.mul(F.neg(a), b) == F.neg(F.mul(a, b)) && F.mul(a, F.neg(b)) == F.neg(F.mul(a, b))
  {
    hide *;
    Has(F, F.neg(a), b);
    Has(F, a, F.neg(b));
    Unit(F, a);
    Unit(F, b);
    MulZero(F, a);
    MulZero(F, b);
    DistribRight(F, a, F.neg(a), b);
    Distrib(F, a, b, F.neg(b));
    NegUnique(F, F.mul(a, b), F.mul(F.neg(a), b));
    NegUnique(F, F.mul(a, b), F.mul(a, F.neg(b)));
  }

  lemma SubSelf<T(!new)>(F: Field<T>, a: T, b: T)
    requires Lawful(F) && F.has(a) && F.has(b)
    ensures F.Sub(a, b) == F.zero <==> a == b
  {
    hide Lawful;
    Unit(F, a);
    Unit(F, b);
    if F.Sub(a, b) == F.zero {
      AddCancel(F, a, b, F.neg(b));
    }
  }

  /** (a - b) + b = a. */
  lemma SubAdd<T(!new)>(F: Field<T>, a: T, b: T)
    requires Lawful(F) && F.has(a)
    ensures F.add(F.Sub(a, b), b) == a && F.add(b, F.Sub(a, b)) == a
  {
    hide Lawful;
    AddAssoc(F, a, F.neg(b), b);
    AddComm(F, F.neg(b), b);
    Unit(F, b);
    Unit(F, a);
    AddComm(F, b, F.Sub(a, b));
  }

  /** a - b = -(b - a). */
  lemma SubFlip<T(!new)>(F: Field<T>, a: T, b: T)
    requires Lawful(F)
    ensures F.Sub(a, b) == F.neg(F.Sub(b, a))
  {
    hide Lawful;
    AddSwap(F, b, F.neg(a), a, F.neg(b));
    AddSwap(F, b, a, F.neg(a), F.neg(b));
    AddComm(F, b, a);
    AddSwap(F, a, b, F.neg(a), F.neg(b));
    Unit(F, a);
    Unit(F, b);
    Has(F, a, F.neg(b));
    Has(F, a, b);
    Unit(F, F.zero);
    NegUnique(F, F.Sub(b, a), F.Sub(a, b));
  }

  lemma MulCancel<T(!new)>(F: Field<T>, a: T, b: T, c: T)
    requires Lawful(F) && F.has(a) && F.has(b) && F.has(c) && c != F.zero && F.mul(a, c) == F.mul(b, c)
    ensures a == b
  {
    hide *;
    MulAssoc(F, a, c, F.inv(c));
    MulAssoc(F, b, c, F.inv(c));
    Unit(F, a);
    Unit(F, b);
    Unit(F, c);
  }

  lemma MulNonZero<T(!new)>(F: Field<T>, a: T, b: T)
    requires Lawful(F) && F.has(a) && F.has(b)
    ensures F.mul(a, b) == F.zero <==> a == F.zero || b == F.zero
  {
    hide *;
    MulZero(F, a);
    MulZero(F, b);
    Has(F, a, b);
    if F.mul(a, b) == F.zero && b != F.zero {
      MulCancel(F, a, F.zero, b);
    }
  }

  /** 1/(ab) times a is 1/b. */
  lemma InvFactor<T(!new)>(F: Field<T>, a: T, b: T)
    requires Lawful(F) && F.has(a) && F.has(b) && a != F.zero && b != F.zero
    ensures F.mul(F.inv(F.mul(a, b)), a) == F.inv(b)
  {
    hide *;
    var i := F.inv(F.mul(a, b));
    MulNonZero(F, a, b);
    Has(F, a, b);
    Has(F, i, a);
    Has(F, b, b);
    Unit(F, F.mul(a, b));
    Unit(F, b);
    MulComm(F, i, F.mul(a, b));
    MulAssoc(F, i, a, b);
    MulComm(F, F.inv(b), b);
    MulCancel(F, F.mul(i, a), F.inv(b), b);
  }
}
