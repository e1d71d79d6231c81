/** The integers modulo a prime q as a field: the scalar arithmetic of `k256::Scalar`. */
module PrimeFields {
  import opened NumberTheory
  import opened Fields
  import Fermat

  /** `invert` on nonzero scalars, as the (q-2)-th power. */
  function Inverse(q: nat, a: int): int
    requires q > 1
  {
    Pow(a, q - 2) % q
  }

  function Zq(q: nat): Field<int>
    requires q > 1
  {
    Field(0, 1,
          (a: int, b: int) => (a + b) % q,
          (a: int, b: int) => (a * b) % q,
          (a: int) => (-a) % q,
          (a: int) => Inverse(q, a),
          (a: int) => 0 <= a < q)
  }

  lemma AddAssociates(q: nat, a: int, b: int, c: int)
    requires q > 1
    ensures ((a + b) % q + c) % q == (a + (b + c) % q) % q
  {
    ModIdem(a + b, q);
    ModIdem(b + c, q);
    CongAdd((a + b) % q, a + b, c, c, q);
    CongAdd(a, a, (b + c) % q, b + c, q);
  }

  lemma MulAssociates(q: nat, a: int, b: int, c: int)
    requires q > 1
    ensures ((a * b) % q * c) % q == (a * ((b * c) % q)) % q
  {
    ModIdem(a * b, q);
    ModIdem(b * c, q);
    CongMul((a * b) % q, a * b, c, q);
    CongMul2(a, a, (b * c) % q, b * c, q);
    NumberTheory.MulAssoc(a, b, c);
  }

  lemma MulDistributes(q: nat, a: int, b: int, c: int)
    requires q > 1
    ensures (a * ((b + c) % q)) % q == ((a * b) % q + (a * c) % q) % q
  {
    ModIdem(b + c, q);
    ModIdem(a * b, q);
    ModIdem(a * c, q);
    CongMul2(a, a, (b + c) % q, b + c, q);
    CongAdd((a * b) % q, a * b, (a * c) % q, a * c, q);
    Distribute(b, c, a);
    NumberTheory.MulComm(b + c, a);
    NumberTheory.MulComm(b, a);
    NumberTheory.MulComm(c, a);
  }

  lemma AddInverse(q: nat, a: int)
    requires q > 1
    ensures (a + (-a) % q) % q == 0
  {
    ModIdem(-a, q);
    CongAdd(a, a, (-a) % q, -a, q);
    DivModUnique(0, q, 0, 0);
  }

  lemma MulInverse(q: nat, a: int)
    requires Prime(q) && 0 < a < q
    ensures (a * Inverse(q, a)) % q == 1
  {
    DivModUnique(a, q, 0, a);
    Fermat.LittleTheorem(q, a);
    ModIdem(Pow(a, q - 2), q);
    CongMul2(a, a, Inverse(q, a), Pow(a, q - 2), q);
  }

  lemma ZqAssociates(q: nat)
    requires q > 1
    ensures Associates(Zq(q))
  {
    var F := Zq(q);
    forall a, b, c
      ensures F.add(F.add(a, b), c) == F.add(a, F.add(b, c))
    {
      AddAssociates(q, a, b, c);
    }
    forall a, b, c
      ensures F.mul(F.mul(a, b), c) == F.mul(a, F.mul(b, c))
    {
      MulAssociates(q, a, b, c);
    }
  }

  lemma ZqDistributes(q: nat)
    requires q > 1
    ensures Distributes(Zq(q))
  {
    var F := Zq(q);
    forall a, b, c
      ensures F.mul(a, F.add(b, c)) == F.add(F.mul(a, b), F.mul(a, c))
    {
      MulDistributes(q, a, b, c);
    }
  }

  lemma ZqUnits(q: nat)
    requires Prime(q)
    ensures Units(Zq(q))
  {
    hide Pow, Inverse;
    var F := Zq(q);
    forall a
      ensures F.add(a, F.neg(a)) == F.zero
    {
      AddInverse(q, a);
    }
    forall a | F.has(a)
      ensures F.add(a, F.zero) == a && F.mul(a, F.one) == a
    {
      DivModUnique(a, q, 0, a);
    }
    forall a | F.has(a) && a != F.zero
      ensures F.mul(a, F.inv(a)) == F.one
    {
      MulInverse(q, a);
    }
  }

  /** Z/q is a field for every prime q. */
  lemma ZqLawful(q: nat)
    requires Prime(q)
    ensures Lawful(Zq(q))
  {
    hide Associates, Distributes, Units;
    ZqAssociates(q);
    ZqDistributes(q);
    ZqUnits(q);
    assert Commutes(Zq(q));
  }
}
