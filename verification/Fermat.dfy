/**
 Fermat's little theorem, by comparing the product of 1, ..., p-1 with the product of
 their multiples by a, which are the same numbers in another order.
 */
module Fermat {
  import opened NumberTheory
  import opened Sequences

  function Product(s: seq<int>): int
  {
    if s == [] then 1 else s[0] * Product(s[1..])
  }

  ghost predicate Within(s: seq<int>, k: int)
  {
    forall i :: 0 <= i < |s| ==> 1 <= s[i] <= k
  }

  lemma {:induction false} ProductWithout(s: seq<int>, i: nat)
    requires i < |s|
    ensures Product(s) == s[i] * Product(Without(s, i))
  {
    if i == 0 {
      assert Without(s, 0) == s[1..];
    } else {
      ProductWithout(s[1..], i - 1);
      assert Without(s, i)[1..] == Without(s[1..], i - 1);
      var rest := Product(Without(s[1..], i - 1));
      MulAssoc(s[0], s[i], rest);
      MulAssoc(s[i], s[0], rest);
    }
  }

  lemma {:induction false} PigeonholeLength(s: seq<int>, k: nat)
    requires Distinct(s) && Within(s, k)
    ensures |s| <= k
  {
    if s == [] {
    } else if i :| 0 <= i < |s| && s[i] == k {
      PigeonholeLength(Without(s, i), k - 1);
    } else {
      assert 1 <= s[0] <= k;
      PigeonholeLength(s, k - 1);
    }
  }

  function UpTo(k: nat): (s: seq<int>)
    ensures |s| == k && forall i :: 0 <= i < k ==> s[i] == i + 1
  {
    if k == 0 then [] else UpTo(k - 1) + [k]
  }

  lemma TopIndex(s: seq<int>, k: nat) returns (i: nat)
    requires |s| == k > 0 && Distinct(s) && Within(s, k)
    ensures i < |s| && s[i] == k
    ensures Distinct(Without(s, i)) && Within(Without(s, i), k - 1)
  {
    if forall j :: 0 <= j < |s| ==> s[j] != k { PigeonholeLength(s, k - 1); }
    i :| 0 <= i < |s| && s[i] == k;
  }

  /** k distinct numbers from 1..k have the product 1 * ... * k. */
  lemma {:induction false} DistinctProduct(s: seq<int>, k: nat)
    requires |s| == k && Distinct(s) && Within(s, k)
    ensures Product(s) == Product(UpTo(k))
  {
    if k > 0 {
      var i := TopIndex(s, k);
      ProductWithout(s, i);
      DistinctProduct(Without(s, i), k - 1);
      ProductSnoc(UpTo(k - 1), k);
      MulComm(k, Product(UpTo(k - 1)));
    }
  }

  /** The residues of a, 2a, ..., ka modulo p. */
  function Multiples(a: int, p: nat, k: nat): (s: seq<int>)
    requires p > 0
    ensures |s| == k && forall i :: 0 <= i < k ==> s[i] == (a * (i + 1)) % p
  {
    if k == 0 then [] else Multiples(a, p, k - 1) + [(a * k) % p]
  }

  lemma {:induction false} ProductSnoc(s: seq<int>, x: int)
    ensures Product(s + [x]) == Product(s) * x
  {
    ProductWithout(s + [x], |s|);
    assert Without(s + [x], |s|) == s;
  }

  lemma {:induction false} ProductMultiples(a: int, p: nat, k: nat)
    requires p > 0
    ensures Product(Multiples(a, p, k)) % p == (Pow(a, k) * Product(UpTo(k))) % p
  {
    if k > 0 {
      var m, u := Product(Multiples(a, p, k - 1)), Product(UpTo(k - 1));
      ProductMultiples(a, p, k - 1);
      ProductSnoc(Multiples(a, p, k - 1), (a * k) % p);
      ProductSnoc(UpTo(k - 1), k);
      ModIdem(a * k, p);
      CongMul2(m, Pow(a, k - 1) * u, (a * k) % p, a * k, p);
      MulInterchange(Pow(a, k - 1), u, a, k);
    }
  }

  lemma {:induction false} FactorialNotDivisible(p: nat, k: nat)
    requires Prime(p) && k < p
    ensures Product(UpTo(k)) % p != 0
  {
    if k == 0 {
      DivModUnique(1, p, 0, 1);
    } else {
      FactorialNotDivisible(p, k - 1);
      ProductSnoc(UpTo(k - 1), k);
      DivModUnique(k, p, 0, k);
      if Product(UpTo(k)) % p == 0 { Euclid(p, Product(UpTo(k - 1)), k); }
    }
  }

  lemma MultiplesDistinct(a: int, p: nat)
    requires Prime(p) && a % p != 0
    ensures Distinct(Multiples(a, p, p - 1))
    ensures Within(Multiples(a, p, p - 1), p - 1)
  {
    var s := Multiples(a, p, p - 1);
    forall i, j | 0 <= i < j < |s|
      ensures s[i] != s[j]
    {
      DivModUnique(i + 1, p, 0, i + 1);
      DivModUnique(j + 1, p, 0, j + 1);
      if s[i] == s[j] { CancelMod(p, a, i + 1, j + 1); }
    }
    forall i | 0 <= i < |s|
      ensures s[i] != 0
    {
      DivModUnique(i + 1, p, 0, i + 1);
      if s[i] == 0 { Euclid(p, a, i + 1); }
    }
  }

  lemma CancelFactor(p: nat, f: int, x: int)
    requires Prime(p) && f % p != 0 && (x * f) % p == f % p
    ensures x % p == 1
  {
    assert x * f == f * x && f == f * 1;
    CancelMod(p, f, x, 1);
    DivModUnique(1, p, 0, 1);
  }

  /** Fermat's little theorem. */
  lemma LittleTheorem(p: nat, a: int)
    requires Prime(p) && a % p != 0
    ensures Pow(a, p - 1) % p == 1
  {
    hide *;
    PrimeAtLeastTwo(p);
    var f := Product(UpTo(p - 1));
    MultiplesDistinct(a, p);
    DistinctProduct(Multiples(a, p, p - 1), p - 1);
    ProductMultiples(a, p, p - 1);
    FactorialNotDivisible(p, p - 1);
    CancelFactor(p, f, Pow(a, p - 1));
  }

  /** The exponent may be any multiple of p - 1. */
  lemma LittleTheoremMultiple(p: nat, a: int, e: nat)
    requires Prime(p) && a % p != 0 && e % (p - 1) == 0
    ensures Pow(a, e) % p == 1
  {
    var k := e / (p - 1);
    assert e == (p - 1) * k;
    assert k >= 0;
    PowMul(a, p - 1, k);
    LittleTheorem(p, a);
    DivModUnique(1, p, 0, 1);
    CongPow(Pow(a, p - 1), 1, k, p);
    OnePow(k);
  }
}
