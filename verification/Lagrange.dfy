/**
 Lagrange interpolation at zero over any field: the weighted sum every reconstruction and every
 threshold signature in the repository computes returns the constant term of the shared polynomial.
 */
module Lagrange {
  import opened Fields
  import opened Polynomials
  import opened Sequences

  function Product<T>(F: Field<T>, s: seq<T>): T
  {
    if s == [] then F.one else F.mul(Product(F, s[..|s| - 1]), s[|s| - 1])
  }

  function Sum<T>(F: Field<T>, s: seq<T>): T
  {
    if s == [] then F.zero else F.add(Sum(F, s[..|s| - 1]), s[|s| - 1])
  }

  function Differences<T>(F: Field<T>, s: seq<T>, a: T): (r: seq<T>)
    ensures |r| == |s|
  {
    seq(|s|, i requires 0 <= i < |s| => F.Sub(s[i], a))
  }

  function Numerator<T>(F: Field<T>, xs: seq<T>, j: nat): T
    requires j < |xs|
  {
    Product(F, Without(xs, j))
  }

  function Denominator<T>(F: Field<T>, xs: seq<T>, j: nat): T
    requires j < |xs|
  {
    Product(F, Differences(F, Without(xs, j), xs[j]))
  }

  /** The Lagrange coefficient of the j-th point at zero. */
  function Weight<T>(F: Field<T>, xs: seq<T>, j: nat): T
    requires j < |xs|
  {
    F.mul(Numerator(F, xs, j), F.inv(Denominator(F, xs, j)))
  }

  function Terms<T>(F: Field<T>, xs: seq<T>, vs: seq<T>): (r: seq<T>)
    requires |xs| == |vs|
    ensures |r| == |xs|
  {
    seq(|xs|, j requires 0 <= j < |xs| => F.mul(Weight(F, xs, j), vs[j]))
  }

  function Weighted<T>(F: Field<T>, xs: seq<T>, vs: seq<T>): T
    requires |xs| == |vs|
  {
    Sum(F, Terms(F, xs, vs))
  }

  // --------------------------------------------------------------- sums and products

  lemma PrefixStep<T>(F: Field<T>, s: seq<T>, k: nat)
    requires k < |s|
    ensures Product(F, s[..k + 1]) == F.mul(Product(F, s[..k]), s[k])
    ensures Sum(F, s[..k + 1]) == F.add(Sum(F, s[..k]), s[k])
  {
    assert s[..k + 1][..k] == s[..k];
  }

  lemma SumHas<T(!new)>(F: Field<T>, s: seq<T>)
    requires Lawful(F)
    ensures F.has(Sum(F, s)) && F.has(Product(F, s))
  {
    hide Lawful;
    Has(F, F.zero, F.zero);
    if s != [] {
      Has(F, Sum(F, s[..|s| - 1]), s[|s| - 1]);
      Has(F, Product(F, s[..|s| - 1]), s[|s| - 1]);
    }
  }

  lemma {:induction false} ProductWithout<T(!new)>(F: Field<T>, s: seq<T>, i: nat)
    requires Lawful(F) && i < |s|
    ensures Product(F, s) == F.mul(Product(F, Without(s, i)), s[i])
  {
    hide Lawful, Without;
    var n := |s| - 1;
    WithoutInit(s, i);
    if i < n {
      ProductWithout(F, s[..n], i);
      assert Without(s, i)[..n - 1] == Without(s[..n], i);
      MulSwap3(F, Product(F, Without(s[..n], i)), s[i], s[n]);
    }
  }

  lemma {:induction false} SumWithout<T(!new)>(F: Field<T>, s: seq<T>, i: nat)
    requires Lawful(F) && i < |s|
    ensures Sum(F, s) == F.add(Sum(F, Without(s, i)), s[i])
  {
    hide Lawful, Without;
    var n := |s| - 1;
    WithoutInit(s, i);
    if i < n {
      SumWithout(F, s[..n], i);
      var m := Sum(F, Without(s[..n], i));
      assert Without(s, i)[..n - 1] == Without(s[..n], i);
      AddAssoc(F, m, s[i], s[n]);
      AddComm(F, s[i], s[n]);
      AddAssoc(F, m, s[n], s[i]);
    }
  }

  lemma {:induction false} ProductNonZero<T(!new)>(F: Field<T>, s: seq<T>)
    requires Lawful(F) && In(F, s) && F.zero !in s
    ensures Product(F, s) != F.zero
  {
    hide Lawful;
    Has(F, F.one, F.one);
    if s != [] {
      ProductNonZero(F, s[..|s| - 1]);
      SumHas(F, s[..|s| - 1]);
      MulNonZero(F, Product(F, s[..|s| - 1]), s[|s| - 1]);
    }
  }

  /** Sums are linear: the sum of u + k v is the sum of u plus k times the sum of v. */
  lemma {:induction false} SumCombine<T(!new)>(F: Field<T>, u: seq<T>, k: T, v: seq<T>)
    requires Lawful(F) && |u| == |v|
    ensures Sum(F, Combine(F, u, k, v)) == F.add(Sum(F, u), F.mul(k, Sum(F, v)))
  {
    hide Lawful;
    var n := |u| - 1;
    if u == [] {
      MulZero(F, k);
      Has(F, k, k);
      Unit(F, F.zero);
    } else {
      assert Combine(F, u, k, v)[..n] == Combine(F, u[..n], k, v[..n]);
      SumCombine(F, u[..n], k, v[..n]);
      AddSwap(F, Sum(F, u[..n]), F.mul(k, Sum(F, v[..n])), u[n], F.mul(k, v[n]));
      Distrib(F, k, Sum(F, v[..n]), v[n]);
    }
  }

  lemma {:induction false} SumScale<T(!new)>(F: Field<T>, k: T, v: seq<T>, w: seq<T>)
    requires Lawful(F) && |v| == |w|
    requires forall i :: 0 <= i < |v| ==> w[i] == F.mul(k, v[i])
    ensures Sum(F, w) == F.mul(k, Sum(F, v))
  {
    hide Lawful;
    if v == [] {
      MulZero(F, k);
    } else {
      var n := |v| - 1;
      SumScale(F, k, v[..n], w[..n]);
      Distrib(F, k, Sum(F, v[..n]), v[n]);
    }
  }

  // ------------------------------------------------------------- leaving out a point

  lemma DifferencesWithout<T>(F: Field<T>, s: seq<T>, a: T, i: nat)
    requires i < |s|
    ensures Differences(F, Without(s, i), a) == Without(Differences(F, s, a), i)
  {
  }

  lemma DenominatorNonZero<T(!new)>(F: Field<T>, xs: seq<T>, j: nat)
    requires Lawful(F) && In(F, xs) && Distinct(xs) && j < |xs|
    ensures Denominator(F, xs, j) != F.zero && F.has(Denominator(F, xs, j))
  {
    hide Lawful;
    var rest := Without(xs, j);
    var ds := Differences(F, rest, xs[j]);
    WithoutDistinct(xs, j);
    forall i | 0 <= i < |rest|
      ensures F.has(ds[i]) && ds[i] != F.zero
    {
      Has(F, rest[i], F.neg(xs[j]));
      assert rest[i] in rest;
      SubSelf(F, rest[i], xs[j]);
    }
    ProductNonZero(F, ds);
    SumHas(F, ds);
  }

  /** Numerator and denominator factor through the points without the r-th. */
  lemma WeightFactors<T(!new)>(F: Field<T>, xs: seq<T>, j: nat, r: nat)
    requires Lawful(F) && j < |xs| && r < |xs| && j != r
    ensures var j' := if j < r then j else j - 1;
            && Without(xs, r)[j'] == xs[j]
            && Numerator(F, xs, j) == F.mul(Numerator(F, Without(xs, r), j'), xs[r])
            && Denominator(F, xs, j) == F.mul(Denominator(F, Without(xs, r), j'), F.Sub(xs[r], xs[j]))
  {
    hide Lawful, Product;
    var r' := if r < j then r else r - 1;
    var rest := Without(xs, j);
    WithoutTwo(xs, j, r);
    WithoutTwo(xs, r, j);
    ProductWithout(F, rest, r');
    DifferencesWithout(F, rest, xs[j], r');
    ProductWithout(F, Differences(F, rest, xs[j]), r');
  }

  /** w_j (x_j - x_r) over all points is -x_r w_j over the points without x_r. */
  lemma WeightDrop<T(!new)>(F: Field<T>, xs: seq<T>, j: nat, r: nat)
    requires Lawful(F) && In(F, xs) && Distinct(xs) && j < |xs| && r < |xs| && j != r
    ensures F.mul(Weight(F, xs, j), F.Sub(xs[j], xs[r]))
         == F.mul(F.neg(xs[r]), Weight(F, Without(xs, r), if j < r then j else j - 1))
  {
    hide Lawful, Numerator, Denominator;
    var j' := if j < r then j else j - 1;
    var rest := Without(xs, r);
    var n', d' := Numerator(F, rest, j'), Denominator(F, rest, j');
    var d := F.Sub(xs[r], xs[j]);
    var i := F.inv(F.mul(d', d));
    WeightFactors(F, xs, j, r);
    WithoutDistinct(xs, r);
    DenominatorNonZero(F, rest, j');
    SubSelf(F, xs[r], xs[j]);
    Has(F, xs[r], F.neg(xs[j]));
    calc {
      F.mul(Weight(F, xs, j), F.Sub(xs[j], xs[r]));
      { SubFlip(F, xs[j], xs[r]); NegMul(F, Weight(F, xs, j), d); }
      F.neg(F.mul(F.mul(F.mul(n', xs[r]), i), d));
      { MulAssoc(F, F.mul(n', xs[r]), i, d); MulComm(F, d', d); InvFactor(F, d, d'); }
      F.neg(F.mul(F.mul(n', xs[r]), F.inv(d')));
      { MulComm(F, n', xs[r]); MulAssoc(F, xs[r], n', F.inv(d')); }
      F.neg(F.mul(xs[r], F.mul(n', F.inv(d'))));
      { NegMul(F, xs[r], F.mul(n', F.inv(d'))); }
      F.mul(F.neg(xs[r]), F.mul(n', F.inv(d')));
    }
  }

  lemma TermDrop<T(!new)>(F: Field<T>, xs: seq<T>, j: nat, r: nat, h: T)
    requires Lawful(F) && In(F, xs) && Distinct(xs) && j < |xs| && r < |xs| && j != r
    ensures F.mul(Weight(F, xs, j), F.mul(F.Sub(xs[j], xs[r]), h))
         == F.mul(F.neg(xs[r]), F.mul(Weight(F, Without(xs, r), if j < r then j else j - 1), h))
  {
    hide Lawful, Weight;
    WeightDrop(F, xs, j, r);
    MulAssoc(F, Weight(F, xs, j), F.Sub(xs[j], xs[r]), h);
    MulAssoc(F, F.neg(xs[r]), Weight(F, Without(xs, r), if j < r then j else j - 1), h);
  }

  /** Values that vanish at x_r: the weighted sum drops the point. */
  lemma DropPoint<T(!new)>(F: Field<T>, xs: seq<T>, vs: seq<T>, hs: seq<T>, r: nat)
    requires Lawful(F) && In(F, xs) && Distinct(xs) && r < |xs| && |vs| == |hs| == |xs|
    requires forall j :: 0 <= j < |xs| ==> vs[j] == F.mul(F.Sub(xs[j], xs[r]), hs[j])
    ensures Weighted(F, xs, vs) == F.mul(F.neg(xs[r]), Weighted(F, Without(xs, r), Without(hs, r)))
  {
    hide Lawful, Weight, Sum, Without;
    var terms := Terms(F, xs, vs);
    var rest, hs' := Without(xs, r), Without(hs, r);
    SumWithout(F, terms, r);
    assert terms[r] == F.zero by {
      SubSelf(F, xs[r], xs[r]);
      MulZero(F, hs[r]);
      MulZero(F, Weight(F, xs, r));
    }
    SumHas(F, Without(terms, r));
    Unit(F, Sum(F, Without(terms, r)));
    forall i | 0 <= i < |rest|
      ensures Without(terms, r)[i] == F.mul(F.neg(xs[r]), Terms(F, rest, hs')[i])
    {
      var j := if i < r then i else i + 1;
      TermDrop(F, xs, j, r, hs[j]);
      WithoutAt(terms, r, i);
      WithoutAt(hs, r, i);
    }
    SumScale(F, F.neg(xs[r]), Terms(F, rest, hs'), Without(terms, r));
  }

  lemma WeightedCombine<T(!new)>(F: Field<T>, xs: seq<T>, u: seq<T>, k: T, v: seq<T>)
    requires Lawful(F) && |xs| == |u| == |v|
    ensures Weighted(F, xs, Combine(F, u, k, v)) == F.add(Weighted(F, xs, u), F.mul(k, Weighted(F, xs, v)))
  {
    hide Lawful, Weight;
    var tu, tv := Terms(F, xs, u), Terms(F, xs, v);
    forall j | 0 <= j < |xs|
      ensures Terms(F, xs, Combine(F, u, k, v))[j] == Combine(F, tu, k, tv)[j]
    {
      var w := Weight(F, xs, j);
      Distrib(F, w, u[j], F.mul(k, v[j]));
      MulAssoc(F, w, k, v[j]);
      MulComm(F, w, k);
      MulAssoc(F, k, w, v[j]);
    }
    assert Terms(F, xs, Combine(F, u, k, v)) == Combine(F, tu, k, tv);
    SumCombine(F, tu, k, tv);
  }

  ghost function Ones<T>(F: Field<T>, n: nat): (s: seq<T>)
    ensures |s| == n
  {
    seq(n, i => F.one)
  }

  /** x_j - x_r at every point. */
  ghost function Shifted<T>(F: Field<T>, xs: seq<T>, r: nat): (s: seq<T>)
    requires r < |xs|
    ensures |s| == |xs|
  {
    Differences(F, xs, xs[r])
  }

  /** The Lagrange coefficients add up to one. */
  lemma {:induction false} WeightsSumToOne<T(!new)>(F: Field<T>, xs: seq<T>)
    requires Lawful(F) && In(F, xs) && Distinct(xs) && xs != []
    ensures Weighted(F, xs, Ones(F, |xs|)) == F.one
    decreases |xs|
  {
    hide Lawful;
    Has(F, F.one, F.one);
    Unit(F, F.one);
    if |xs| == 1 {
      SingleWeight(F, xs);
    } else {
      var b := |xs| - 1;
      WeightedShift(F, xs, 0);
      WeightedShift(F, xs, b);
      WeightsSumToOneStep(F, xs, b);
    }
  }

  lemma SingleWeight<T(!new)>(F: Field<T>, xs: seq<T>)
    requires Lawful(F) && |xs| == 1
    ensures Weighted(F, xs, Ones(F, 1)) == F.one
  {
    hide Lawful;
    Has(F, F.one, F.one);
    Unit(F, F.one);
    assert Without(xs, 0) == [];
    assert Differences(F, Without(xs, 0), xs[0]) == [];
    assert Numerator(F, xs, 0) == F.one && Denominator(F, xs, 0) == F.one;
    assert Weight(F, xs, 0) == F.one;
    var t := Terms(F, xs, Ones(F, 1));
    assert t == [F.one];
    assert Sum(F, [F.one]) == F.add(Sum(F, [F.one][..0]), F.one);
    assert [F.one][..0] == [];
    AddComm(F, F.zero, F.one);
  }

  lemma {:induction false} WeightedShift<T(!new)>(F: Field<T>, xs: seq<T>, r: nat)
    requires Lawful(F) && In(F, xs) && Distinct(xs) && |xs| > 1 && r < |xs|
    ensures Weighted(F, xs, Shifted(F, xs, r)) == F.neg(xs[r])
    decreases |xs|, 0
  {
    hide Lawful, Weighted;
    forall j | 0 <= j < |xs|
      ensures Shifted(F, xs, r)[j] == F.mul(F.Sub(xs[j], xs[r]), Ones(F, |xs|)[j])
    {
      Has(F, xs[j], F.neg(xs[r]));
      Unit(F, F.Sub(xs[j], xs[r]));
    }
    DropPoint(F, xs, Shifted(F, xs, r), Ones(F, |xs|), r);
    assert Without(Ones(F, |xs|), r) == Ones(F, |xs| - 1);
    WithoutDistinct(xs, r);
    WeightsSumToOne(F, Without(xs, r));
    Has(F, xs[r], xs[r]);
    Unit(F, F.neg(xs[r]));
  }

  lemma WeightsSumToOneStep<T(!new)>(F: Field<T>, xs: seq<T>, b: nat)
    requires Lawful(F) && In(F, xs) && Distinct(xs) && 0 < b < |xs|
    requires Weighted(F, xs, Shifted(F, xs, 0)) == F.neg(xs[0])
    requires Weighted(F, xs, Shifted(F, xs, b)) == F.neg(xs[b])
    ensures Weighted(F, xs, Ones(F, |xs|)) == F.one
  {
    hide Lawful, Weighted;
    var k := F.Sub(xs[b], xs[0]);
    var s := Weighted(F, xs, Ones(F, |xs|));
    Has(F, xs[b], F.neg(xs[0]));
    Unit(F, k);
    forall j | 0 <= j < |xs|
      ensures Shifted(F, xs, 0)[j] == Combine(F, Shifted(F, xs, b), k, Ones(F, |xs|))[j]
    {
      Telescope(F, xs[j], xs[b], xs[0]);
    }
    assert Shifted(F, xs, 0) == Combine(F, Shifted(F, xs, b), k, Ones(F, |xs|));
    WeightedCombine(F, xs, Shifted(F, xs, b), k, Ones(F, |xs|));
    SubSelf(F, xs[b], xs[0]);
    WeightedHas(F, xs, Ones(F, |xs|));
    SolveForOne(F, xs[0], xs[b], s);
  }

  lemma WeightedHas<T(!new)>(F: Field<T>, xs: seq<T>, vs: seq<T>)
    requires Lawful(F) && |xs| == |vs|
    ensures F.has(Weighted(F, xs, vs))
  {
    hide Lawful;
    SumHas(F, Terms(F, xs, vs));
  }

  /** a - c = (a - b) + (b - c). */
  lemma Telescope<T(!new)>(F: Field<T>, a: T, b: T, c: T)
    requires Lawful(F) && F.has(a)
    ensures F.Sub(a, c) == F.add(F.Sub(a, b), F.Sub(b, c))
  {
    hide Lawful;
    AddAssoc(F, F.Sub(a, b), b, F.neg(c));
    SubAdd(F, a, b);
  }

  /** -a = -b + (b - a) s forces s = 1 when a and b differ. */
  lemma SolveForOne<T(!new)>(F: Field<T>, a: T, b: T, s: T)
    requires Lawful(F) && F.has(a) && F.has(b) && F.has(s) && a != b
    requires F.neg(a) == F.add(F.neg(b), F.mul(F.Sub(b, a), s))
    ensures s == F.one
  {
    hide Lawful;
    var k := F.Sub(b, a);
    Has(F, b, F.neg(a));
    Has(F, k, s);
    Has(F, F.one, F.one);
    Unit(F, k);
    SubSelf(F, b, a);
    // b - a = b + (-b + k s) = k s
    AddAssoc(F, b, F.neg(b), F.mul(k, s));
    Unit(F, b);
    AddComm(F, F.zero, F.mul(k, s));
    Unit(F, F.mul(k, s));
    MulComm(F, k, s);
    MulComm(F, k, F.one);
    MulCancel(F, s, F.one, k);
  }

  // ---------------------------------------------------------------------- the theorem

  ghost function Values<T>(F: Field<T>, p: seq<T>, xs: seq<T>): (vs: seq<T>)
    ensures |vs| == |xs|
  {
    seq(|xs|, j requires 0 <= j < |xs| => Eval(F, p, xs[j]))
  }

  /**
   Interpolation at zero: over distinct points, at least as many as the polynomial has
   coefficients, the weighted sum of its values is its constant term.
   */
  lemma {:induction false} InterpolatesAtZero<T(!new)>(F: Field<T>, p: seq<T>, xs: seq<T>)
    requires Lawful(F) && In(F, p) && In(F, xs) && Distinct(xs) && p != [] && |p| <= |xs|
    ensures Weighted(F, xs, Values(F, p, xs)) == Eval(F, p, F.zero)
    decreases |p|
  {
    hide Lawful, Weighted;
    var b := |xs| - 1;
    var c := Eval(F, p, xs[b]);
    var h := Divide(F, p, xs[b]);
    var hs := Values(F, h, xs);
    var u := seq(|xs|, j requires 0 <= j < |xs| => F.mul(F.Sub(xs[j], xs[b]), hs[j]));
    EvalHas(F, p, xs[b]);
    Has(F, F.zero, F.zero);
    Unit(F, c);
    forall j | 0 <= j < |xs|
      ensures Values(F, p, xs)[j] == Combine(F, u, c, Ones(F, |xs|))[j]
    {
      DivideEval(F, p, xs[b], xs[j]);
    }
    assert Values(F, p, xs) == Combine(F, u, c, Ones(F, |xs|));
    WeightedCombine(F, xs, u, c, Ones(F, |xs|));
    WeightsSumToOne(F, xs);
    DropPoint(F, xs, u, hs, b);
    assert Without(hs, b) == Values(F, h, Without(xs, b));
    DivideEval(F, p, xs[b], F.zero);
    NegOf(F, xs[b]);
    DivideIn(F, p, xs[b]);
    WithoutDistinct(xs, b);
    if h == [] {
      EmptyWeighted(F, Without(xs, b), h);
    } else {
      InterpolatesAtZero(F, h, Without(xs, b));
    }
  }

  /** 0 - a = -a. */
  lemma NegOf<T(!new)>(F: Field<T>, a: T)
    requires Lawful(F)
    ensures F.Sub(F.zero, a) == F.neg(a)
  {
    hide Lawful;
    Has(F, a, a);
    AddComm(F, F.zero, F.neg(a));
    Unit(F, F.neg(a));
  }

  /** The zero polynomial interpolates to zero. */
  lemma EmptyWeighted<T(!new)>(F: Field<T>, xs: seq<T>, p: seq<T>)
    requires Lawful(F) && p == []
    ensures Weighted(F, xs, Values(F, p, xs)) == Eval(F, p, F.zero)
  {
    hide Lawful, Weight;
    var vs := Values(F, p, xs);
    forall i | 0 <= i < |xs|
      ensures Terms(F, xs, vs)[i] == F.mul(F.zero, Terms(F, xs, vs)[i])
    {
      MulZero(F, Weight(F, xs, i));
      MulZero(F, F.zero);
    }
    SumScale(F, F.zero, Terms(F, xs, vs), Terms(F, xs, vs));
    MulZero(F, Weighted(F, xs, vs));
  }
}
