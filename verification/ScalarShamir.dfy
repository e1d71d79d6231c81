/**
 Shamir sharing over the scalar field (crates/custody/src/shamir.rs) and the Lagrange
 coefficient of threshold signing (crates/custody/src/threshold.rs), for any prime q.
 */
module ScalarShamir {
  import opened Wrappers
  import opened NumberTheory
  import opened Fields
  import opened PrimeFields
  import opened Polynomials
  import opened Sequences
  import opened Lagrange

  datatype Share = Share(x: int, y: int)

  datatype ShareError = BadParams

  function Xs(shares: seq<Share>): (xs: seq<int>)
    ensures |xs| == |shares|
  {
    seq(|shares|, i requires 0 <= i < |shares| => shares[i].x)
  }

  function Ys(shares: seq<Share>): (ys: seq<int>)
    ensures |ys| == |shares|
  {
    seq(|shares|, i requires 0 <= i < |shares| => shares[i].y)
  }

  // -------------------------------------------------------------------------- split

  method EvalScalar(q: nat, coeffs: seq<int>, x: int) returns (acc: int)
    requires q > 1
    ensures acc == Eval(Zq(q), coeffs, x)
  {
    var F := Zq(q);
    acc := F.zero;
    var i := |coeffs|;
    while i > 0
      invariant 0 <= i <= |coeffs|
      invariant acc == Eval(F, coeffs[i..], x)
    {
      i := i - 1;
      assert coeffs[i..][1..] == coeffs[i + 1..];
      acc := F.add(F.mul(acc, x), coeffs[i]);
    }
    assert coeffs[0..] == coeffs;
  }

  /** The share the dealer hands to party i, counted from 1. */
  function ShareAt(q: nat, coeffs: seq<int>, i: nat): Share
    requires q > 1
  {
    Share(i % q, Eval(Zq(q), coeffs, i % q))
  }

  /** `split`; `draws` are the random coefficients. */
  method Split(q: nat, secret: int, threshold: nat, shares: nat, draws: seq<int>)
    returns (result: Result<seq<Share>, ShareError>)
    requires q > 1 && |draws| + 1 >= threshold
    ensures result.Ok? <==> 0 < threshold <= shares
    ensures result.Ok? ==>
              && |result.value| == shares
              && forall i :: 0 <= i < shares ==>
                   result.value[i] == ShareAt(q, [secret] + draws[..threshold - 1], i + 1)
  {
    if threshold == 0 || threshold > shares {
      return Err(BadParams);
    }
    var coeffs := [secret];
    for i := 1 to threshold
      invariant coeffs == [secret] + draws[..i - 1]
    {
      coeffs := coeffs + [draws[i - 1]];
    }
    var out := [];
    for index := 1 to shares + 1
      invariant |out| == index - 1
      invariant forall i :: 0 <= i < |out| ==> out[i] == ShareAt(q, coeffs, i + 1)
    {
      var y := EvalScalar(q, coeffs, index % q);
      out := out + [Share(index % q, y)];
    }
    return Ok(out);
  }

  // -------------------------------------------------------------------- reconstruct

  /** A share's contribution; a point repeated elsewhere contributes nothing. */
  function Contribution(F: Field<int>, shares: seq<Share>, j: nat): int
    requires j < |shares|
  {
    var d := Denominator(F, Xs(shares), j);
    if d == F.zero then F.zero else F.mul(F.mul(shares[j].y, Numerator(F, Xs(shares), j)), F.inv(d))
  }

  function Contributions(F: Field<int>, shares: seq<Share>): (s: seq<int>)
    ensures |s| == |shares|
  {
    seq(|shares|, j requires 0 <= j < |shares| => Contribution(F, shares, j))
  }

  lemma WithoutShift(xs: seq<int>, j: nat, m: nat)
    requires j < |xs| && m < |xs| && m != j
    ensures var k := if m < j then m else m - 1;
            k < |xs| - 1 && Without(xs, j)[k] == xs[m]
  {
  }

  lemma EmptyPrefix(F: Field<int>, s: seq<int>)
    ensures Product(F, s[..0]) == F.one && Sum(F, s[..0]) == F.zero
  {
  }

  /** The inner loop: numerator and denominator of the j-th coefficient. */
  method Fraction(F: Field<int>, xs: seq<int>, j: nat) returns (numerator: int, denominator: int)
    requires j < |xs|
    ensures numerator == Numerator(F, xs, j) && denominator == Denominator(F, xs, j)
  {
    hide Product, Without;
    numerator, denominator := F.one, F.one;
    ghost var rest := Without(xs, j);
    ghost var ds := Differences(F, rest, xs[j]);
    ghost var k := 0;
    EmptyPrefix(F, rest);
    EmptyPrefix(F, ds);
    for m := 0 to |xs|
      invariant k == if m <= j then m else m - 1
      invariant numerator == Product(F, rest[..k])
      invariant denominator == Product(F, ds[..k])
    {
      if m != j {
        WithoutShift(xs, j, m);
        PrefixStep(F, rest, k);
        PrefixStep(F, ds, k);
        numerator := F.mul(numerator, xs[m]);
        denominator := F.mul(denominator, F.Sub(xs[m], xs[j]));
        k := k + 1;
      }
    }
    assert rest[..k] == rest && ds[..k] == ds;
  }

  method Reconstruct(q: nat, shares: seq<Share>) returns (secret: int)
    requires q > 1
    ensures secret == Sum(Zq(q), Contributions(Zq(q), shares))
  {
    var F := Zq(q);
    secret := F.zero;
    ghost var terms := Contributions(F, shares);
    for j := 0 to |shares|
      invariant secret == Sum(F, terms[..j])
    {
      var numerator, denominator := Fraction(F, Xs(shares), j);
      PrefixStep(F, terms, j);
      SumHasZq(q, terms[..j]);
      if denominator != F.zero {
        secret := F.add(secret, F.mul(F.mul(shares[j].y, numerator), F.inv(denominator)));
      }
    }
    assert terms[..|shares|] == terms;
  }

  /** Adding zero to a running sum leaves it alone. */
  lemma SumHasZq(q: nat, s: seq<int>)
    requires q > 1
    ensures Zq(q).add(Sum(Zq(q), s), 0) == Sum(Zq(q), s)
  {
    DivModUnique(0, q, 0, 0);
    if s != [] {
      ModIdem(Sum(Zq(q), s[..|s| - 1]) + s[|s| - 1], q);
    }
  }

  // ---------------------------------------------------------------- correctness

  /** Distinct points of one polynomial. */
  ghost predicate SharesOf(q: nat, p: seq<int>, shares: seq<Share>)
    requires q > 1
  {
    && Distinct(Xs(shares))
    && forall i :: 0 <= i < |shares| ==>
         0 <= shares[i].x < q && shares[i].y == Eval(Zq(q), p, shares[i].x)
  }

  ghost predicate Scalars(q: nat, s: seq<int>)
  {
    forall i :: 0 <= i < |s| ==> 0 <= s[i] < q
  }

  /** Any sharing quorum's weighted sum is the secret. */
  lemma QuorumWeighted(q: nat, p: seq<int>, shares: seq<Share>)
    requires Prime(q) && p != [] && Scalars(q, p) && SharesOf(q, p, shares) && |p| <= |shares|
    ensures Weighted(Zq(q), Xs(shares), Ys(shares)) == p[0]
  {
    var F := Zq(q);
    hide Lawful;
    ZqLawful(q);
    assert In(F, p) && In(F, Xs(shares));
    assert Ys(shares) == Values(F, p, Xs(shares));
    InterpolatesAtZero(F, p, Xs(shares));
    EvalZero(F, p);
  }

  lemma ContributionIsTerm(F: Field<int>, shares: seq<Share>, j: nat)
    requires Lawful(F) && In(F, Xs(shares)) && Distinct(Xs(shares)) && j < |shares|
    ensures Contribution(F, shares, j) == Terms(F, Xs(shares), Ys(shares))[j]
  {
    hide Lawful, Numerator, Denominator;
    var xs := Xs(shares);
    var n, i := Numerator(F, xs, j), F.inv(Denominator(F, xs, j));
    DenominatorNonZero(F, xs, j);
    Fields.MulComm(F, shares[j].y, n);
    MulSwap3(F, n, shares[j].y, i);
    assert Contribution(F, shares, j) == F.mul(F.mul(shares[j].y, n), i);
    assert Terms(F, xs, Ys(shares))[j] == F.mul(Weight(F, xs, j), Ys(shares)[j]);
    assert Ys(shares)[j] == shares[j].y;
  }

  /** With distinct points `reconstruct` computes the weighted sum. */
  lemma ContributionsAreTerms(q: nat, shares: seq<Share>)
    requires Prime(q) && Distinct(Xs(shares)) && Scalars(q, Xs(shares))
    ensures Contributions(Zq(q), shares) == Terms(Zq(q), Xs(shares), Ys(shares))
  {
    hide Lawful, Contribution, Weight;
    var F := Zq(q);
    ZqLawful(q);
    assert In(F, Xs(shares));
    hide Zq;
    forall j | 0 <= j < |shares|
      ensures Contributions(F, shares)[j] == Terms(F, Xs(shares), Ys(shares))[j]
    {
      ContributionIsTerm(F, shares, j);
    }
  }

  /** Reconstruction returns the secret from any quorum of distinct shares of at least t parties. */
  lemma ReconstructsSecret(q: nat, p: seq<int>, shares: seq<Share>)
    requires Prime(q) && p != [] && Scalars(q, p) && SharesOf(q, p, shares) && |p| <= |shares|
    ensures Sum(Zq(q), Contributions(Zq(q), shares)) == p[0]
  {
    ContributionsAreTerms(q, shares);
    QuorumWeighted(q, p, shares);
  }

  /** Shares picked from one split at distinct positions form a quorum. */
  lemma PickedSharesOf(q: nat, p: seq<int>, dealt: seq<Share>, picks: seq<nat>, shares: seq<Share>)
    requires q > 1 && |dealt| < q && forall i :: 0 <= i < |dealt| ==> dealt[i] == ShareAt(q, p, i + 1)
    requires Distinct(picks) && |shares| == |picks|
    requires forall i :: 0 <= i < |picks| ==> picks[i] < |dealt| && shares[i] == dealt[picks[i]]
    ensures SharesOf(q, p, shares)
  {
    forall i | 0 <= i < |picks|
      ensures shares[i].x == picks[i] + 1 && shares[i].y == Eval(Zq(q), p, shares[i].x)
    {
      DivModUnique(picks[i] + 1, q, 0, picks[i] + 1);
    }
    forall i, j | 0 <= i < j < |shares|
      ensures Xs(shares)[i] != Xs(shares)[j]
    {
      assert picks[i] != picks[j];
    }
  }

  /** A point that occurs again contributes nothing, whatever the shares say. */
  lemma RepeatedContributesNothing(q: nat, shares: seq<Share>, j: nat, m: nat)
    requires Prime(q) && j < |shares| && m < |shares| && j != m && shares[j].x == shares[m].x
    ensures Contribution(Zq(q), shares, j) == 0
  {
    hide Lawful, Product;
    var F, xs := Zq(q), Xs(shares);
    ZqLawful(q);
    WithoutShift(xs, j, m);
    var k := if m < j then m else m - 1;
    var ds := Differences(F, Without(xs, j), xs[j]);
    SelfDifference(q, xs[j]);
    assert ds[k] == 0;
    ProductWithZero(F, ds, k);
  }

  lemma SelfDifference(q: nat, a: int)
    requires q > 1
    ensures Zq(q).Sub(a, a) == 0
  {
    ModIdem(-a, q);
    CongAdd(a, a, (-a) % q, -a, q);
    DivModUnique(0, q, 0, 0);
  }

  lemma {:induction false} ProductWithZero(F: Field<int>, s: seq<int>, k: nat)
    requires Lawful(F) && k < |s| && s[k] == F.zero
    ensures Product(F, s) == F.zero
    decreases |s|
  {
    hide Lawful;
    var n := |s| - 1;
    if k < n {
      ProductWithZero(F, s[..n], k);
      MulZero(F, s[n]);
      Fields.MulComm(F, Product(F, s[..n]), s[n]);
    } else {
      MulZero(F, Product(F, s[..n]));
      Fields.MulComm(F, Product(F, s[..n]), s[n]);
    }
  }

  /**
   Fewer than t shares fix nothing: for shares dealt with some coefficients and any candidate secret,
   exactly one other choice of coefficients deals the same shares at those points.
   */
  lemma SplitHides(q: nat, secret: int, draws: seq<int>, candidate: int, points: seq<int>) returns (others: seq<int>)
    requires Prime(q) && 0 <= candidate < q && |draws| == |points|
    requires Distinct(points) && Scalars(q, points) && 0 !in points
    ensures |others| == |points| && Scalars(q, others)
    ensures q > 1 && forall i :: 0 <= i < |points| ==>
              Eval(Zq(q), [candidate] + others, points[i]) == Eval(Zq(q), [secret] + draws, points[i])
    ensures forall o: seq<int> ::
              && |o| == |points| && Scalars(q, o)
              && (forall i :: 0 <= i < |points| ==>
                    Eval(Zq(q), [candidate] + o, points[i]) == Eval(Zq(q), [secret] + draws, points[i]))
              ==> o == others
  {
    hide Lawful, Eval;
    var F := Zq(q);
    ZqLawful(q);
    var observed := seq(|points|, i requires 0 <= i < |points| => Eval(F, [secret] + draws, points[i]));
    forall i | 0 <= i < |points|
      ensures F.has(observed[i])
    {
      EvalHas(F, [secret] + draws, points[i]);
    }
    var xs, ys := [0] + points, [candidate] + observed;
    assert In(F, xs) && In(F, ys) && Distinct(xs);
    var coeffs := InterpolantExists(F, xs, ys);
    assert Eval(F, coeffs, xs[0]) == ys[0];
    EvalZero(F, coeffs);
    others := coeffs[1..];
    assert coeffs == [candidate] + others;
    forall i | 0 <= i < |points|
      ensures Eval(F, [candidate] + others, points[i]) == observed[i]
    {
      assert xs[i + 1] == points[i] && ys[i + 1] == observed[i];
    }
    forall o: seq<int> |
      && |o| == |points| && Scalars(q, o)
      && (forall i :: 0 <= i < |points| ==> Eval(F, [candidate] + o, points[i]) == Eval(F, [secret] + draws, points[i]))
      ensures o == others
    {
      var c := [candidate] + o;
      EvalZero(F, c);
      forall i | 0 <= i < |xs|
        ensures Eval(F, c, xs[i]) == ys[i]
      {
        if i > 0 { assert xs[i] == points[i - 1] && ys[i] == observed[i - 1]; }
      }
      assert In(F, c);
      InterpolantUnique(F, c, coeffs, xs, ys);
      assert o == c[1..];
    }
  }

  // -------------------------------------------------- the threshold coefficient

  /** The indices other than x, in order. */
  function Others(indices: seq<int>, x: int): seq<int>
  {
    if indices == [] then []
    else
      var n := |indices| - 1;
      Others(indices[..n], x) + (if indices[n] == x then [] else [indices[n]])
  }

  /** `lagrange_coefficient`: skips by value, and reads a zero denominator's inverse as zero. */
  function Coefficient(F: Field<int>, indices: seq<int>, x: int): int
  {
    var others := Others(indices, x);
    var d := Product(F, Differences(F, others, x));
    F.mul(Product(F, others), if d == F.zero then F.zero else F.inv(d))
  }

  method LagrangeCoefficient(q: nat, indices: seq<int>, x: int) returns (c: int)
    requires q > 1
    ensures c == Coefficient(Zq(q), indices, x)
  {
    var F := Zq(q);
    var numerator, denominator := F.one, F.one;
    for i := 0 to |indices|
      invariant numerator == Product(F, Others(indices[..i], x))
      invariant denominator == Product(F, Differences(F, Others(indices[..i], x), x))
    {
      ghost var before := Others(indices[..i], x);
      assert indices[..i + 1][..i] == indices[..i];
      if indices[i] != x {
        OthersStep(F, before, indices[i], x);
        numerator := F.mul(numerator, indices[i]);
        denominator := F.mul(denominator, F.Sub(indices[i], x));
      } else {
        assert before + [] == before;
      }
    }
    assert indices[..|indices|] == indices;
    c := F.mul(numerator, if denominator == F.zero then F.zero else F.inv(denominator));
  }

  lemma OthersStep(F: Field<int>, s: seq<int>, m: int, x: int)
    ensures Product(F, s + [m]) == F.mul(Product(F, s), m)
    ensures Product(F, Differences(F, s + [m], x)) == F.mul(Product(F, Differences(F, s, x)), F.Sub(m, x))
  {
    assert (s + [m])[..|s|] == s;
    var d := Differences(F, s + [m], x);
    assert d[..|s|] == Differences(F, s, x);
  }

  lemma {:induction false} OthersAbsent(s: seq<int>, x: int)
    requires x !in s
    ensures Others(s, x) == s
  {
    if s != [] {
      var n := |s| - 1;
      OthersAbsent(s[..n], x);
      assert s == s[..n] + [s[n]];
    }
  }

  lemma {:induction false} OthersWithout(s: seq<int>, i: nat)
    requires i < |s| && Distinct(s)
    ensures Others(s, s[i]) == Without(s, i)
  {
    hide Without;
    var n := |s| - 1;
    WithoutInit(s, i);
    if i == n {
      OthersAbsent(s[..n], s[n]);
    } else {
      OthersWithout(s[..n], i);
    }
  }

  /** Over distinct indices the coefficient is the Lagrange weight. */
  lemma CoefficientIsWeight(q: nat, indices: seq<int>, i: nat)
    requires Prime(q) && i < |indices| && Distinct(indices) && Scalars(q, indices)
    ensures Coefficient(Zq(q), indices, indices[i]) == Weight(Zq(q), indices, i)
  {
    hide Lawful;
    var F := Zq(q);
    ZqLawful(q);
    OthersWithout(indices, i);
    assert In(F, indices);
    DenominatorNonZero(F, indices, i);
  }

  /** lambda_i * y_i, the additive share of threshold signing. */
  function AdditiveShares(F: Field<int>, shares: seq<Share>): (w: seq<int>)
    ensures |w| == |shares|
  {
    seq(|shares|, i requires 0 <= i < |shares| => F.mul(Coefficient(F, Xs(shares), shares[i].x), shares[i].y))
  }

  /** The additive shares of any quorum add up to the secret. */
  lemma AdditiveSharesSum(q: nat, p: seq<int>, shares: seq<Share>)
    requires Prime(q) && p != [] && Scalars(q, p) && SharesOf(q, p, shares) && |p| <= |shares|
    ensures Sum(Zq(q), AdditiveShares(Zq(q), shares)) == p[0]
  {
    hide Coefficient, Weight, Sum;
    var F, xs := Zq(q), Xs(shares);
    assert Scalars(q, xs);
    forall i | 0 <= i < |shares|
      ensures AdditiveShares(F, shares)[i] == Terms(F, xs, Ys(shares))[i]
    {
      CoefficientIsWeight(q, xs, i);
    }
    assert AdditiveShares(F, shares) == Terms(F, xs, Ys(shares));
    QuorumWeighted(q, p, shares);
  }
}
