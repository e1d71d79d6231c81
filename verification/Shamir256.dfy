/** Byte-wise Shamir sharing of a seed (crates/kst/src/shamir256.rs). Random coefficients are parameters. */
module Shamir256 {
  import opened Wrappers
  import opened Fields
  import opened Polynomials
  import opened Sequences
  import opened Lagrange
  import opened Gf256

  datatype SeedShare = SeedShare(index: Byte, body: seq<Byte>)

  datatype KstError = BadParams | InsufficientShares

  // ------------------------------------------------------------------- indices as bytes

  function Half(n: nat): nat
  {
    n / 2
  }

  predicate Odd(n: nat)
  {
    n % 2 == 1
  }

  /** The `u8` with value n. */
  function FromNat(n: nat): Byte
    requires n < 256
  {
    var n1 := Half(n);
    var n2 := Half(n1);
    var n3 := Half(n2);
    var n4 := Half(n3);
    var n5 := Half(n4);
    var n6 := Half(n5);
    Byte(Odd(n), Odd(n1), Odd(n2), Odd(n3), Odd(n4), Odd(n5), Odd(n6), Odd(Half(n6)))
  }

  lemma SameHalves(m: nat, n: nat)
    requires Half(m) == Half(n) && (Odd(m) <==> Odd(n))
    ensures m == n
  {
  }

  lemma HalvesRunOut(n: nat)
    requires n < 256
    ensures Half(Half(Half(Half(Half(Half(Half(Half(n)))))))) == 0
  {
  }

  /** The bits are those of the number. */
  lemma FromNatValue(n: nat)
    requires n < 256
    ensures var b := FromNat(n);
            n == Bit(b.b0) + 2 * Bit(b.b1) + 4 * Bit(b.b2) + 8 * Bit(b.b3)
                 + 16 * Bit(b.b4) + 32 * Bit(b.b5) + 64 * Bit(b.b6) + 128 * Bit(b.b7)
  {
    hide Half, Odd;
    var n1 := Half(n);
    var n2 := Half(n1);
    var n3 := Half(n2);
    var n4 := Half(n3);
    var n5 := Half(n4);
    var n6 := Half(n5);
    HalvesRunOut(n);
    HalfOdd(n);
    HalfOdd(n1);
    HalfOdd(n2);
    HalfOdd(n3);
    HalfOdd(n4);
    HalfOdd(n5);
    HalfOdd(n6);
    HalfOdd(Half(n6));
  }

  function Bit(b: bool): nat
  {
    if b then 1 else 0
  }

  lemma HalfOdd(n: nat)
    ensures n == 2 * Half(n) + Bit(Odd(n))
  {
  }

  lemma FromNatInjective(m: nat, n: nat)
    requires m < 256 && n < 256 && FromNat(m) == FromNat(n)
    ensures m == n
  {
    hide Half, Odd;
    HalvesRunOut(m);
    HalvesRunOut(n);
    var m2, n2 := Half(Half(m)), Half(Half(n));
    var m4, n4 := Half(Half(m2)), Half(Half(n2));
    var m6, n6 := Half(Half(m4)), Half(Half(n4));
    SameHalves(Half(m6), Half(n6));
    SameHalves(m6, n6);
    SameHalves(Half(m4), Half(n4));
    SameHalves(m4, n4);
    SameHalves(Half(m2), Half(n2));
    SameHalves(m2, n2);
    SameHalves(Half(m), Half(n));
    SameHalves(m, n);
  }

  // ---------------------------------------------------------------------------- split

  function Blank(shares: nat): seq<SeedShare>
    requires shares < 256
  {
    seq(shares, i requires 0 <= i < shares => SeedShare(FromNat(i + 1), []))
  }

  /** Share i of a secret whose byte at each position is hidden in its own polynomial. */
  ghost predicate Dealt(share: SeedShare, polys: seq<seq<Byte>>)
  {
    && |share.body| == |polys|
    && forall k :: 0 <= k < |polys| ==> share.body[k] == Eval(Gf(), polys[k], share.index)
  }

  /** One byte's evaluations pushed onto every share. */
  method PushByte(shares: seq<SeedShare>, coeffs: seq<Byte>) returns (out: seq<SeedShare>)
    ensures |out| == |shares|
    ensures forall i :: 0 <= i < |out| ==>
              out[i] == SeedShare(shares[i].index, shares[i].body + [Eval(Gf(), coeffs, shares[i].index)])
  {
    hide Eval;
    out := [];
    for i := 0 to |shares|
      invariant |out| == i
      invariant forall j :: 0 <= j < i ==>
                  out[j] == SeedShare(shares[j].index, shares[j].body + [Eval(Gf(), coeffs, shares[j].index)])
    {
      var share := shares[i];
      out := out + [SeedShare(share.index, share.body + [Eval(Gf(), coeffs, share.index)])];
    }
  }

  /** `split`; `draws[k]` are the random coefficients for byte k. */
  method Split(secret: seq<Byte>, threshold: nat, shares: nat, draws: seq<seq<Byte>>)
    returns (result: Result<seq<SeedShare>, KstError>)
    requires threshold < 256 && shares < 256 && |draws| == |secret|
    requires forall k :: 0 <= k < |draws| ==> |draws[k]| == if threshold > 0 then threshold - 1 else 0
    ensures result.Ok? <==> 0 < threshold <= shares
    ensures result.Ok? ==>
              && |result.value| == shares
              && (forall i :: 0 <= i < shares ==> result.value[i].index == FromNat(i + 1))
              && (forall i :: 0 <= i < shares ==> Dealt(result.value[i], Polys(secret, draws)))
  {
    hide Eval;
    if threshold == 0 || shares == 0 || threshold > shares {
      return Err(BadParams);
    }
    var out := Blank(shares);
    ghost var polys := Polys(secret, draws);
    for k := 0 to |secret|
      invariant |out| == shares
      invariant forall i :: 0 <= i < shares ==> out[i].index == FromNat(i + 1)
      invariant forall i :: 0 <= i < shares ==> Dealt(out[i], polys[..k])
    {
      var before := out;
      out := PushByte(before, [secret[k]] + draws[k]);
      forall i | 0 <= i < shares
        ensures Dealt(out[i], polys[..k + 1])
      {
        DealtStep(before[i], polys, k);
      }
    }
    assert polys[..|secret|] == polys;
    return Ok(out);
  }

  lemma DealtStep(share: SeedShare, polys: seq<seq<Byte>>, k: nat)
    requires k < |polys| && Dealt(share, polys[..k])
    ensures Dealt(SeedShare(share.index, share.body + [Eval(Gf(), polys[k], share.index)]), polys[..k + 1])
  {
  }

  /** The polynomial of each byte: the byte, then its random coefficients. */
  function Polys(secret: seq<Byte>, draws: seq<seq<Byte>>): (polys: seq<seq<Byte>>)
    requires |draws| == |secret|
    ensures |polys| == |secret|
  {
    seq(|secret|, k requires 0 <= k < |secret| => [secret[k]] + draws[k])
  }

  // ---------------------------------------------------------------------- reconstruct

  function Indices(shares: seq<SeedShare>): (xs: seq<Byte>)
    ensures |xs| == |shares|
  {
    seq(|shares|, i requires 0 <= i < |shares| => shares[i].index)
  }

  function Column(shares: seq<SeedShare>, position: nat): (ys: seq<Byte>)
    requires forall i :: 0 <= i < |shares| ==> position < |shares[i].body|
    ensures |ys| == |shares|
  {
    seq(|shares|, i requires 0 <= i < |shares| => shares[i].body[position])
  }

  method GfInv(a: Byte) returns (r: Byte)
    ensures r == Inverse(a)
  {
    r := GfPow(a, 254);
  }

  /** The inner loop of `interpolate_byte`: the j-th fraction, or a colliding index. */
  method Fraction(xs: seq<Byte>, j: nat) returns (result: Option<(Byte, Byte)>)
    requires j < |xs|
    ensures result.Some? ==> xs[j] !in Without(xs, j)
    ensures result.None? ==> !Distinct(xs)
    ensures result.Some? ==> result.value == (Numerator(Gf(), xs, j), Denominator(Gf(), xs, j))
  {
    hide Product, Times, Xor;
    var F := Gf();
    var numerator, denominator := ONE, ONE;
    ghost var rest := Without(xs, j);
    ghost var ds := Differences(F, rest, xs[j]);
    ghost var k := 0;
    EmptyProduct(rest);
    EmptyProduct(ds);
    for m := 0 to |xs|
      invariant k == if m <= j then m else m - 1
      invariant numerator == Product(F, rest[..k])
      invariant denominator == Product(F, ds[..k])
      invariant forall i :: 0 <= i < k ==> rest[i] != xs[j]
    {
      if m == j {
        continue;
      }
      numerator := GfMul(numerator, xs[m]);
      var diff := Xor(xs[j], xs[m]);
      XorSelf(xs[j], xs[m]);
      if diff == ZERO {
        return None;
      }
      XorComm(xs[j], xs[m]);
      PrefixStep(F, rest, k);
      PrefixStep(F, ds, k);
      denominator := GfMul(denominator, diff);
      k := k + 1;
    }
    assert rest[..k] == rest && ds[..k] == ds;
    return Some((numerator, denominator));
  }

  lemma EmptyProduct(s: seq<Byte>)
    ensures Product(Gf(), s[..0]) == ONE
  {
  }

  lemma XorSelf(a: Byte, b: Byte)
    ensures Xor(a, b) == ZERO <==> a == b
  {
  }

  /** `interpolate_byte`: fails exactly on a repeated index. */
  method InterpolateByte(shares: seq<SeedShare>, position: nat) returns (result: Result<Byte, KstError>)
    requires forall i :: 0 <= i < |shares| ==> position < |shares[i].body|
    ensures Distinct(Indices(shares)) ==>
              result == Ok(Weighted(Gf(), Indices(shares), Column(shares, position)))
    ensures !Distinct(Indices(shares)) ==> result == Err(BadParams)
  {
    hide Gf, Sum, Times, Xor, Numerator, Denominator, Inverse, Weight, Terms, Without, Distinct;
    var xs := Indices(shares);
    ghost var terms := Terms(Gf(), xs, Column(shares, position));
    var acc := ZERO;
    EmptySum(terms);
    for j := 0 to |shares|
      invariant acc == Sum(Gf(), terms[..j])
      invariant forall i :: 0 <= i < j ==> xs[i] !in Without(xs, i)
    {
      var y := shares[j].body[position];
      var fraction := Fraction(xs, j);
      if fraction.None? {
        return Err(BadParams);
      }
      var inverse := GfInv(fraction.value.1);
      var weight := GfMul(fraction.value.0, inverse);
      var term := GfMul(y, weight);
      TermValue(xs, Column(shares, position), j);
      TimesComm(y, weight);
      SumStep(terms, j);
      acc := Xor(acc, term);
    }
    assert terms[..|shares|] == terms;
    AllFresh(xs);
    return Ok(acc);
  }

  lemma TermValue(xs: seq<Byte>, ys: seq<Byte>, j: nat)
    requires |xs| == |ys| && j < |xs|
    ensures Terms(Gf(), xs, ys)[j]
         == Times(Times(Numerator(Gf(), xs, j), Inverse(Denominator(Gf(), xs, j))), ys[j])
  {
    hide Times, Inverse, Numerator, Denominator;
    assert Weight(Gf(), xs, j) == Gf().mul(Numerator(Gf(), xs, j), Gf().inv(Denominator(Gf(), xs, j)));
    assert Terms(Gf(), xs, ys)[j] == Gf().mul(Weight(Gf(), xs, j), ys[j]);
  }

  lemma SumStep(terms: seq<Byte>, j: nat)
    requires j < |terms|
    ensures Sum(Gf(), terms[..j + 1]) == Xor(Sum(Gf(), terms[..j]), terms[j])
  {
    hide Xor, Sum;
    PrefixStep(Gf(), terms, j);
  }

  lemma EmptySum(s: seq<Byte>)
    ensures Sum(Gf(), s[..0]) == ZERO
  {
  }

  lemma AllFresh(xs: seq<Byte>)
    requires forall i :: 0 <= i < |xs| ==> xs[i] !in Without(xs, i)
    ensures Distinct(xs)
  {
    forall i, j | 0 <= i < j < |xs|
      ensures xs[i] != xs[j]
    {
      WithoutAt(xs, i, j - 1);
      assert Without(xs, i)[j - 1] in Without(xs, i);
    }
  }

  ghost predicate Ragged(shares: seq<SeedShare>)
  {
    exists i :: 0 <= i < |shares| && |shares[i].body| != |shares[0].body|
  }

  /** `reconstruct`. */
  method Reconstruct(shares: seq<SeedShare>) returns (result: Result<seq<Byte>, KstError>)
    ensures shares == [] ==> result == Err(InsufficientShares)
    ensures shares != [] && (Ragged(shares) || (|shares[0].body| > 0 && !Distinct(Indices(shares)))) ==>
              result == Err(BadParams)
    ensures shares != [] && !Ragged(shares) && (|shares[0].body| == 0 || Distinct(Indices(shares))) ==>
              && result.Ok? && |result.value| == |shares[0].body|
              && forall k :: 0 <= k < |result.value| ==>
                   result.value[k] == Weighted(Gf(), Indices(shares), Column(shares, k))
  {
    hide Weighted;
    if shares == [] {
      return Err(InsufficientShares);
    }
    var len := |shares[0].body|;
    if exists i :: 0 <= i < |shares| && |shares[i].body| != len {
      return Err(BadParams);
    }
    var secret := [];
    for position := 0 to len
      invariant |secret| == position
      invariant position > 0 ==> Distinct(Indices(shares))
      invariant forall k :: 0 <= k < position ==>
                  secret[k] == Weighted(Gf(), Indices(shares), Column(shares, k))
    {
      var byte := InterpolateByte(shares, position);
      if byte.Err? {
        return Err(byte.error);
      }
      secret := secret + [byte.value];
    }
    return Ok(secret);
  }

  // --------------------------------------------------------------------- correctness

  /** A quorum of one split: distinct indices, every body dealt from the same polynomials. */
  ghost predicate Quorum(shares: seq<SeedShare>, polys: seq<seq<Byte>>)
  {
    Distinct(Indices(shares)) && forall i :: 0 <= i < |shares| ==> Dealt(shares[i], polys)
  }

  /** At least t shares of one split give back each byte of the secret. */
  lemma QuorumRecoversByte(shares: seq<SeedShare>, secret: seq<Byte>, draws: seq<seq<Byte>>, k: nat)
    requires |draws| == |secret| && k < |secret| && Quorum(shares, Polys(secret, draws))
    requires |draws[k]| + 1 <= |shares|
    ensures Weighted(Gf(), Indices(shares), Column(shares, k)) == secret[k]
  {
    var F, p := Gf(), Polys(secret, draws)[k];
    hide Lawful, Weighted, Eval;
    GfLawful();
    assert In(F, p) && In(F, Indices(shares));
    assert Column(shares, k) == Values(F, p, Indices(shares));
    InterpolatesAtZero(F, p, Indices(shares));
    EvalZero(F, p);
  }

  /**
   The round trip: any t or more distinct shares of a t-threshold split reconstruct the secret.
   */
  method SplitThenReconstruct(secret: seq<Byte>, threshold: nat, shares: nat, draws: seq<seq<Byte>>, picks: seq<nat>)
    returns (recovered: Result<seq<Byte>, KstError>)
    requires 0 < threshold <= shares < 256 && |draws| == |secret|
    requires forall k :: 0 <= k < |draws| ==> |draws[k]| == threshold - 1
    requires threshold <= |picks| && Distinct(picks) && forall i :: 0 <= i < |picks| ==> picks[i] < shares
    ensures recovered == Ok(secret)
  {
    hide Weighted, Dealt, Polys, FromNat;
    var dealt := Split(secret, threshold, shares, draws);
    var quorum := seq(|picks|, i requires 0 <= i < |picks| => dealt.value[picks[i]]);
    PickedQuorum(dealt.value, picks, quorum, Polys(secret, draws));
    recovered := Reconstruct(quorum);
    forall k | 0 <= k < |secret|
      ensures recovered.value[k] == secret[k]
    {
      QuorumRecoversByte(quorum, secret, draws, k);
    }
    assert recovered.value == secret;
  }

  /** Shares picked from one split at distinct positions form a quorum with even bodies. */
  lemma PickedQuorum(dealt: seq<SeedShare>, picks: seq<nat>, quorum: seq<SeedShare>, polys: seq<seq<Byte>>)
    requires |dealt| < 256 && |quorum| == |picks| && Distinct(picks)
    requires forall i :: 0 <= i < |dealt| ==> dealt[i].index == FromNat(i + 1) && Dealt(dealt[i], polys)
    requires forall i :: 0 <= i < |picks| ==> picks[i] < |dealt| && quorum[i] == dealt[picks[i]]
    ensures Quorum(quorum, polys) && !Ragged(quorum)
    ensures forall i :: 0 <= i < |quorum| ==> |quorum[i].body| == |polys|
  {
    hide Eval, FromNat;
    forall i, j | 0 <= i < j < |quorum|
      ensures Indices(quorum)[i] != Indices(quorum)[j]
    {
      if FromNat(picks[i] + 1) == FromNat(picks[j] + 1) {
        FromNatInjective(picks[i] + 1, picks[j] + 1);
      }
    }
  }

  // ------------------------------------------------------------------ t - 1 shares

  /** coeffs has the candidate as constant term and passes through the observed bytes. */
  ghost predicate Explains(coeffs: seq<Byte>, candidate: Byte, points: seq<Byte>, observed: seq<Byte>)
    requires |points| == |observed|
  {
    && |coeffs| == |points| + 1
    && coeffs[0] == candidate
    && forall i :: 0 <= i < |points| ==> Eval(Gf(), coeffs, points[i]) == observed[i]
  }

  /**
   t - 1 shares fix nothing: whatever was observed at distinct nonzero points, every candidate
   byte is explained by exactly one polynomial of t coefficients.
   */
  lemma EveryCandidateExplained(candidate: Byte, points: seq<Byte>, observed: seq<Byte>) returns (coeffs: seq<Byte>)
    requires |points| == |observed| && Distinct(points) && ZERO !in points
    ensures Explains(coeffs, candidate, points, observed)
    ensures forall other :: Explains(other, candidate, points, observed) ==> other == coeffs
  {
    hide Lawful, Eval;
    var F := Gf();
    var xs, ys := [ZERO] + points, [candidate] + observed;
    GfLawful();
    assert In(F, xs) && In(F, ys) && Distinct(xs);
    coeffs := InterpolantExists(F, xs, ys);
    EvalZero(F, coeffs);
    assert Eval(F, coeffs, xs[0]) == ys[0];
    forall i | 0 <= i < |points|
      ensures Eval(F, coeffs, points[i]) == observed[i]
    {
      assert xs[i + 1] == points[i] && ys[i + 1] == observed[i];
    }
    forall other | Explains(other, candidate, points, observed)
      ensures other == coeffs
    {
      EvalZero(F, other);
      forall i | 0 <= i < |xs|
        ensures Eval(F, other, xs[i]) == ys[i]
      {
        if i > 0 {
          assert xs[i] == points[i - 1] && ys[i] == observed[i - 1];
        }
      }
      assert Polynomials.Fits(F, other, xs, ys);
      InterpolantUnique(F, other, coeffs, xs, ys);
    }
  }

  /**
   And so for a whole seed: from fewer than t shares, every candidate of the same length is as
   possible as the true secret, for exactly one choice of the coefficients `split` draws.
   */
  lemma SplitHides(secret: seq<Byte>, draws: seq<seq<Byte>>, candidate: seq<Byte>, points: seq<Byte>)
      returns (others: seq<seq<Byte>>)
    requires |draws| == |secret| == |candidate| && Distinct(points) && ZERO !in points
    requires forall k :: 0 <= k < |draws| ==> |draws[k]| == |points|
    ensures |others| == |candidate| && forall k :: 0 <= k < |others| ==> |others[k]| == |points|
    ensures forall share: SeedShare, share': SeedShare ::
              (&& share.index in points && share'.index == share.index
               && Dealt(share, Polys(secret, draws)) && Dealt(share', Polys(candidate, others))) ==> share == share'
    ensures forall k, other ::
              0 <= k < |candidate| && Agrees(secret, draws, k, [candidate[k]] + other, points) ==> other == others[k]
  {
    hide Eval, Dealt;
    others := [];
    while |others| < |secret|
      invariant |others| <= |secret|
      invariant forall k :: 0 <= k < |others| ==>
                  |others[k]| == |points| && Agrees(secret, draws, k, [candidate[k]] + others[k], points)
      invariant forall k, other ::
                  0 <= k < |others| && Agrees(secret, draws, k, [candidate[k]] + other, points) ==> other == others[k]
      decreases |secret| - |others|
    {
      var k := |others|;
      var next := OneByteHides(secret, draws, k, candidate[k], points);
      others := others + [next];
    }
    forall share: SeedShare, share': SeedShare |
      share.index in points && share'.index == share.index
      && Dealt(share, Polys(secret, draws)) && Dealt(share', Polys(candidate, others))
      ensures share == share'
    {
      SharesAgree(secret, draws, candidate, others, points, share, share');
    }
  }

  /** The polynomial takes the values of the dealt one at the points, with as many coefficients. */
  ghost predicate Agrees(secret: seq<Byte>, draws: seq<seq<Byte>>, k: nat, poly: seq<Byte>, points: seq<Byte>)
    requires |draws| == |secret| && k < |secret|
  {
    && |poly| == |points| + 1
    && forall i :: 0 <= i < |points| ==> Eval(Gf(), poly, points[i]) == Eval(Gf(), Polys(secret, draws)[k], points[i])
  }

  lemma OneByteHides(secret: seq<Byte>, draws: seq<seq<Byte>>, k: nat, candidate: Byte, points: seq<Byte>)
      returns (other: seq<Byte>)
    requires |draws| == |secret| && k < |secret| && Distinct(points) && ZERO !in points && |draws[k]| == |points|
    ensures |other| == |points| && Agrees(secret, draws, k, [candidate] + other, points)
    ensures forall o :: Agrees(secret, draws, k, [candidate] + o, points) ==> o == other
  {
    hide Eval;
    var observed := seq(|points|, i requires 0 <= i < |points| => Eval(Gf(), Polys(secret, draws)[k], points[i]));
    var coeffs := EveryCandidateExplained(candidate, points, observed);
    other := coeffs[1..];
    assert [candidate] + other == coeffs;
    forall o | Agrees(secret, draws, k, [candidate] + o, points)
      ensures o == other
    {
      assert Explains([candidate] + o, candidate, points, observed);
      assert o == ([candidate] + o)[1..];
    }
  }

  lemma SharesAgree(
      secret: seq<Byte>, draws: seq<seq<Byte>>, candidate: seq<Byte>, others: seq<seq<Byte>>, points: seq<Byte>,
      share: SeedShare, share': SeedShare)
    requires |draws| == |secret| == |candidate| == |others| && share.index in points && share'.index == share.index
    requires Dealt(share, Polys(secret, draws)) && Dealt(share', Polys(candidate, others))
    requires forall k :: 0 <= k < |others| ==> Agrees(secret, draws, k, [candidate[k]] + others[k], points)
    ensures share == share'
  {
    hide Eval;
    var i :| 0 <= i < |points| && points[i] == share.index;
    forall k | 0 <= k < |secret|
      ensures share.body[k] == share'.body[k]
    {
      assert Agrees(secret, draws, k, [candidate[k]] + others[k], points);
      assert Polys(candidate, others)[k] == [candidate[k]] + others[k];
    }
    assert share.body == share'.body;
  }
}
