/**
 GG20 threshold ECDSA (crates/custody/src/gg20.rs): the multiplicative-to-additive conversion,
 its accumulation over all ordered pairs, and the assembled signature. Points are discrete
 logarithms modulo the prime group order q, and `xOf` is the x-coordinate of a nonzero point, an
 even function. All random draws are parameters.
 */
module Gg20 {
  import opened Wrappers
  import opened NumberTheory
  import opened Fields
  import opened PrimeFields
  import opened Lagrange
  import opened ScalarShamir
  import opened Paillier
  import opened RangeProofs
  import ModulusProofs

  datatype CustodyError = InsufficientShares | SigningFailed

  datatype FaultKind = ModulusProof | InitiatorRangeProof | ResponderConsistency

  datatype SignError = Fault(party: nat, kind: FaultKind) | Internal(error: CustodyError)

  datatype Party = Party(share: Share, paillier: Private, pedersen: RingPedersen, modulusProof: seq<int>)

  /** The draws of one MtA: the initiator's nonce and proof samples, then the responder's. */
  datatype MtaDraws = MtaDraws(
    nonce: nat, rangeSamples: seq<RangeSample>,
    betaPrime: nat, responseNonce: nat, responderSamples: seq<ResponderSample>)

  ghost predicate GoodDraws(d: MtaDraws, n: nat, q: nat)
  {
    && Gcd(d.nonce, n) == 1 && Gcd(d.responseNonce, n) == 1 && d.betaPrime < q
    && |d.rangeSamples| == 32 && |d.responderSamples| == 32
  }

  /** A generated Paillier key with n > q^2. */
  ghost predicate GoodKey(sk: Private, primes: (nat, nat), q: nat)
  {
    KeyOf(sk, primes.0, primes.1) && sk.public.n > q * q
  }

  // ---------------------------------------------------------------------------- MtA

  /** The responder's ciphertext decrypts to a*b + beta', with no wrap-around. */
  lemma ResponseDecrypts(sk: Private, primes: (nat, nat), q: nat, a: nat, b: nat, d: MtaDraws)
    requires q > 0 && GoodKey(sk, primes, q) && a < q && b < q && GoodDraws(d, sk.public.n, q)
    ensures Decrypt(sk, Response(sk.public, EncryptWith(sk.public, a, d.nonce), b, d.betaPrime, d.responseNonce))
         == Some(a * b + d.betaPrime)
  {
    hide Pow, Gcd, Decrypt, EncryptWith, Response, Encrypts, Lcm;
    var pk := sk.public;
    var p1, p2 := primes.0, primes.1;
    KeyModulus(sk, p1, p2);
    ResponseEncrypts(pk, a, b, d);
    UnitsModProduct(d.nonce, p1, p2);
    UnitsModProduct(d.responseNonce, p1, p2);
    ResponseUnit(p1, d.nonce, b, d.responseNonce);
    ResponseUnit(p2, d.nonce, b, d.responseNonce);
    DecryptRecovers(sk, p1, p2, Response(pk, EncryptWith(pk, a, d.nonce), b, d.betaPrime, d.responseNonce),
                    b * a + d.betaPrime, Pow(d.nonce, b) * d.responseNonce);
    NumberTheory.MulComm(a, b);
    NoWrap(a, b, d.betaPrime, q);
    DivModUnique(a * b + d.betaPrime, pk.n, 0, a * b + d.betaPrime);
  }

  /** The response encrypts a*b + beta' under the product of the nonces. */
  lemma ResponseEncrypts(pk: Public, a: nat, b: nat, d: MtaDraws)
    requires pk.n > 0 && pk.nn == pk.n * pk.n && pk.nn > 0
    ensures Encrypts(pk.n, Response(pk, EncryptWith(pk, a, d.nonce), b, d.betaPrime, d.responseNonce),
                     b * a + d.betaPrime, Pow(d.nonce, b) * d.responseNonce)
  {
    hide Pow, EncryptWith, Encrypts;
    var ca, cy := EncryptWith(pk, a, d.nonce), EncryptWith(pk, d.betaPrime, d.responseNonce);
    EncryptEncrypts(pk, a, d.nonce);
    EncryptEncrypts(pk, d.betaPrime, d.responseNonce);
    EncryptsPower(pk.n, ca, a, d.nonce, b);
    EncryptsReduce(pk.n, Pow(ca, b), b * a, Pow(d.nonce, b));
    EncryptsProduct(pk.n, MulConst(pk, ca, b), b * a, Pow(d.nonce, b), cy, d.betaPrime, d.responseNonce);
    EncryptsReduce(pk.n, MulConst(pk, ca, b) * cy, b * a + d.betaPrime, Pow(d.nonce, b) * d.responseNonce);
  }

  lemma ResponseUnit(p: nat, r: int, b: nat, s: int)
    requires Prime(p) && r % p != 0 && s % p != 0
    ensures (Pow(r, b) * s) % p != 0
  {
    hide Pow, Prime;
    UnitPower(p, r, b);
    UnitProduct(p, Pow(r, b), s);
  }

  lemma NoWrap(a: nat, b: nat, c: nat, q: nat)
    requires a < q && b < q && c < q
    ensures 0 <= a * b + c < q * q
  {
    MulMono(a, q - 1, b);
    MulMono(b, q - 1, q - 1);
    NumberTheory.MulComm(b, q - 1);
    assert (q - 1) * (q - 1) == q * q - 2 * q + 1;
    MulMono(0, a, b);
  }

  /** (a*b + beta') mod q and -beta' mod q add up to a*b. */
  lemma SharesAddUp(q: nat, product: int, betaPrime: int)
    requires q > 0
    ensures ((product + betaPrime) % q + (-betaPrime) % q) % q == product % q
  {
    ModIdem(product + betaPrime, q);
    ModIdem(-betaPrime, q);
    CongAdd((product + betaPrime) % q, product + betaPrime, (-betaPrime) % q, -betaPrime, q);
  }

  lemma MtaReady(sk: Private, primes: (nat, nat), pedersen: RingPedersen, pedersen': RingPedersen, q: nat, d: MtaDraws)
    requires q > 0 && GoodKey(sk, primes, q) && GoodDraws(d, sk.public.n, q)
    requires pedersen.nTilde > 0 && pedersen'.nTilde > 0
    ensures Setup(sk.public, pedersen, q) && Setup(sk.public, pedersen', q)
    ensures sk.public.n > 0 && sk.public.nn > 0
    ensures |d.rangeSamples| == 32 && |d.responderSamples| == 32
  {
    KeyModulus(sk, primes.0, primes.1);
  }

  /** Both provers have an attempt whose response is at most q^3. */
  ghost predicate ProofsFit(oracle: Oracle, pk: Public, initiatorPedersen: RingPedersen, responderPedersen: RingPedersen,
                            a: int, b: int, q: nat, d: MtaDraws)
  {
    && a >= 0 && b >= 0 && Setup(pk, initiatorPedersen, q) && Setup(pk, responderPedersen, q) && pk.nn > 0
    && |d.rangeSamples| == 32 && |d.responderSamples| == 32
    && var ca := EncryptWith(pk, a, d.nonce);
    && var cb := Response(pk, ca, b, d.betaPrime, d.responseNonce);
    && (exists i ::
          && 0 <= i < 32
          && RangeAttempt(oracle, pk, responderPedersen, ca, a, d.nonce, q, d.rangeSamples[i]).s1 <= Cube(q))
    && (exists i ::
          && 0 <= i < 32
          && ResponderAttempt(oracle, pk, initiatorPedersen, ca, cb, b, d.betaPrime, d.responseNonce, q,
                              d.responderSamples[i]).s1 <= Cube(q))
  }

  lemma FitsIff(oracle: Oracle, pk: Public, initiatorPedersen: RingPedersen, responderPedersen: RingPedersen,
                a: nat, b: nat, q: nat, d: MtaDraws)
    requires Setup(pk, initiatorPedersen, q) && Setup(pk, responderPedersen, q) && pk.nn > 0
    requires |d.rangeSamples| == 32 && |d.responderSamples| == 32
    ensures var ca := EncryptWith(pk, a, d.nonce);
            var cb := Response(pk, ca, b, d.betaPrime, d.responseNonce);
            ProofsFit(oracle, pk, initiatorPedersen, responderPedersen, a, b, q, d) <==>
              && (exists i ::
                    && 0 <= i < 32
                    && RangeAttempt(oracle, pk, responderPedersen, ca, a, d.nonce, q, d.rangeSamples[i]).s1 <= Cube(q))
              && (exists i ::
                    && 0 <= i < 32
                    && ResponderAttempt(oracle, pk, initiatorPedersen, ca, cb, b, d.betaPrime, d.responseNonce, q,
                                        d.responderSamples[i]).s1 <= Cube(q))
  {
    hide EncryptWith, Response, RangeAttempt, ResponderAttempt, Cube;
  }

  /**
   In numbers: the initiator's challenge is asked under the responder's Pedersen parameters and the
   responder's under the initiator's, and in some attempt each answer to it stays within the cube of q.
   */
  lemma ProofsFitIff(oracle: Oracle, pk: Public, initiatorPedersen: RingPedersen, responderPedersen: RingPedersen,
                     a: nat, b: nat, q: nat, d: MtaDraws)
    requires Setup(pk, initiatorPedersen, q) && Setup(pk, responderPedersen, q) && pk.nn > 0
    requires |d.rangeSamples| == 32 && |d.responderSamples| == 32
    ensures var ca := EncryptWith(pk, a, d.nonce);
            var cb := Add(pk, MulConst(pk, ca, b), EncryptWith(pk, d.betaPrime, d.responseNonce));
            ProofsFit(oracle, pk, initiatorPedersen, responderPedersen, a, b, q, d) <==>
            && (exists i :: 0 <= i < 32 && var x := d.rangeSamples[i];
                  (oracle([ca, Commit(responderPedersen, a, x.rho), EncryptWith(pk, x.alpha, x.beta),
                           Commit(responderPedersen, x.alpha, x.gamma), pk.n, responderPedersen.nTilde]) % q) * a
                  + x.alpha <= q * q * q)
            && (exists i :: 0 <= i < 32 && var x := d.responderSamples[i];
                  (oracle([ca, cb, Commit(initiatorPedersen, b, x.rho), Commit(initiatorPedersen, x.alpha, x.rhoPrime),
                           Commit(initiatorPedersen, d.betaPrime, x.sigma), Commit(initiatorPedersen, x.gamma, x.tau),
                           Shaped(pk, ca, x.alpha, x.gamma, x.beta), pk.n, initiatorPedersen.nTilde]) % q) * b
                  + x.alpha <= q * q * q)
  {
    hide EncryptWith, Commit, Shaped, Add, MulConst;
  }

  /**
   `mta` between honest parties: never a fault, and (a*b + beta') mod q and -beta' mod q as the two
   shares. It fails exactly when a prover overshoots its range 32 times.
   */
  method Mta(oracle: Oracle, initiator: nat, responder: nat, holder: Private, ghost primes: (nat, nat),
             initiatorPedersen: RingPedersen, responderPedersen: RingPedersen, a: nat, b: nat, q: nat, d: MtaDraws)
    returns (result: Result<(int, int), SignError>)
    requires q > 0 && GoodKey(holder, primes, q) && a < q && b < q && GoodDraws(d, holder.public.n, q)
    requires initiatorPedersen.nTilde > 0 && responderPedersen.nTilde > 0
    ensures result.Ok? <==> ProofsFit(oracle, holder.public, initiatorPedersen, responderPedersen, a, b, q, d)
    ensures result.Err? ==> result.error == Internal(SigningFailed)
    ensures result.Ok? ==>
              && result.value.0 == (a * b + d.betaPrime) % q && 0 <= result.value.1 < q
              && (result.value.0 + result.value.1) % q == (a * b) % q
  {
    hide *;
    var mask: int := d.betaPrime;
    var beta := (-mask) % q;
    MtaReady(holder, primes, initiatorPedersen, responderPedersen, q, d);
    FitsIff(oracle, holder.public, initiatorPedersen, responderPedersen, a, b, q, d);
    var pk := holder.public;
    var ca := EncryptWith(pk, a, d.nonce);
    var rangeProof := ProveRange(oracle, pk, responderPedersen, ca, a, d.nonce, q, d.rangeSamples);
    if rangeProof.Err? {
      return Err(Internal(SigningFailed));
    }
    if !VerifyRange(oracle, pk, responderPedersen, ca, rangeProof.value, q) {
      return Err(Fault(initiator, InitiatorRangeProof));
    }
    var cb := Response(pk, ca, b, d.betaPrime, d.responseNonce);
    var responderProof := ProveResponder(oracle, pk, initiatorPedersen, ca, cb, b, d.betaPrime, d.responseNonce, q,
                                         d.responderSamples);
    if responderProof.Err? {
      return Err(Internal(SigningFailed));
    }
    if !VerifyResponder(oracle, pk, initiatorPedersen, ca, cb, responderProof.value, q) {
      return Err(Fault(responder, ResponderConsistency));
    }
    ResponseDecrypts(holder, primes, q, a, b, d);
    SharesAddUp(q, a * b, d.betaPrime);
    return Ok((Decrypt(holder, cb).value % q, beta));
  }

  // ------------------------------------------------------------------- accumulation

  /** Integer sum, before reduction. */
  ghost function Total(s: seq<int>): int
  {
    if s == [] then 0 else Total(s[..|s| - 1]) + s[|s| - 1]
  }

  lemma {:induction false} TotalUpdate(s: seq<int>, i: nat, v: int)
    requires i < |s|
    ensures Total(s[i := v]) == Total(s) - s[i] + v
  {
    var n := |s| - 1;
    if i == n {
      assert s[i := v][..n] == s[..n];
    } else {
      TotalUpdate(s[..n], i, v);
      assert s[i := v][..n] == s[..n][i := v];
    }
  }

  lemma {:induction false} SumIsTotal(q: nat, s: seq<int>)
    requires q > 1
    ensures Sum(Zq(q), s) == Total(s) % q
  {
    if s != [] {
      var n := |s| - 1;
      SumIsTotal(q, s[..n]);
      ModIdem(Total(s[..n]), q);
      CongAdd(Total(s[..n]) % q, Total(s[..n]), s[n], s[n], q);
    }
  }

  /** The products on the diagonal, and off it, over the first i rows. */
  ghost function Diagonal(k: seq<int>, g: seq<int>, i: nat): int
    requires i <= |k| == |g|
  {
    if i == 0 then 0 else Diagonal(k, g, i - 1) + k[i - 1] * g[i - 1]
  }

  ghost function Cross(k: seq<int>, g: seq<int>, i: nat): int
    requires i <= |k| == |g|
  {
    if i == 0 then 0 else Cross(k, g, i - 1) + RowPart(k, g, i - 1, |g|)
  }

  ghost function Cell(k: seq<int>, g: seq<int>, i: nat, j: nat): int
    requires i < |k| && j < |g|
  {
    k[i] * g[j]
  }

  /** k_i times the g_j for j below `upTo`, j != i. */
  ghost function RowPart(k: seq<int>, g: seq<int>, i: nat, upTo: nat): int
    requires i < |k| == |g| && upTo <= |g|
  {
    if upTo == 0 then 0
    else RowPart(k, g, i, upTo - 1) + if upTo - 1 == i then 0 else Cell(k, g, i, upTo - 1)
  }

  lemma CrossZero(k: seq<int>, g: seq<int>)
    requires |k| == |g|
    ensures Cross(k, g, 0) == 0
  {
  }

  /** The recurrences the two loops run through. */
  lemma RowSteps(k: seq<int>, g: seq<int>, i: nat, j: nat)
    requires i < |k| == |g| && j < |g|
    ensures RowPart(k, g, i, 0) == 0
    ensures RowPart(k, g, i, j + 1) == RowPart(k, g, i, j) + if i == j then 0 else Cell(k, g, i, j)
    ensures Cross(k, g, i + 1) == Cross(k, g, i) + RowPart(k, g, i, |g|)
  {
  }

  lemma {:induction false} RowPartTotal(k: seq<int>, g: seq<int>, i: nat, upTo: nat)
    requires i < |k| == |g| && upTo <= |g|
    ensures RowPart(k, g, i, upTo) == k[i] * Total(g[..upTo]) - (if i < upTo then k[i] * g[i] else 0)
  {
    if upTo > 0 {
      RowPartTotal(k, g, i, upTo - 1);
      assert g[..upTo][..upTo - 1] == g[..upTo - 1];
      assert k[i] * Total(g[..upTo]) == k[i] * Total(g[..upTo - 1]) + k[i] * g[upTo - 1];
    }
  }

  /** Diagonal and cross products together are the product of the totals. */
  lemma {:induction false} AllProducts(k: seq<int>, g: seq<int>, i: nat)
    requires i <= |k| == |g|
    ensures Diagonal(k, g, i) + Cross(k, g, i) == Total(k[..i]) * Total(g)
  {
    if i > 0 {
      AllProducts(k, g, i - 1);
      RowPartTotal(k, g, i - 1, |g|);
      assert g[..|g|] == g;
      assert k[..i][..i - 1] == k[..i - 1];
      Distribute(Total(k[..i - 1]), k[i - 1], Total(g));
    }
  }

  method PointwiseProducts(q: nat, k: seq<int>, g: seq<int>) returns (products: seq<int>)
    requires q > 0 && |k| == |g|
    ensures |products| == |k| && Scalars(q, products)
    ensures Congruent(Total(products), Diagonal(k, g, |k|), q)
  {
    products := [];
    for i := 0 to |k|
      invariant |products| == i && Scalars(q, products)
      invariant Total(products) % q == Diagonal(k, g, i) % q
    {
      ModIdem(k[i] * g[i], q);
      CongAdd(Total(products), Diagonal(k, g, i), (k[i] * g[i]) % q, k[i] * g[i], q);
      assert (products + [(k[i] * g[i]) % q])[..i] == products;
      products := products + [(k[i] * g[i]) % q];
    }
  }

  /** `s[i] += v` on scalars. */
  function Bump(q: nat, s: seq<int>, i: nat, v: int): (r: seq<int>)
    requires q > 0 && i < |s|
    ensures |r| == |s| && (Scalars(q, s) ==> Scalars(q, r))
    ensures Total(r) % q == (Total(s) + v) % q
  {
    TotalUpdate(s, i, (s[i] + v) % q);
    BumpTotal(q, Total(s), s[i], v);
    s[i := (s[i] + v) % q]
  }

  lemma BumpTotal(q: nat, t: int, x: int, v: int)
    requires q > 0
    ensures (t - x + (x + v) % q) % q == (t + v) % q
  {
    ModIdem(x + v, q);
    CongAdd(t - x, t - x, (x + v) % q, x + v, q);
  }

  type DrawTable = (nat, nat, bool) -> MtaDraws

  ghost predicate GoodParties(parties: seq<Party>, primes: seq<(nat, nat)>, draws: DrawTable, q: nat)
  {
    && |primes| == |parties|
    && (forall i :: 0 <= i < |parties| ==>
          GoodKey(parties[i].paillier, primes[i], q) && parties[i].pedersen.nTilde > 0)
    && (forall i, j, second :: 0 <= i < |parties| && 0 <= j < |parties| ==>
          GoodDraws(draws(i, j, second), parties[i].paillier.public.n, q))
  }

  /** The proofs of both MtAs of an ordered pair fit. */
  ghost predicate PairFits(oracle: Oracle, parties: seq<Party>, draws: DrawTable, q: nat, k: seq<int>, gamma: seq<int>,
                           w: seq<int>, i: nat, j: nat)
    requires |k| == |gamma| == |w| == |parties| && i < |parties| && j < |parties|
  {
    && ProofsFit(oracle, parties[i].paillier.public, parties[i].pedersen, parties[j].pedersen, k[i], gamma[j], q,
                 draws(i, j, false))
    && ProofsFit(oracle, parties[i].paillier.public, parties[i].pedersen, parties[j].pedersen, k[i], w[j], q,
                 draws(i, j, true))
  }

  ghost predicate AllFit(oracle: Oracle, parties: seq<Party>, draws: DrawTable, q: nat, k: seq<int>, gamma: seq<int>,
                         w: seq<int>)
    requires |k| == |gamma| == |w| == |parties|
  {
    forall i, j :: 0 <= i < |parties| && 0 <= j < |parties| && i != j ==>
      PairFits(oracle, parties, draws, q, k, gamma, w, i, j)
  }

  /** One pair's two MtAs folded into delta and sigma. */
  method AccumulatePair(oracle: Oracle, parties: seq<Party>, ghost primes: seq<(nat, nat)>, draws: DrawTable, q: nat,
                        k: seq<int>, gamma: seq<int>, w: seq<int>, i: nat, j: nat, delta0: seq<int>, sigma0: seq<int>)
    returns (result: Result<(seq<int>, seq<int>), SignError>)
    requires q > 0 && GoodParties(parties, primes, draws, q) && i < |parties| && j < |parties|
    requires |k| == |gamma| == |w| == |delta0| == |sigma0| == |parties|
    requires Scalars(q, k) && Scalars(q, gamma) && Scalars(q, w) && Scalars(q, delta0) && Scalars(q, sigma0)
    ensures result.Ok? <==> PairFits(oracle, parties, draws, q, k, gamma, w, i, j)
    ensures result.Err? ==> result.error == Internal(SigningFailed)
    ensures result.Ok? ==>
              && |result.value.0| == |result.value.1| == |parties|
              && Scalars(q, result.value.0) && Scalars(q, result.value.1)
              && Congruent(Total(result.value.0), Total(delta0) + Cell(k, gamma, i, j), q)
              && Congruent(Total(result.value.1), Total(sigma0) + Cell(k, w, i, j), q)
  {
    hide ProofsFit;
    var first := Mta(oracle, i, j, parties[i].paillier, primes[i], parties[i].pedersen, parties[j].pedersen,
                     k[i], gamma[j], q, draws(i, j, false));
    if first.Err? {
      return Err(first.error);
    }
    var second := Mta(oracle, i, j, parties[i].paillier, primes[i], parties[i].pedersen, parties[j].pedersen,
                      k[i], w[j], q, draws(i, j, true));
    if second.Err? {
      return Err(second.error);
    }
    var delta1 := Bump(q, delta0, i, first.value.0);
    var delta2 := Bump(q, delta1, j, first.value.1);
    var sigma1 := Bump(q, sigma0, i, second.value.0);
    var sigma2 := Bump(q, sigma1, j, second.value.1);
    TwoBumps(q, Total(delta0), Total(delta1), Total(delta2), first.value.0, first.value.1, k[i] * gamma[j]);
    TwoBumps(q, Total(sigma0), Total(sigma1), Total(sigma2), second.value.0, second.value.1, k[i] * w[j]);
    return Ok((delta2, sigma2));
  }

  lemma TwoBumps(q: nat, t0: int, t1: int, t2: int, u: int, v: int, product: int)
    requires q > 0 && t1 % q == (t0 + u) % q && t2 % q == (t1 + v) % q && (u + v) % q == product % q
    ensures t2 % q == (t0 + product) % q
  {
    CongAdd(t1, t0 + u, v, v, q);
    CongAdd(t0, t0, u + v, product, q);
  }

  /** `mta_accumulate`: the deltas add up to k*gamma and the sigmas to k*w. */
  method MtaAccumulate(oracle: Oracle, parties: seq<Party>, ghost primes: seq<(nat, nat)>, draws: DrawTable, q: nat,
                       k: seq<int>, gamma: seq<int>, w: seq<int>)
    returns (result: Result<(seq<int>, seq<int>), SignError>)
    requires q > 0 && GoodParties(parties, primes, draws, q)
    requires |k| == |gamma| == |w| == |parties|
    requires Scalars(q, k) && Scalars(q, gamma) && Scalars(q, w)
    ensures result.Ok? <==> AllFit(oracle, parties, draws, q, k, gamma, w)
    ensures result.Err? ==> result.error == Internal(SigningFailed)
    ensures result.Ok? ==>
              && |result.value.0| == |result.value.1| == |parties|
              && Congruent(Total(result.value.0), Total(k) * Total(gamma), q)
              && Congruent(Total(result.value.1), Total(k) * Total(w), q)
  {
    hide *;
    var count := |parties|;
    var delta := PointwiseProducts(q, k, gamma);
    var sigma := PointwiseProducts(q, k, w);
    ghost var dg, dw := Diagonal(k, gamma, count), Diagonal(k, w, count);
    assert Cross(k, gamma, 0) == Cross(k, w, 0) == 0 by { CrossZero(k, gamma); CrossZero(k, w); }
    for i := 0 to count
      invariant |delta| == |sigma| == count && Scalars(q, delta) && Scalars(q, sigma)
      invariant forall a, b :: 0 <= a < i && 0 <= b < count && a != b ==>
                  PairFits(oracle, parties, draws, q, k, gamma, w, a, b)
      invariant Congruent(Total(delta), dg + Cross(k, gamma, i), q)
      invariant Congruent(Total(sigma), dw + Cross(k, w, i), q)
    {
      RowSteps(k, gamma, i, 0);
      RowSteps(k, w, i, 0);
      for j := 0 to count
        invariant |delta| == |sigma| == count && Scalars(q, delta) && Scalars(q, sigma)
        invariant forall b :: 0 <= b < j && i != b ==> PairFits(oracle, parties, draws, q, k, gamma, w, i, b)
        invariant Congruent(Total(delta), dg + Cross(k, gamma, i) + RowPart(k, gamma, i, j), q)
        invariant Congruent(Total(sigma), dw + Cross(k, w, i) + RowPart(k, w, i, j), q)
      {
        RowSteps(k, gamma, i, j);
        RowSteps(k, w, i, j);
        if i == j {
          continue;
        }
        var pair := AccumulatePair(oracle, parties, primes, draws, q, k, gamma, w, i, j, delta, sigma);
        if pair.Err? {
          Misfit(oracle, parties, draws, q, k, gamma, w, i, j);
          return Err(pair.error);
        }
        CongruentStep(Total(delta), dg + Cross(k, gamma, i) + RowPart(k, gamma, i, j), Cell(k, gamma, i, j),
                      Total(pair.value.0), q);
        CongruentStep(Total(sigma), dw + Cross(k, w, i) + RowPart(k, w, i, j), Cell(k, w, i, j),
                      Total(pair.value.1), q);
        delta, sigma := pair.value.0, pair.value.1;
      }
    }
    AllProducts(k, gamma, count);
    AllProducts(k, w, count);
    assert k[..count] == k;
    AllFitIntro(oracle, parties, draws, q, k, gamma, w);
    return Ok((delta, sigma));
  }

  lemma Misfit(oracle: Oracle, parties: seq<Party>, draws: DrawTable, q: nat, k: seq<int>, gamma: seq<int>, w: seq<int>,
               i: nat, j: nat)
    requires |k| == |gamma| == |w| == |parties| && i < |parties| && j < |parties| && i != j
    requires !PairFits(oracle, parties, draws, q, k, gamma, w, i, j)
    ensures !AllFit(oracle, parties, draws, q, k, gamma, w)
  {
    hide PairFits;
  }

  lemma AllFitIntro(oracle: Oracle, parties: seq<Party>, draws: DrawTable, q: nat, k: seq<int>, gamma: seq<int>, w: seq<int>)
    requires |k| == |gamma| == |w| == |parties|
    requires forall i, j :: 0 <= i < |parties| && 0 <= j < |parties| && i != j ==>
               PairFits(oracle, parties, draws, q, k, gamma, w, i, j)
    ensures AllFit(oracle, parties, draws, q, k, gamma, w)
  {
    hide PairFits;
  }

  // ---------------------------------------------------------------------- the signature

  /** The x-coordinate does not see the sign of a point. */
  ghost predicate Even(q: nat, xOf: int -> nat)
  {
    forall a :: 0 < a < q ==> xOf(a) == xOf(q - a)
  }

  /** ECDSA verification, section 4.1.4 of SEC 1 v2.0. */
  predicate EcdsaVerifies(q: nat, xOf: int -> nat, public: int, m: int, r: int, s: int)
    requires q > 1
  {
    && 0 < r < q && 0 < s < q
    && var F := Zq(q);
    && var w := F.inv(s);
    && var point := F.add(F.mul(m, w), F.mul(F.mul(r, w), public));
    && point != 0 && xOf(point) % q == r
  }

  /** In integers: verification accepts exactly when some nonzero k solves s k = m + r P modulo q and x(k) is r. */
  lemma EcdsaIff(q: nat, xOf: int -> nat, public: int, m: int, r: int, s: int)
    requires Prime(q)
    ensures q > 1
    ensures EcdsaVerifies(q, xOf, public, m, r, s) <==>
            && 0 < r < q && 0 < s < q
            && exists k :: 0 < k < q && (s * k) % q == (m + r * public) % q && xOf(k) % q == r
  {
    hide Lawful, Inverse;
    if 0 < r < q && 0 < s < q {
      var F := Zq(q);
      ZqLawful(q);
      var w, t := F.inv(s), F.add(m, F.mul(r, public));
      var point := F.mul(t, w);
      PullOut(F, m, r, public, w);
      Has(F, t, w);
      Has(F, m, F.mul(r, public));
      TargetValue(q, m, r, public);
      ScaledBack(F, s, t);
      forall k | 0 < k < q && (s * k) % q == (m + r * public) % q
        ensures k == point
      {
        Fields.MulComm(F, s, k);
        Fields.MulComm(F, s, point);
        MulCancel(F, k, point, s);
      }
    }
  }

  lemma TargetValue(q: nat, m: int, r: int, public: int)
    requires q > 1
    ensures Zq(q).add(m, Zq(q).mul(r, public)) == (m + r * public) % q
  {
    ModIdem(r * public, q);
    CongAdd(m, m, (r * public) % q, r * public, q);
  }

  /** s (t / s) = t. */
  lemma ScaledBack(F: Field<int>, s: int, t: int)
    requires Lawful(F) && F.has(s) && s != F.zero && F.has(t)
    ensures F.mul(s, F.mul(t, F.inv(s))) == t
  {
    hide Lawful;
    Fields.MulComm(F, s, F.mul(t, F.inv(s)));
    Fields.MulAssoc(F, t, F.inv(s), s);
    Fields.MulComm(F, F.inv(s), s);
    Unit(F, s);
    Unit(F, t);
  }

  /** gamma / (k * gamma) = 1/k. */
  lemma NoncePoint(F: Field<int>, k: int, gamma: int)
    requires Lawful(F) && F.has(k) && F.has(gamma) && F.mul(k, gamma) != F.zero
    ensures F.mul(gamma, F.inv(F.mul(k, gamma))) == F.inv(k) && k != F.zero && F.inv(k) != F.zero
  {
    hide Lawful;
    MulNonZero(F, k, gamma);
    Fields.MulComm(F, k, gamma);
    InvFactor(F, gamma, k);
    Fields.MulComm(F, gamma, F.inv(F.mul(k, gamma)));
    Has(F, k, k);
    Unit(F, k);
    MulZero(F, k);
  }

  /** m k + r (k x) = k (m + r x). */
  lemma CombineS(F: Field<int>, m: int, r: int, k: int, x: int)
    requires Lawful(F)
    ensures F.add(F.mul(m, k), F.mul(r, F.mul(k, x))) == F.mul(k, F.add(m, F.mul(r, x)))
  {
    hide Lawful;
    Distrib(F, k, m, F.mul(r, x));
    Fields.MulComm(F, m, k);
    Fields.MulAssoc(F, r, k, x);
    Fields.MulComm(F, r, k);
    Fields.MulAssoc(F, k, r, x);
  }

  /** The verifier's point for s = k t, t = m + r x, is 1/k; for -s it is -1/k. */
  lemma VerifierPoint(F: Field<int>, m: int, r: int, k: int, x: int, s: int)
    requires Lawful(F) && F.has(k) && s == F.mul(k, F.add(m, F.mul(r, x))) && s != F.zero
    ensures var w := F.inv(s); F.add(F.mul(m, w), F.mul(F.mul(r, w), x)) == F.inv(k)
    ensures var w := F.inv(F.neg(s)); F.add(F.mul(m, w), F.mul(F.mul(r, w), x)) == F.neg(F.inv(k))
  {
    hide Lawful;
    var t := F.add(m, F.mul(r, x));
    Has(F, m, F.mul(r, x));
    MulNonZero(F, k, t);
    Fields.MulComm(F, k, t);
    InvFactor(F, t, k);
    PullOut(F, m, r, x, F.inv(s));
    Fields.MulComm(F, t, F.inv(s));
    Has(F, k, t);
    InverseOfNegation(F, s);
    PullOut(F, m, r, x, F.neg(F.inv(s)));
    NegMul(F, t, F.inv(s));
  }

  /** m w + (r w) x = (m + r x) w. */
  lemma PullOut(F: Field<int>, m: int, r: int, x: int, w: int)
    requires Lawful(F)
    ensures F.add(F.mul(m, w), F.mul(F.mul(r, w), x)) == F.mul(F.add(m, F.mul(r, x)), w)
  {
    hide Lawful;
    MulSwap3(F, r, w, x);
    DistribRight(F, m, F.mul(r, x), w);
  }

  lemma InverseOfNegation(F: Field<int>, s: int)
    requires Lawful(F) && F.has(s) && s != F.zero
    ensures F.inv(F.neg(s)) == F.neg(F.inv(s)) && F.neg(s) != F.zero
  {
    hide Lawful;
    var i := F.inv(s);
    Has(F, s, s);
    Has(F, i, i);
    Has(F, F.neg(s), F.neg(s));
    Unit(F, s);
    if F.neg(s) == F.zero {
      Unit(F, F.zero);
    }
    Unit(F, F.neg(s));
    NegMul(F, i, F.neg(s));
    NegMul(F, i, s);
    Fields.MulComm(F, i, s);
    DoubleNegation(F, F.one);
    Fields.MulComm(F, F.neg(s), F.inv(F.neg(s)));
    MulCancel(F, F.neg(i), F.inv(F.neg(s)), F.neg(s));
  }

  lemma DoubleNegation(F: Field<int>, a: int)
    requires Lawful(F) && F.has(a)
    ensures F.neg(F.neg(a)) == a
  {
    hide Lawful;
    Unit(F, a);
    AddComm(F, a, F.neg(a));
    NegUnique(F, F.neg(a), a);
  }

  /** `normalize_s`: the smaller of s and q - s. */
  function LowS(q: nat, s: int): int
  {
    if s > q / 2 then q - s else s
  }

  /** A signature with r = x(1/k) and s = k (m + r x) verifies under x, low-S form included. */
  lemma SignatureVerifies(q: nat, xOf: int -> nat, m: int, k: int, x: int, r: int, s: int)
    requires Prime(q) && Even(q, xOf) && 0 < k < q && 0 <= x < q
    requires r == xOf(Zq(q).inv(k)) % q && r != 0
    requires s == Zq(q).mul(k, Zq(q).add(m, Zq(q).mul(r, x))) && s != 0
    ensures EcdsaVerifies(q, xOf, x, m, r, LowS(q, s)) && LowS(q, s) <= q / 2
  {
    var F := Zq(q);
    ZqLawful(q);
    var i := F.inv(k);
    VerifierPoint(F, m, r, k, x, s);
    NonZeroInverse(F, k);
    NegateScalar(q, s);
    NegateScalar(q, i);
  }

  lemma NonZeroInverse(F: Field<int>, k: int)
    requires Lawful(F) && F.has(k) && k != F.zero
    ensures F.has(F.inv(k)) && F.inv(k) != F.zero
  {
    hide Lawful;
    Has(F, k, k);
    Unit(F, k);
    MulZero(F, k);
  }

  lemma NegateScalar(q: nat, a: int)
    requires q > 1 && 0 < a < q
    ensures Zq(q).neg(a) == q - a && 0 < q - a < q
  {
    DivModUnique(-a, q, -1, q - a);
  }

  /** The fold over m*k_i + r*sigma_i. */
  method CombineShares(q: nat, m: int, r: int, k: seq<int>, sigma: seq<int>) returns (s: int)
    requires Prime(q) && |k| == |sigma|
    ensures s == Zq(q).add(Zq(q).mul(m, Sum(Zq(q), k)), Zq(q).mul(r, Sum(Zq(q), sigma)))
  {
    var F := Zq(q);
    s := F.zero;
    FoldStart(q, m, r);
    for i := 0 to |k|
      invariant s == F.add(F.mul(m, Sum(F, k[..i])), F.mul(r, Sum(F, sigma[..i])))
    {
      PrefixStep(F, k, i);
      PrefixStep(F, sigma, i);
      FoldStep(q, m, r, Sum(F, k[..i]), Sum(F, sigma[..i]), k[i], sigma[i]);
      s := F.add(F.add(s, F.mul(m, k[i])), F.mul(r, sigma[i]));
    }
    assert k[..|k|] == k && sigma[..|k|] == sigma;
  }

  lemma FoldStart(q: nat, m: int, r: int)
    requires q > 1
    ensures Zq(q).add(Zq(q).mul(m, 0), Zq(q).mul(r, 0)) == 0
  {
    DivModUnique(0, q, 0, 0);
  }

  lemma FoldStep(q: nat, m: int, r: int, a: int, b: int, k: int, sigma: int)
    requires Prime(q)
    ensures var F := Zq(q);
            F.add(F.add(F.add(F.mul(m, a), F.mul(r, b)), F.mul(m, k)), F.mul(r, sigma))
            == F.add(F.mul(m, F.add(a, k)), F.mul(r, F.add(b, sigma)))
  {
    ZqLawful(q);
    FoldStepField(Zq(q), m, r, a, b, k, sigma);
  }

  lemma FoldStepField(F: Field<int>, m: int, r: int, a: int, b: int, k: int, sigma: int)
    requires Lawful(F)
    ensures F.add(F.add(F.add(F.mul(m, a), F.mul(r, b)), F.mul(m, k)), F.mul(r, sigma))
         == F.add(F.mul(m, F.add(a, k)), F.mul(r, F.add(b, sigma)))
  {
    hide Lawful;
    AddAssoc(F, F.add(F.mul(m, a), F.mul(r, b)), F.mul(m, k), F.mul(r, sigma));
    AddSwap(F, F.mul(m, a), F.mul(r, b), F.mul(m, k), F.mul(r, sigma));
    Distrib(F, m, a, k);
    Distrib(F, r, b, sigma);
  }

  lemma ProductOfSums(q: nat, d: seq<int>, k: seq<int>, g: seq<int>)
    requires q > 1 && Congruent(Total(d), Total(k) * Total(g), q)
    ensures Sum(Zq(q), d) == Zq(q).mul(Sum(Zq(q), k), Sum(Zq(q), g))
  {
    SumIsTotal(q, d);
    SumIsTotal(q, k);
    SumIsTotal(q, g);
    ModIdem(Total(k), q);
    ModIdem(Total(g), q);
    CongMul2(Total(k) % q, Total(k), Total(g) % q, Total(g), q);
  }

  function SharesOfParties(parties: seq<Party>): (shares: seq<Share>)
    ensures |shares| == |parties|
  {
    seq(|parties|, i requires 0 <= i < |parties| => parties[i].share)
  }

  method AdditiveSharesOf(q: nat, parties: seq<Party>) returns (w: seq<int>)
    requires q > 1
    ensures w == AdditiveShares(Zq(q), SharesOfParties(parties)) && Scalars(q, w)
  {
    hide Coefficient;
    var F, shares := Zq(q), SharesOfParties(parties);
    w := [];
    for i := 0 to |parties|
      invariant |w| == i && Scalars(q, w)
      invariant forall j :: 0 <= j < i ==> w[j] == F.mul(Coefficient(F, Xs(shares), shares[j].x), shares[j].y)
    {
      var c := LagrangeCoefficient(q, Xs(shares), parties[i].share.x);
      w := w + [F.mul(c, parties[i].share.y)];
    }
  }

  /** Whether party i's modulus proof is accepted. */
  ghost predicate ProvenModulus(oracle: ModulusProofs.ModulusOracle, parties: seq<Party>, i: nat)
    requires i < |parties|
  {
    ModulusProofs.Accepted(oracle, parties[i].paillier.public.n, parties[i].modulusProof)
  }

  /** A party whose proof was made from its own key is never the one named. */
  lemma HonestNeverBlamed(oracle: ModulusProofs.ModulusOracle, parties: seq<Party>, i: nat, p: nat, q: nat, d: nat)
    requires i < |parties| && ModulusProofs.OddKeyOf(parties[i].paillier, p, q) && parties[i].paillier.lambda > 0
    requires (parties[i].paillier.public.n * d) % parties[i].paillier.lambda == 1 && parties[i].paillier.public.n > 0
    requires parties[i].modulusProof == ModulusProofs.Responses(oracle, parties[i].paillier.public.n, d)
    ensures ProvenModulus(oracle, parties, i)
  {
    hide *;
    ModulusProofs.ModulusComplete(oracle, parties[i].paillier, p, q, d);
    Proven(oracle, parties, i);
  }

  lemma Proven(oracle: ModulusProofs.ModulusOracle, parties: seq<Party>, i: nat)
    requires i < |parties| && ModulusProofs.Accepted(oracle, parties[i].paillier.public.n, parties[i].modulusProof)
    ensures ProvenModulus(oracle, parties, i)
  {
    hide ModulusProofs.Accepted;
  }

  /** The first party whose modulus proof fails, if any. */
  method FindBadModulus(oracle: ModulusProofs.ModulusOracle, parties: seq<Party>) returns (bad: Option<nat>)
    ensures bad.None? ==> forall i :: 0 <= i < |parties| ==> ProvenModulus(oracle, parties, i)
    ensures bad.Some? ==> bad.value < |parties| && !ProvenModulus(oracle, parties, bad.value)
    ensures bad.Some? ==> forall i :: 0 <= i < bad.value ==> ProvenModulus(oracle, parties, i)
  {
    for i := 0 to |parties|
      invariant forall j :: 0 <= j < i ==> ProvenModulus(oracle, parties, j)
    {
      var accepted := ModulusProofs.Verify(oracle, parties[i].paillier.public.n, parties[i].modulusProof);
      if !accepted {
        return Some(i);
      }
    }
    return None;
  }

  /** The ECDSA signature with nonce 1/k on key x, in low-S form; None where r, s or a sum is zero. */
  function Signature(q: nat, xOf: int -> nat, m: int, k: int, gamma: int, x: int): Option<(int, int)>
    requires Prime(q)
  {
    var F := Zq(q);
    if F.mul(k, gamma) == 0 then None
    else
      var r := xOf(F.inv(k)) % q;
      var s := F.mul(k, F.add(m, F.mul(r, x)));
      if r == 0 || s == 0 then None else Some((r, LowS(q, s)))
  }

  /** r and s from the accumulated shares: the signature under the summed nonce and key. */
  method FinishSignature(q: nat, xOf: int -> nat, m: int, k: seq<int>, gamma: seq<int>, ghost w: seq<int>,
                         delta: seq<int>, sigma: seq<int>)
    returns (result: Result<(int, int), SignError>)
    requires Prime(q) && |k| == |gamma| == |delta| == |sigma|
    requires Congruent(Total(delta), Total(k) * Total(gamma), q) && Congruent(Total(sigma), Total(k) * Total(w), q)
    ensures result == match Signature(q, xOf, m, Sum(Zq(q), k), Sum(Zq(q), gamma), Sum(Zq(q), w))
                      case None => Err(Internal(SigningFailed))
                      case Some(pair) => Ok(pair)
    ensures result.Ok? && Even(q, xOf) ==>
              && EcdsaVerifies(q, xOf, Sum(Zq(q), w), m, result.value.0, result.value.1)
              && result.value.1 <= q / 2
  {
    hide *;
    PrimeLarge(q);
    var F := Zq(q);
    ghost var kSum, g, x := Sum(F, k), Sum(F, gamma), Sum(F, w);
    FinishFacts(q, k, gamma, w, delta, sigma);
    var deltaSum := Sum(F, delta);
    if deltaSum == 0 {
      SignatureCases(q, xOf, m, kSum, g, x);
      return Err(Internal(SigningFailed));
    }
    NonceIsInverse(q, kSum, g);
    var gammaPoint := Sum(F, gamma);
    var noncePoint := F.mul(gammaPoint, F.inv(deltaSum));
    if noncePoint == 0 {
      return Err(Internal(SigningFailed));
    }
    SignatureCases(q, xOf, m, kSum, g, x);
    var r := xOf(noncePoint) % q;
    if r == 0 {
      return Err(Internal(SigningFailed));
    }
    var s := CombineShares(q, m, r, k, sigma);
    CombineZq(q, m, r, kSum, x);
    if s == 0 {
      return Err(Internal(SigningFailed));
    }
    if Even(q, xOf) {
      SignatureVerifies(q, xOf, m, kSum, x, r, s);
    }
    return Ok((r, LowS(q, s)));
  }

  lemma FinishFacts(q: nat, k: seq<int>, gamma: seq<int>, w: seq<int>, delta: seq<int>, sigma: seq<int>)
    requires Prime(q)
    requires Congruent(Total(delta), Total(k) * Total(gamma), q) && Congruent(Total(sigma), Total(k) * Total(w), q)
    ensures q > 0 && Sum(Zq(q), delta) == Zq(q).mul(Sum(Zq(q), k), Sum(Zq(q), gamma))
    ensures Sum(Zq(q), sigma) == Zq(q).mul(Sum(Zq(q), k), Sum(Zq(q), w))
    ensures 0 <= Sum(Zq(q), k) < q && 0 <= Sum(Zq(q), w) < q && 0 <= Sum(Zq(q), gamma) < q
  {
    hide Zq, Sum, Total, Congruent;
    SumInRange(q, k);
    SumInRange(q, gamma);
    SumInRange(q, w);
    ProductOfSums(q, delta, k, gamma);
    ProductOfSums(q, sigma, k, w);
  }

  lemma PrimeLarge(q: nat)
    requires Prime(q)
    ensures q > 1
  {
  }

  lemma SumInRange(q: nat, s: seq<int>)
    requires Prime(q)
    ensures 0 <= Sum(Zq(q), s) < q
  {
    hide Lawful, Sum;
    ZqLawful(q);
    SumHas(Zq(q), s);
  }

  lemma NonceIsInverse(q: nat, k: int, gamma: int)
    requires Prime(q) && 0 <= k < q && 0 <= gamma < q && Zq(q).mul(k, gamma) != 0
    ensures k != 0 && Zq(q).mul(gamma, Zq(q).inv(Zq(q).mul(k, gamma))) == Zq(q).inv(k) != 0
  {
    hide Lawful;
    ZqLawful(q);
    NoncePoint(Zq(q), k, gamma);
  }

  lemma CombineZq(q: nat, m: int, r: int, k: int, x: int)
    requires Prime(q) && 0 <= k < q && 0 <= x < q
    ensures Zq(q).add(Zq(q).mul(m, k), Zq(q).mul(r, Zq(q).mul(k, x))) == Zq(q).mul(k, Zq(q).add(m, Zq(q).mul(r, x)))
  {
    hide Lawful;
    ZqLawful(q);
    CombineS(Zq(q), m, r, k, x);
  }

  lemma SignatureCases(q: nat, xOf: int -> nat, m: int, k: int, gamma: int, x: int)
    requires Prime(q)
    ensures q > 0
    ensures var r := xOf(Zq(q).inv(k)) % q;
            var s := Zq(q).mul(k, Zq(q).add(m, Zq(q).mul(r, x)));
            Signature(q, xOf, m, k, gamma, x) ==
            if Zq(q).mul(k, gamma) == 0 || r == 0 || s == 0 then None else Some((r, LowS(q, s)))
  {
    hide Zq, LowS;
  }

  /**
   In integers: with R the inverse of the nonce sum, the signature is x(R) and k (m + r x) in low-S
   form, and there is one unless the masked nonce, r or s vanishes.
   */
  lemma SignatureIff(q: nat, xOf: int -> nat, m: int, k: int, gamma: int, x: int, inverse: int)
    requires Prime(q) && 0 < k < q && 0 <= gamma < q && 0 < inverse < q && (k * inverse) % q == 1
    ensures q > 0
    ensures var r := xOf(inverse) % q;
            var s := (k * (m + r * x)) % q;
            Signature(q, xOf, m, k, gamma, x) ==
            if gamma == 0 || r == 0 || s == 0 then None else Some((r, if s > q / 2 then q - s else s))
  {
    hide Lawful, Inverse, Signature;
    PrimeLarge(q);
    var F := Zq(q);
    ZqLawful(q);
    Has(F, k, k);
    Unit(F, k);
    Fields.MulComm(F, k, inverse);
    Fields.MulComm(F, k, F.inv(k));
    MulCancel(F, inverse, F.inv(k), k);
    var r := xOf(inverse) % q;
    TargetValue(q, m, r, x);
    ModIdem(m + r * x, q);
    CongMul2(k, k, (m + r * x) % q, m + r * x, q);
    MulZero(F, k);
    if F.mul(k, gamma) == 0 {
      NoFactor(F, k, gamma);
    }
    SignatureCases(q, xOf, m, k, gamma, x);
  }

  lemma NoFactor(F: Field<int>, k: int, gamma: int)
    requires Lawful(F) && F.has(k) && F.has(gamma) && k != F.zero && F.mul(k, gamma) == F.zero
    ensures gamma == F.zero
  {
    hide Lawful;
    MulZero(F, k);
    Has(F, k, k);
    Fields.MulComm(F, k, gamma);
    MulCancel(F, gamma, F.zero, k);
  }

  /**
   `sign_identifiable`, up to the DER encoding. A party whose modulus proof fails is named, the
   first one in order; if all are proven, no party is blamed and the signature is returned exactly
   when all proofs fit and it exists; and a signature returned by a quorum of at least t parties of
   one split verifies under the group key in low-S form.
   */
  method SignIdentifiable(oracle: Oracle, modulusOracle: ModulusProofs.ModulusOracle, parties: seq<Party>,
                          ghost primes: seq<(nat, nat)>, draws: DrawTable, q: nat, xOf: int -> nat, m: int,
                          k: seq<int>, gamma: seq<int>)
    returns (result: Result<(int, int), SignError>)
    requires Prime(q) && GoodParties(parties, primes, draws, q)
    requires |k| == |gamma| == |parties| && Scalars(q, k) && Scalars(q, gamma)
    ensures |parties| < 2 ==> result == Err(Internal(InsufficientShares))
    ensures forall i: nat ::
              && 2 <= |parties| && i < |parties| && !ProvenModulus(modulusOracle, parties, i)
              && (forall j: nat :: j < i ==> ProvenModulus(modulusOracle, parties, j))
              ==> result == Err(Fault(i, ModulusProof))
    ensures 2 <= |parties| && (forall i :: 0 <= i < |parties| ==> ProvenModulus(modulusOracle, parties, i)) ==>
              var w := AdditiveShares(Zq(q), SharesOfParties(parties));
              var signature := Signature(q, xOf, m, Sum(Zq(q), k), Sum(Zq(q), gamma), Sum(Zq(q), w));
              result == if AllFit(oracle, parties, draws, q, k, gamma, w) && signature.Some? then Ok(signature.value)
                        else Err(Internal(SigningFailed))
    ensures forall p: seq<int> ::
              && result.Ok? && Even(q, xOf) && p != [] && Scalars(q, p) && |p| <= |parties|
              && SharesOf(q, p, SharesOfParties(parties))
              ==> EcdsaVerifies(q, xOf, p[0], m, result.value.0, result.value.1) && result.value.1 <= q / 2
  {
    hide GoodParties, EcdsaVerifies, SharesOf, Even, Total, Congruent, Sum, AllFit, Signature;
    if |parties| < 2 {
      return Err(Internal(InsufficientShares));
    }
    var bad := FindBadModulus(modulusOracle, parties);
    if bad.Some? {
      return Err(Fault(bad.value, ModulusProof));
    }
    var w := AdditiveSharesOf(q, parties);
    var accumulated := MtaAccumulate(oracle, parties, primes, draws, q, k, gamma, w);
    if accumulated.Err? {
      return Err(Internal(SigningFailed));
    }
    result := FinishSignature(q, xOf, m, k, gamma, w, accumulated.value.0, accumulated.value.1);
    forall p: seq<int> | p != [] && Scalars(q, p) && |p| <= |parties| && SharesOf(q, p, SharesOfParties(parties))
      ensures Sum(Zq(q), w) == p[0]
    {
      AdditiveSharesSum(q, p, SharesOfParties(parties));
    }
  }
}
