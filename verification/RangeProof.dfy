/**
 The two MtA proofs (crates/custody/src/rangeproof.rs): the initiator's range proof and the
 responder's consistency proof. Sampled values are parameters, and the Fiat-Shamir hash is a
 parameter `oracle` over the list of hashed values, reduced modulo q.
 */
module RangeProofs {
  import opened Wrappers
  import opened NumberTheory
  import opened Paillier

  const ATTEMPTS: nat := 32

  datatype RingPedersen = RingPedersen(nTilde: nat, h1: nat, h2: nat)

  datatype RangeProof = RangeProof(z: int, u: int, w: int, s: int, s1: nat, s2: nat)

  datatype ResponderProof = ResponderProof(
    z: int, zPrime: int, t: int, v: int, u: int, s1: nat, s2: nat, t1: nat, t2: nat, sr: int)

  datatype ProofError = Signing

  /** One attempt's draws in `prove`. */
  datatype RangeSample = RangeSample(alpha: nat, rho: nat, gamma: nat, beta: nat)

  /** One attempt's draws in `prove_responder`. */
  datatype ResponderSample = ResponderSample(
    alpha: nat, rho: nat, rhoPrime: nat, sigma: nat, tau: nat, gamma: nat, beta: nat)

  type Oracle = seq<int> -> nat

  function Cube(q: nat): nat
  {
    q * q * q
  }

  ghost predicate Setup(pk: Public, pedersen: RingPedersen, q: nat)
  {
    pk.n > 0 && pk.nn == pk.n * pk.n && pedersen.nTilde > 0 && q > 0
  }

  /** The ring-Pedersen commitment h1^a * h2^b mod nTilde. */
  function Commit(pedersen: RingPedersen, a: nat, b: nat): int
    requires pedersen.nTilde > 0
  {
    ((Pow(pedersen.h1, a) % pedersen.nTilde) * (Pow(pedersen.h2, b) % pedersen.nTilde)) % pedersen.nTilde
  }

  // -------------------------------------------------------------- initiator proof

  function Challenge(oracle: Oracle, c: int, z: int, u: int, w: int, n: int, nTilde: int, q: nat): nat
    requires q > 0
  {
    oracle([c, z, u, w, n, nTilde]) % q
  }

  /** One iteration of `prove`, before its range check. */
  function RangeAttempt(oracle: Oracle, pk: Public, pedersen: RingPedersen, c: int, a: nat, r: nat, q: nat,
                        x: RangeSample): RangeProof
    requires Setup(pk, pedersen, q)
  {
    var z := Commit(pedersen, a, x.rho);
    var u := EncryptWith(pk, x.alpha, x.beta);
    var w := Commit(pedersen, x.alpha, x.gamma);
    var e := Challenge(oracle, c, z, u, w, pk.n, pedersen.nTilde, q);
    RangeProof(z, u, w, ((Pow(r, e) % pk.n) * x.beta) % pk.n, e * a + x.alpha, e * x.rho + x.gamma)
  }

  predicate VerifyRange(oracle: Oracle, pk: Public, pedersen: RingPedersen, c: int, proof: RangeProof, q: nat)
    requires Setup(pk, pedersen, q)
  {
    && proof.s1 <= Cube(q)
    && var e := Challenge(oracle, c, proof.z, proof.u, proof.w, pk.n, pedersen.nTilde, q);
    && (((1 + proof.s1 * pk.n) % pk.nn) * (Pow(proof.s, pk.n) % pk.nn)) % pk.nn
       == (proof.u * (Pow(c, e) % pk.nn)) % pk.nn
    && Commit(pedersen, proof.s1, proof.s2)
       == (proof.w * (Pow(proof.z, e) % pedersen.nTilde)) % pedersen.nTilde
  }

  /** The homomorphism both Pedersen checks rest on. */
  lemma CommitCombines(pedersen: RingPedersen, a: nat, b: nat, a': nat, b': nat, e: nat)
    requires pedersen.nTilde > 0
    ensures Commit(pedersen, e * a + a', e * b + b')
         == (Commit(pedersen, a', b') * (Pow(Commit(pedersen, a, b), e) % pedersen.nTilde)) % pedersen.nTilde
  {
    hide *;
    var m, h1, h2 := pedersen.nTilde, pedersen.h1, pedersen.h2;
    CommitValue(pedersen, a, b);
    CommitValue(pedersen, a', b');
    CommitValue(pedersen, e * a + a', e * b + b');
    CongPow(Commit(pedersen, a, b), Pow(h1, a) * Pow(h2, b), e, m);
    PowDistributes(Pow(h1, a), Pow(h2, b), e);
    PowMul(h1, a, e);
    PowMul(h2, b, e);
    MulComm(a, e);
    MulComm(b, e);
    ModIdem(Pow(Commit(pedersen, a, b), e), m);
    CongMul2(Commit(pedersen, a', b'), Pow(h1, a') * Pow(h2, b'),
             Pow(Commit(pedersen, a, b), e) % m, Pow(h1, e * a) * Pow(h2, e * b), m);
    MulInterchange(Pow(h1, a'), Pow(h2, b'), Pow(h1, e * a), Pow(h2, e * b));
    PowAdd(h1, a', e * a);
    PowAdd(h2, b', e * b);
  }

  lemma CommitValue(pedersen: RingPedersen, a: nat, b: nat)
    requires pedersen.nTilde > 0
    ensures Commit(pedersen, a, b) == (Pow(pedersen.h1, a) * Pow(pedersen.h2, b)) % pedersen.nTilde
    ensures Commit(pedersen, a, b) % pedersen.nTilde == Commit(pedersen, a, b)
  {
    var m, x, y := pedersen.nTilde, Pow(pedersen.h1, a), Pow(pedersen.h2, b);
    ModIdem(x, m);
    ModIdem(y, m);
    CongMul2(x % m, x, y % m, y, m);
    ModIdem(x * y, m);
  }

  /** The response nonce (r^e mod n) * beta mod n stands for r^e * beta. */
  lemma ResponseNonce(r: int, e: nat, beta: int, n: nat)
    requires n > 0
    ensures (((Pow(r, e) % n) * beta) % n) % n == (Pow(r, e) * beta) % n
  {
    ModIdem((Pow(r, e) % n) * beta, n);
    ModIdem(Pow(r, e), n);
    CongMul(Pow(r, e) % n, Pow(r, e), beta, n);
  }

  /** Enc(e*a + alpha; (r^e * beta) mod n) equals Enc(alpha; beta) * c^e for any c encrypting a under r. */
  lemma PaillierResponse(pk: Public, c: int, a: nat, r: nat, alpha: nat, beta: nat, e: nat, s: int)
    requires pk.n > 0 && pk.nn == pk.n * pk.n && Encrypts(pk.n, c, a, r)
    requires s % pk.n == (Pow(r, e) * beta) % pk.n
    ensures Encrypts(pk.n, EncryptWith(pk, alpha, beta) * Pow(c, e), e * a + alpha, s)
  {
    var n, u := pk.n, EncryptWith(pk, alpha, beta);
    EncryptEncrypts(pk, alpha, beta);
    EncryptsPower(n, c, a, r, e);
    EncryptsProduct(n, u, alpha, beta, Pow(c, e), e * a, Pow(r, e));
    MulComm(beta, Pow(r, e));
    EncryptsNonce(n, u * Pow(c, e), alpha + e * a, beta * Pow(r, e), s);
  }

  lemma ReduceFactor(u: int, v: int, m: int)
    requires m > 0
    ensures (u * (v % m)) % m == (u * v) % m
  {
    ModIdem(v, m);
    CongMul(v % m, v, u, m);
    MulComm(v % m, u);
    MulComm(v, u);
  }

  /** Every in-range attempt verifies, for all inputs and all randomness. */
  lemma RangeComplete(oracle: Oracle, pk: Public, pedersen: RingPedersen, a: nat, r: nat, q: nat, x: RangeSample)
    requires Setup(pk, pedersen, q)
    ensures var c := EncryptWith(pk, a, r);
            var proof := RangeAttempt(oracle, pk, pedersen, c, a, r, q, x);
            VerifyRange(oracle, pk, pedersen, c, proof, q) <==> proof.s1 <= Cube(q)
  {
    var c := EncryptWith(pk, a, r);
    var proof := RangeAttempt(oracle, pk, pedersen, c, a, r, q, x);
    var e := Challenge(oracle, c, proof.z, proof.u, proof.w, pk.n, pedersen.nTilde, q);
    CommitCombines(pedersen, a, x.rho, x.alpha, x.gamma, e);
    EncryptEncrypts(pk, a, r);
    ResponseNonce(r, e, x.beta, pk.n);
    PaillierResponse(pk, c, a, r, x.alpha, x.beta, e, proof.s);
    EncryptEncrypts(pk, proof.s1, proof.s);
    ModIdem(((1 + proof.s1 * pk.n) % pk.nn) * (Pow(proof.s, pk.n) % pk.nn), pk.nn);
    ReduceFactor(proof.u, Pow(c, e), pk.nn);
  }

  /**
   `prove`: up to 32 attempts, keeping the first whose response is in range. Whatever it
   returns verifies; it fails exactly when every attempt overshoots q^3.
   */
  method ProveRange(oracle: Oracle, pk: Public, pedersen: RingPedersen, c: int, a: nat, r: nat, q: nat,
                    samples: seq<RangeSample>)
    returns (result: Result<RangeProof, ProofError>)
    requires Setup(pk, pedersen, q) && |samples| == 32 && c == EncryptWith(pk, a, r)
    ensures result.Ok? ==> VerifyRange(oracle, pk, pedersen, c, result.value, q)
    ensures result.Ok? ==>
              exists i ::
                && 0 <= i < 32 && result.value == RangeAttempt(oracle, pk, pedersen, c, a, r, q, samples[i])
                && forall j :: 0 <= j < i ==> RangeAttempt(oracle, pk, pedersen, c, a, r, q, samples[j]).s1 > Cube(q)
    ensures result.Ok? <==>
              exists i ::
                && 0 <= i < 32
                && RangeAttempt(oracle, pk, pedersen, c, a, r, q, samples[i]).s1 <= Cube(q)
  {
    for i := 0 to ATTEMPTS
      invariant forall j :: 0 <= j < i ==>
                  RangeAttempt(oracle, pk, pedersen, c, a, r, q, samples[j]).s1 > Cube(q)
    {
      var proof := RangeAttempt(oracle, pk, pedersen, c, a, r, q, samples[i]);
      if proof.s1 <= Cube(q) {
        RangeComplete(oracle, pk, pedersen, a, r, q, samples[i]);
        return Ok(proof);
      }
    }
    return Err(Signing);
  }

  // -------------------------------------------------------------- responder proof

  function ChallengeResponder(oracle: Oracle, ca: int, cb: int, z: int, zPrime: int, t: int, v: int, u: int,
                              n: int, nTilde: int, q: nat): nat
    requires q > 0
  {
    oracle([ca, cb, z, zPrime, t, v, u, n, nTilde]) % q
  }

  /** The MtA response c_a^x * Enc(y; s) as `gg20::mta` forms it. */
  function Response(pk: Public, ca: int, x: nat, y: nat, s: nat): int
    requires pk.nn > 0
  {
    Add(pk, MulConst(pk, ca, x), EncryptWith(pk, y, s))
  }

  /** ca^x * (1 + yn) * s^n mod n^2, the shape of both sides of the responder check. */
  function Shaped(pk: Public, ca: int, x: nat, y: nat, s: int): int
    requires pk.nn > 0
  {
    ((((Pow(ca, x) % pk.nn) * ((1 + y * pk.n) % pk.nn)) % pk.nn) * (Pow(s, pk.n) % pk.nn)) % pk.nn
  }

  /** One iteration of `prove_responder`, before its range check. */
  function ResponderAttempt(oracle: Oracle, pk: Public, pedersen: RingPedersen, ca: int, cb: int,
                            x: nat, y: nat, s: nat, q: nat, d: ResponderSample): ResponderProof
    requires Setup(pk, pedersen, q)
  {
    var u := Shaped(pk, ca, d.alpha, d.gamma, d.beta);
    var z := Commit(pedersen, x, d.rho);
    var zPrime := Commit(pedersen, d.alpha, d.rhoPrime);
    var t := Commit(pedersen, y, d.sigma);
    var v := Commit(pedersen, d.gamma, d.tau);
    var e := ChallengeResponder(oracle, ca, cb, z, zPrime, t, v, u, pk.n, pedersen.nTilde, q);
    ResponderProof(z, zPrime, t, v, u, e * x + d.alpha, e * d.rho + d.rhoPrime, e * y + d.gamma,
                   e * d.sigma + d.tau, ((Pow(s, e) % pk.n) * d.beta) % pk.n)
  }

  predicate VerifyResponder(oracle: Oracle, pk: Public, pedersen: RingPedersen, ca: int, cb: int,
                            proof: ResponderProof, q: nat)
    requires Setup(pk, pedersen, q)
  {
    && proof.s1 <= Cube(q)
    && var e := ChallengeResponder(oracle, ca, cb, proof.z, proof.zPrime, proof.t, proof.v, proof.u,
                                   pk.n, pedersen.nTilde, q);
    && Shaped(pk, ca, proof.s1, proof.t1, proof.sr) == (proof.u * (Pow(cb, e) % pk.nn)) % pk.nn
    && Commit(pedersen, proof.s1, proof.s2)
       == (proof.zPrime * (Pow(proof.z, e) % pedersen.nTilde)) % pedersen.nTilde
    && Commit(pedersen, proof.t1, proof.t2)
       == (proof.v * (Pow(proof.t, e) % pedersen.nTilde)) % pedersen.nTilde
  }

  /** c is ca^x times something encrypting y under s. */
  ghost predicate Responds(n: nat, ca: int, c: int, x: nat, d: int, y: int, s: int)
    requires n > 0
  {
    c % (n * n) == (Pow(ca, x) * d) % (n * n) && Encrypts(n, d, y, s)
  }

  lemma ShapedResponds(pk: Public, ca: int, x: nat, y: nat, s: int)
    requires pk.n > 0 && pk.nn == pk.n * pk.n
    ensures Responds(pk.n, ca, Shaped(pk, ca, x, y, s), x, (1 + y * pk.n) * Pow(s, pk.n), y, s)
    ensures Shaped(pk, ca, x, y, s) % pk.nn == Shaped(pk, ca, x, y, s)
  {
    var n, nn := pk.n, pk.nn;
    var p, g, t := Pow(ca, x), 1 + y * n, Pow(s, n);
    var inner := ((p % nn) * (g % nn)) % nn;
    ModIdem(p, nn);
    ModIdem(g, nn);
    ModIdem(t, nn);
    CongMul2(p % nn, p, g % nn, g, nn);
    ModIdem((p % nn) * (g % nn), nn);
    CongMul2(inner, p * g, t % nn, t, nn);
    ModIdem(inner * (t % nn), nn);
    MulAssoc(p, g, t);
  }

  lemma ResponseResponds(pk: Public, ca: int, x: nat, y: nat, s: nat)
    requires pk.n > 0 && pk.nn == pk.n * pk.n
    ensures Responds(pk.n, ca, Response(pk, ca, x, y, s), x, EncryptWith(pk, y, s), y, s)
  {
    var nn, d := pk.nn, EncryptWith(pk, y, s);
    EncryptEncrypts(pk, y, s);
    ModIdem(Pow(ca, x), nn);
    CongMul(Pow(ca, x) % nn, Pow(ca, x), d, nn);
    ModIdem((Pow(ca, x) % nn) * d, nn);
  }

  lemma RespondsProduct(n: nat, ca: int, c1: int, x1: nat, d1: int, y1: int, s1: int,
                        c2: int, x2: nat, d2: int, y2: int, s2: int)
    requires n > 0 && Responds(n, ca, c1, x1, d1, y1, s1) && Responds(n, ca, c2, x2, d2, y2, s2)
    ensures Responds(n, ca, c1 * c2, x1 + x2, d1 * d2, y1 + y2, s1 * s2)
  {
    CongMul2(c1, Pow(ca, x1) * d1, c2, Pow(ca, x2) * d2, n * n);
    MulInterchange(Pow(ca, x1), d1, Pow(ca, x2), d2);
    PowAdd(ca, x1, x2);
    EncryptsProduct(n, d1, y1, s1, d2, y2, s2);
  }

  lemma RespondsPower(n: nat, ca: int, c: int, x: nat, d: int, y: int, s: int, e: nat)
    requires n > 0 && Responds(n, ca, c, x, d, y, s)
    ensures Responds(n, ca, Pow(c, e), e * x, Pow(d, e), e * y, Pow(s, e))
  {
    CongPow(c, Pow(ca, x) * d, e, n * n);
    PowDistributes(Pow(ca, x), d, e);
    PowMul(ca, x, e);
    MulComm(x, e);
    EncryptsPower(n, d, y, s, e);
  }

  /** Two responses with one shape are one residue. */
  lemma RespondsSame(n: nat, ca: int, c: int, c': int, x: nat, d: int, d': int, y: int, s: int, s': int)
    requires n > 0 && Responds(n, ca, c, x, d, y, s) && Responds(n, ca, c', x, d', y, s') && s % n == s' % n
    ensures c % (n * n) == c' % (n * n)
  {
    EncryptsNonce(n, d', y, s', s);
    CongMul(d, d', Pow(ca, x), n * n);
    MulComm(d, Pow(ca, x));
    MulComm(d', Pow(ca, x));
  }

  lemma ResponderPaillier(pk: Public, ca: int, x: nat, y: nat, s: nat, alpha: nat, gamma: nat, beta: nat,
                          e: nat, sr: int)
    requires pk.n > 0 && pk.nn == pk.n * pk.n && sr % pk.n == (Pow(s, e) * beta) % pk.n
    ensures Shaped(pk, ca, e * x + alpha, e * y + gamma, sr)
         == (Shaped(pk, ca, alpha, gamma, beta) * (Pow(Response(pk, ca, x, y, s), e) % pk.nn)) % pk.nn
  {
    hide *;
    var n, u, cb := pk.n, Shaped(pk, ca, alpha, gamma, beta), Response(pk, ca, x, y, s);
    var du, dc := (1 + gamma * n) * Pow(beta, n), EncryptWith(pk, y, s);
    ShapedResponds(pk, ca, alpha, gamma, beta);
    ResponseResponds(pk, ca, x, y, s);
    RespondsPower(n, ca, cb, x, dc, y, s, e);
    RespondsProduct(n, ca, Pow(cb, e), e * x, Pow(dc, e), e * y, Pow(s, e), u, alpha, du, gamma, beta);
    ShapedResponds(pk, ca, e * x + alpha, e * y + gamma, sr);
    RespondsSame(n, ca, Shaped(pk, ca, e * x + alpha, e * y + gamma, sr), Pow(cb, e) * u, e * x + alpha,
                 (1 + (e * y + gamma) * n) * Pow(sr, n), Pow(dc, e) * du, e * y + gamma, sr, Pow(s, e) * beta);
    MulComm(Pow(cb, e), u);
    ReduceFactor(u, Pow(cb, e), pk.nn);
  }

  /** Every in-range responder attempt verifies, for all inputs and all randomness. */
  lemma ResponderComplete(oracle: Oracle, pk: Public, pedersen: RingPedersen, ca: int, x: nat, y: nat, s: nat,
                          q: nat, d: ResponderSample)
    requires Setup(pk, pedersen, q)
    ensures var cb := Response(pk, ca, x, y, s);
            var proof := ResponderAttempt(oracle, pk, pedersen, ca, cb, x, y, s, q, d);
            VerifyResponder(oracle, pk, pedersen, ca, cb, proof, q) <==> proof.s1 <= Cube(q)
  {
    var cb := Response(pk, ca, x, y, s);
    var proof := ResponderAttempt(oracle, pk, pedersen, ca, cb, x, y, s, q, d);
    var e := ChallengeResponder(oracle, ca, cb, proof.z, proof.zPrime, proof.t, proof.v, proof.u,
                                pk.n, pedersen.nTilde, q);
    CommitCombines(pedersen, x, d.rho, d.alpha, d.rhoPrime, e);
    CommitCombines(pedersen, y, d.sigma, d.gamma, d.tau, e);
    ResponseNonce(s, e, d.beta, pk.n);
    ResponderPaillier(pk, ca, x, y, s, d.alpha, d.gamma, d.beta, e, proof.sr);
  }

  /** `prove_responder`, as `ProveRange`. */
  method ProveResponder(oracle: Oracle, pk: Public, pedersen: RingPedersen, ca: int, cb: int, x: nat, y: nat,
                        s: nat, q: nat, samples: seq<ResponderSample>)
    returns (result: Result<ResponderProof, ProofError>)
    requires Setup(pk, pedersen, q) && |samples| == 32 && cb == Response(pk, ca, x, y, s)
    ensures result.Ok? ==> VerifyResponder(oracle, pk, pedersen, ca, cb, result.value, q)
    ensures result.Ok? ==>
              exists i ::
                && 0 <= i < 32
                && result.value == ResponderAttempt(oracle, pk, pedersen, ca, cb, x, y, s, q, samples[i])
                && forall j :: 0 <= j < i ==>
                     ResponderAttempt(oracle, pk, pedersen, ca, cb, x, y, s, q, samples[j]).s1 > Cube(q)
    ensures result.Ok? <==>
              exists i ::
                && 0 <= i < 32
                && ResponderAttempt(oracle, pk, pedersen, ca, cb, x, y, s, q, samples[i]).s1 <= Cube(q)
  {
    for i := 0 to ATTEMPTS
      invariant forall j :: 0 <= j < i ==>
                  ResponderAttempt(oracle, pk, pedersen, ca, cb, x, y, s, q, samples[j]).s1 > Cube(q)
    {
      var proof := ResponderAttempt(oracle, pk, pedersen, ca, cb, x, y, s, q, samples[i]);
      if proof.s1 <= Cube(q) {
        ResponderComplete(oracle, pk, pedersen, ca, x, y, s, q, samples[i]);
        return Ok(proof);
      }
    }
    return Err(Signing);
  }
}
