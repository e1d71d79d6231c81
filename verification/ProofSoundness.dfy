/**
 What accepted MtA proofs establish (crates/custody/src/rangeproof.rs): the exact equations each
 verifier accepts, what they say about the plaintexts, and what two accepted answers to different
 challenges on one first message determine.
 */
module ProofSoundness {
  import opened Wrappers
  import opened NumberTheory
  import opened Paillier
  import opened RangeProofs

  // ------------------------------------------------------------ decryption is a homomorphism

  /** c decrypts to m: raised to lambda, c is 1 + (lambda m) n. */
  ghost predicate Carries(sk: Private, c: int, m: int)
    requires sk.public.n > 0
  {
    Encrypts(sk.public.n, Pow(c, sk.lambda), sk.lambda * m, 1)
  }

  lemma CarriesDecrypts(sk: Private, p: nat, q: nat, c: int, m: int)
    requires KeyOf(sk, p, q) && sk.public.n > 1 && sk.public.nn > 0 && Carries(sk, c, m)
    ensures Decrypt(sk, c) == Some(m % sk.public.n)
  {
    hide Pow, Prime, Lcm;
    var n, e := sk.public.n, sk.lambda;
    OnePow(n);
    LOfOnePlus(n, e * m);
    UndoLambda(n, e, sk.mu, m);
  }

  /** Every unit carries what it decrypts to. */
  lemma UnitCarries(sk: Private, p: nat, q: nat, c: int)
    requires KeyOf(sk, p, q) && c % p != 0 && c % q != 0
    ensures sk.public.n > 1 && sk.public.nn > 0
    ensures Decrypt(sk, c).Some? && Carries(sk, c, Decrypt(sk, c).value)
  {
    hide Pow, Prime, Lcm, Carries;
    var n, nn := sk.public.n, sk.public.nn;
    KeyModulus(sk, p, q);
    CarmichaelUnit(p, q, c);
    var k := Pow(c, sk.lambda);
    OnePlusMultiple(n, k);
    var x := (k % nn - 1) / n;
    LambdaUndone(n, sk.lambda, sk.mu, x);
    CarriesValue(sk, c, x, (x * sk.mu) % n);
  }

  /** A number that is 1 modulo n is 1 + xn modulo n^2, with x read off as `decrypt` does. */
  lemma OnePlusMultiple(n: nat, k: int)
    requires n > 1 && k % n == 1
    ensures n * n > 0 && k % (n * n) > 0 && k % (n * n) == 1 + ((k % (n * n) - 1) / n) * n
  {
    var u := k % (n * n);
    MulMono(1, n, n);
    assert k == (k / (n * n)) * (n * n) + u;
    MulAssoc(k / (n * n), n, n);
    ModShift(u, (k / (n * n)) * n, n);
    MinusOne(n, u);
  }

  lemma LambdaUndone(n: nat, lambda: nat, mu: nat, x: int)
    requires n > 1 && (lambda * mu) % n == 1
    ensures (lambda * ((x * mu) % n)) % n == x % n
  {
    ModIdem(x * mu, n);
    CongMul((x * mu) % n, x * mu, lambda, n);
    MulComm((x * mu) % n, lambda);
    assert (x * mu) * lambda == (lambda * mu) * x;
    DivModUnique(1, n, 0, 1);
    CongMul(lambda * mu, 1, x, n);
  }

  lemma CarriesValue(sk: Private, c: int, x: int, m: int)
    requires sk.public.n > 1 && Pow(c, sk.lambda) % (sk.public.n * sk.public.n) == 1 + x * sk.public.n
    requires (sk.lambda * m) % sk.public.n == x % sk.public.n
    ensures Carries(sk, c, m)
  {
    hide Pow;
    var n, y := sk.public.n, sk.lambda * m;
    var k := CongIff(y, x, n);
    Distribute(x, k * n, n);
    MulAssoc(k, n, n);
    ModShift(1 + x * n, k, n * n);
    ModIdem(Pow(c, sk.lambda), n * n);
    OnePow(n);
    assert (1 + y * n) * 1 == 1 + y * n;
  }

  lemma CarriesProduct(sk: Private, c1: int, m1: int, c2: int, m2: int)
    requires sk.public.n > 0 && Carries(sk, c1, m1) && Carries(sk, c2, m2)
    ensures Carries(sk, c1 * c2, m1 + m2)
  {
    hide Pow, Encrypts;
    PowDistributes(c1, c2, sk.lambda);
    EncryptsProduct(sk.public.n, Pow(c1, sk.lambda), sk.lambda * m1, 1, Pow(c2, sk.lambda), sk.lambda * m2, 1);
    LambdaSum(sk.lambda, m1, m2);
  }

  lemma LambdaSum(k: int, x: int, y: int)
    ensures k * x + k * y == k * (x + y)
  {
  }

  lemma CarriesPower(sk: Private, c: int, m: int, e: nat)
    requires sk.public.n > 0 && Carries(sk, c, m)
    ensures Carries(sk, Pow(c, e), e * m)
  {
    hide Pow, Encrypts;
    EncryptsPower(sk.public.n, Pow(c, sk.lambda), sk.lambda * m, 1, e);
    OnePow(e);
    PowMul(c, sk.lambda, e);
    PowMul(c, e, sk.lambda);
    MulComm(sk.lambda, e);
    MulAssoc(e, sk.lambda, m);
    MulAssoc(sk.lambda, e, m);
  }

  lemma CarriesSame(sk: Private, c: int, c': int, m: int)
    requires sk.public.n > 0 && Carries(sk, c, m) && c % (sk.public.n * sk.public.n) == c' % (sk.public.n * sk.public.n)
    ensures Carries(sk, c', m)
  {
    hide Pow;
    CongPow(c, c', sk.lambda, sk.public.n * sk.public.n);
  }

  /** A ciphertext under a unit nonce carries its plaintext. */
  lemma CipherCarries(sk: Private, p: nat, q: nat, c: int, m: int, s: int)
    requires KeyOf(sk, p, q) && sk.public.n > 1 && Encrypts(sk.public.n, c, m, s) && s % p != 0 && s % q != 0
    ensures Carries(sk, c, m)
  {
    hide Pow, Prime, Lcm;
    CarmichaelUnit(p, q, s);
    StripNonce(sk.public.n, sk.lambda, c, m, s);
    OnePow(sk.public.n);
  }

  /** Decryption turns products of any units into sums, and powers into multiples. */
  lemma DecryptHomomorphic(sk: Private, p: nat, q: nat, c1: int, c2: int, e: nat)
    requires KeyOf(sk, p, q) && c1 % p != 0 && c1 % q != 0 && c2 % p != 0 && c2 % q != 0
    ensures sk.public.n > 0 && sk.public.nn > 0 && Decrypt(sk, c1).Some? && Decrypt(sk, c2).Some?
    ensures Decrypt(sk, c1 * Pow(c2, e)) == Some((Decrypt(sk, c1).value + e * Decrypt(sk, c2).value) % sk.public.n)
  {
    hide Pow, Prime, Lcm, Carries, Decrypt;
    UnitCarries(sk, p, q, c1);
    UnitCarries(sk, p, q, c2);
    var m1, m2 := Decrypt(sk, c1).value, Decrypt(sk, c2).value;
    CarriesPower(sk, c2, m2, e);
    CarriesProduct(sk, c1, m1, Pow(c2, e), e * m2);
    CarriesDecrypts(sk, p, q, c1 * Pow(c2, e), m1 + e * m2);
  }

  /** A nonce of a unit is a unit. */
  lemma NonceUnit(n: nat, p: nat, k: int, c: int, g: int, s: int)
    requires Prime(p) && n == p * k && n > 0 && c % p != 0 && c % (n * n) == (g * Pow(s, n)) % (n * n)
    ensures s % p != 0
  {
    hide Pow, Prime;
    FactorCong(n, p, k, c, g * Pow(s, n));
    if s % p == 0 {
      PowZero(p, s, n);
      FactorZero(p, g, Pow(s, n));
    }
  }

  lemma FactorCong(n: nat, p: nat, k: int, a: int, b: int)
    requires p > 0 && n == p * k && n > 0 && a % (n * n) == b % (n * n)
    ensures a % p == b % p
  {
    var t := CongIff(a, b, n * n);
    MulAssoc(p, k, n);
    MulComm(p, k * n);
    MulAssoc(t, k * n, p);
    ModShift(b, t * (k * n), p);
  }

  lemma PowZero(p: nat, s: int, n: nat)
    requires p > 1 && s % p == 0 && n > 0
    ensures Pow(s, n) % p == 0
  {
    DivModUnique(0, p, 0, 0);
    CongMul(s, 0, Pow(s, n - 1), p);
  }

  lemma FactorZero(p: nat, g: int, x: int)
    requires p > 0 && x % p == 0
    ensures (g * x) % p == 0
  {
    DivModUnique(0, p, 0, 0);
    CongMul(x, 0, g, p);
    MulComm(x, g);
  }

  /** A product of units with a power of a unit is a unit. */
  lemma UnitTimesPower(p: nat, u: int, c: int, e: nat)
    requires Prime(p) && u % p != 0 && c % p != 0
    ensures (u * Pow(c, e)) % p != 0
  {
    hide Pow, Prime;
    UnitPower(p, c, e);
    UnitProduct(p, u, Pow(c, e));
  }

  // ------------------------------------------------------------------- the initiator proof

  /** What `verify` accepts, written out: the range, the ciphertext equation, the commitment equation. */
  lemma RangeAcceptsIff(oracle: Oracle, pk: Public, pedersen: RingPedersen, c: int, proof: RangeProof, q: nat)
    requires Setup(pk, pedersen, q)
    ensures var e := oracle([c, proof.z, proof.u, proof.w, pk.n, pedersen.nTilde]) % q;
            VerifyRange(oracle, pk, pedersen, c, proof, q) <==>
              && proof.s1 <= q * q * q
              && Encrypts(pk.n, proof.u * Pow(c, e), proof.s1, proof.s)
              && Congruent(Pow(pedersen.h1, proof.s1) * Pow(pedersen.h2, proof.s2), proof.w * Pow(proof.z, e), pedersen.nTilde)
  {
    hide Pow;
    var e := oracle([c, proof.z, proof.u, proof.w, pk.n, pedersen.nTilde]) % q;
    var nn := pk.nn;
    CommitValue(pedersen, proof.s1, proof.s2);
    ReduceFactor(proof.w, Pow(proof.z, e), pedersen.nTilde);
    ReduceFactor(proof.u, Pow(c, e), nn);
    ReduceBoth(1 + proof.s1 * pk.n, Pow(proof.s, pk.n), nn);
  }

  lemma ReduceBoth(x: int, y: int, m: int)
    requires m > 0
    ensures ((x % m) * (y % m)) % m == (x * y) % m
  {
    ModIdem(x, m);
    ModIdem(y, m);
    CongMul2(x % m, x, y % m, y, m);
  }

  /** An accepted proof answers truthfully about the plaintexts: s1 is Dec(u) + e Dec(c) modulo n. */
  lemma RangeAnswers(
      oracle: Oracle, sk: Private, p1: nat, p2: nat, pedersen: RingPedersen, c: int, proof: RangeProof, q: nat)
    requires KeyOf(sk, p1, p2) && Setup(sk.public, pedersen, q)
    requires c % p1 != 0 && c % p2 != 0 && proof.u % p1 != 0 && proof.u % p2 != 0
    requires VerifyRange(oracle, sk.public, pedersen, c, proof, q)
    ensures Decrypt(sk, c).Some? && Decrypt(sk, proof.u).Some?
    ensures var e := oracle([c, proof.z, proof.u, proof.w, sk.public.n, pedersen.nTilde]) % q;
            proof.s1 % sk.public.n == (Decrypt(sk, proof.u).value + e * Decrypt(sk, c).value) % sk.public.n
  {
    hide Pow, Prime, Lcm, Decrypt, VerifyRange, Carries;
    var n := sk.public.n;
    var e := oracle([c, proof.z, proof.u, proof.w, n, pedersen.nTilde]) % q;
    RangeAcceptsIff(oracle, sk.public, pedersen, c, proof, q);
    var x := proof.u * Pow(c, e);
    KeyModulus(sk, p1, p2);
    DecryptHomomorphic(sk, p1, p2, proof.u, c, e);
    UnitTimesPower(p1, proof.u, c, e);
    UnitTimesPower(p2, proof.u, c, e);
    NonceUnit(n, p1, p2, x, 1 + proof.s1 * n, proof.s);
    MulComm(p1, p2);
    NonceUnit(n, p2, p1, x, 1 + proof.s1 * n, proof.s);
    CipherCarries(sk, p1, p2, x, proof.s1, proof.s);
    CarriesDecrypts(sk, p1, p2, x, proof.s1);
  }

  /** Two accepted answers to one first message. */
  lemma RangeTwoAnswers(
      oracle: Oracle, oracle': Oracle, pk: Public, pedersen: RingPedersen, c: int, a: RangeProof, b: RangeProof, q: nat)
    requires Setup(pk, pedersen, q) && a.z == b.z && a.u == b.u && a.w == b.w
    requires VerifyRange(oracle, pk, pedersen, c, a, q) && VerifyRange(oracle', pk, pedersen, c, b, q)
    requires oracle([c, a.z, a.u, a.w, pk.n, pedersen.nTilde]) % q >= oracle'([c, a.z, a.u, a.w, pk.n, pedersen.nTilde]) % q
    ensures var first := [c, a.z, a.u, a.w, pk.n, pedersen.nTilde];
            var k := oracle(first) % q - oracle'(first) % q;
            && Congruent((1 + a.s1 * pk.n) * Pow(a.s, pk.n), ((1 + b.s1 * pk.n) * Pow(b.s, pk.n)) * Pow(c, k), pk.n * pk.n)
            && Congruent(Pow(pedersen.h1, a.s1) * Pow(pedersen.h2, a.s2),
                         (Pow(pedersen.h1, b.s1) * Pow(pedersen.h2, b.s2)) * Pow(a.z, k), pedersen.nTilde)
  {
    hide Pow, VerifyRange;
    var e, e' := oracle([c, a.z, a.u, a.w, pk.n, pedersen.nTilde]) % q, oracle'([c, a.z, a.u, a.w, pk.n, pedersen.nTilde]) % q;
    RangeAcceptsIff(oracle, pk, pedersen, c, a, q);
    RangeAcceptsIff(oracle', pk, pedersen, c, b, q);
    PositiveSquare(pk.n);
    Divided(a.u, c, e, e', (1 + a.s1 * pk.n) * Pow(a.s, pk.n), (1 + b.s1 * pk.n) * Pow(b.s, pk.n), pk.n * pk.n);
    Divided(a.w, a.z, e, e', Pow(pedersen.h1, a.s1) * Pow(pedersen.h2, a.s2),
            Pow(pedersen.h1, b.s1) * Pow(pedersen.h2, b.s2), pedersen.nTilde);
  }

  lemma PositiveSquare(n: nat)
    requires n > 0
    ensures n * n > 0
  {
  }

  /** From u c^e = x and u c^e' = y: x = y c^(e - e'). */
  lemma Divided(u: int, c: int, e: nat, e': nat, x: int, y: int, m: int)
    requires m > 0 && e' <= e && (u * Pow(c, e)) % m == x % m && (u * Pow(c, e')) % m == y % m
    ensures x % m == (y * Pow(c, e - e')) % m
  {
    hide Pow;
    PowAdd(c, e', e - e');
    MulAssoc(u, Pow(c, e'), Pow(c, e - e'));
    CongMul(u * Pow(c, e'), y, Pow(c, e - e'), m);
  }

  ghost predicate DecryptsTo(sk: Private, c: int, m: int)
  {
    sk.public.n > 0 && sk.public.nn > 0 && Decrypt(sk, c) == Some(m)
  }

  /** The difference of two responses in range. */
  ghost predicate InRange(x: int, q: nat)
  {
    x <= q * q * q && -x <= q * q * q
  }

  /**
   So the plaintext of c is determined: two accepted answers to challenges e and e' give
   (e - e') Dec(c) = s1 - s1' modulo n, with |s1 - s1'| at most q^3; where e - e' is invertible, that
   is the plaintext.
   */
  lemma RangeExtracts(
      oracle: Oracle, oracle': Oracle, sk: Private, p1: nat, p2: nat, pedersen: RingPedersen, c: int,
      a: RangeProof, b: RangeProof, q: nat, d: int)
    returns (m: int)
    requires KeyOf(sk, p1, p2) && Setup(sk.public, pedersen, q) && a.z == b.z && a.u == b.u && a.w == b.w
    requires c % p1 != 0 && c % p2 != 0 && a.u % p1 != 0 && a.u % p2 != 0
    requires VerifyRange(oracle, sk.public, pedersen, c, a, q) && VerifyRange(oracle', sk.public, pedersen, c, b, q)
    ensures DecryptsTo(sk, c, m) && InRange(a.s1 - b.s1, q)
    ensures var first := [c, a.z, a.u, a.w, sk.public.n, pedersen.nTilde];
            var k := oracle(first) % q - oracle'(first) % q;
            && Congruent(k * m, a.s1 - b.s1, sk.public.n)
            && (Congruent(k * d, 1, sk.public.n) ==> Congruent(m, (a.s1 - b.s1) * d, sk.public.n))
  {
    hide Pow, Prime, Lcm, Decrypt, VerifyRange, KeyOf;
    var n := sk.public.n;
    var first := [c, a.z, a.u, a.w, n, pedersen.nTilde];
    var e, e' := oracle(first) % q, oracle'(first) % q;
    RangeAcceptsIff(oracle, sk.public, pedersen, c, a, q);
    RangeAcceptsIff(oracle', sk.public, pedersen, c, b, q);
    RangeAnswers(oracle, sk, p1, p2, pedersen, c, a, q);
    RangeAnswers(oracle', sk, p1, p2, pedersen, c, b, q);
    PositiveSquare(n);
    m := Decrypt(sk, c).value;
    Subtracted(a.s1, b.s1, Decrypt(sk, a.u).value, e, e', m, n);
    if Congruent((e - e') * d, 1, n) {
      Solved(e - e', m, a.s1 - b.s1, d, n);
    }
  }

  lemma Subtracted(s: int, s': int, t: int, e: int, e': int, m: int, n: int)
    requires n > 0 && s % n == (t + e * m) % n && s' % n == (t + e' * m) % n
    ensures ((e - e') * m) % n == (s - s') % n
  {
    CongAdd(s, t + e * m, s', t + e' * m, n);
    Difference(e, e', m);
  }

  lemma Difference(e: int, e': int, m: int)
    ensures (e - e') * m == e * m - e' * m
  {
  }

  lemma Solved(k: int, m: int, x: int, d: int, n: int)
    requires n > 0 && (k * m) % n == x % n && (k * d) % n == 1 % n
    ensures m % n == (x * d) % n
  {
    CongMul(k * m, x, d, n);
    MulComm(k, m);
    MulAssoc(m, k, d);
    CongMul(k * d, 1, m, n);
    MulComm(k * d, m);
  }

  // ------------------------------------------------------------------- the responder proof

  /** What `verify_responder` accepts, written out. */
  lemma ResponderAcceptsIff(
      oracle: Oracle, pk: Public, pedersen: RingPedersen, ca: int, cb: int, proof: ResponderProof, q: nat)
    requires Setup(pk, pedersen, q)
    ensures var e := oracle([ca, cb, proof.z, proof.zPrime, proof.t, proof.v, proof.u, pk.n, pedersen.nTilde]) % q;
            VerifyResponder(oracle, pk, pedersen, ca, cb, proof, q) <==>
              && proof.s1 <= q * q * q
              && Congruent(proof.u * Pow(cb, e), Pow(ca, proof.s1) * ((1 + proof.t1 * pk.n) * Pow(proof.sr, pk.n)), pk.n * pk.n)
              && Congruent(Pow(pedersen.h1, proof.s1) * Pow(pedersen.h2, proof.s2), proof.zPrime * Pow(proof.z, e),
                           pedersen.nTilde)
              && Congruent(Pow(pedersen.h1, proof.t1) * Pow(pedersen.h2, proof.t2), proof.v * Pow(proof.t, e), pedersen.nTilde)
  {
    hide Pow;
    var e := oracle([ca, cb, proof.z, proof.zPrime, proof.t, proof.v, proof.u, pk.n, pedersen.nTilde]) % q;
    CommitValue(pedersen, proof.s1, proof.s2);
    CommitValue(pedersen, proof.t1, proof.t2);
    ReduceFactor(proof.zPrime, Pow(proof.z, e), pedersen.nTilde);
    ReduceFactor(proof.v, Pow(proof.t, e), pedersen.nTilde);
    ReduceFactor(proof.u, Pow(cb, e), pk.nn);
    ShapedResponds(pk, ca, proof.s1, proof.t1, proof.sr);
  }

  /** An accepted responder proof answers truthfully: s1 Dec(ca) + t1 is Dec(u) + e Dec(cb) modulo n. */
  lemma ResponderAnswers(
      oracle: Oracle, sk: Private, p1: nat, p2: nat, pedersen: RingPedersen, ca: int, cb: int, proof: ResponderProof, q: nat)
    requires KeyOf(sk, p1, p2) && Setup(sk.public, pedersen, q)
    requires ca % p1 != 0 && ca % p2 != 0 && cb % p1 != 0 && cb % p2 != 0 && proof.u % p1 != 0 && proof.u % p2 != 0
    requires VerifyResponder(oracle, sk.public, pedersen, ca, cb, proof, q)
    ensures Decrypt(sk, ca).Some? && Decrypt(sk, cb).Some? && Decrypt(sk, proof.u).Some?
    ensures var e := oracle([ca, cb, proof.z, proof.zPrime, proof.t, proof.v, proof.u, sk.public.n, pedersen.nTilde]) % q;
            (proof.s1 * Decrypt(sk, ca).value + proof.t1) % sk.public.n
            == (Decrypt(sk, proof.u).value + e * Decrypt(sk, cb).value) % sk.public.n
  {
    hide Pow, Prime, Lcm, Decrypt, VerifyResponder, Carries;
    var n := sk.public.n;
    var e := oracle([ca, cb, proof.z, proof.zPrime, proof.t, proof.v, proof.u, n, pedersen.nTilde]) % q;
    ResponderAcceptsIff(oracle, sk.public, pedersen, ca, cb, proof, q);
    var x, g, tail := proof.u * Pow(cb, e), 1 + proof.t1 * n, (1 + proof.t1 * n) * Pow(proof.sr, n);
    UnitCarries(sk, p1, p2, ca);
    DecryptHomomorphic(sk, p1, p2, proof.u, cb, e);
    var ma := Decrypt(sk, ca).value;
    UnitTimesPower(p1, proof.u, cb, e);
    UnitTimesPower(p2, proof.u, cb, e);
    MulAssoc(Pow(ca, proof.s1), g, Pow(proof.sr, n));
    NonceUnit(n, p1, p2, x, Pow(ca, proof.s1) * g, proof.sr);
    MulComm(p1, p2);
    NonceUnit(n, p2, p1, x, Pow(ca, proof.s1) * g, proof.sr);
    CipherCarries(sk, p1, p2, tail, proof.t1, proof.sr);
    CarriesPower(sk, ca, ma, proof.s1);
    CarriesProduct(sk, Pow(ca, proof.s1), proof.s1 * ma, tail, proof.t1);
    CarriesSame(sk, Pow(ca, proof.s1) * tail, x, proof.s1 * ma + proof.t1);
    CarriesDecrypts(sk, p1, p2, x, proof.s1 * ma + proof.t1);
  }

  /** Two accepted answers determine Dec(cb) from Dec(ca): (e - e') Dec(cb) = (s1 - s1') Dec(ca) + (t1 - t1') modulo n. */
  lemma ResponderExtracts(
      oracle: Oracle, oracle': Oracle, sk: Private, p1: nat, p2: nat, pedersen: RingPedersen, ca: int, cb: int,
      a: ResponderProof, b: ResponderProof, q: nat)
    returns (ma: int, mb: int)
    requires KeyOf(sk, p1, p2) && Setup(sk.public, pedersen, q)
    requires a.z == b.z && a.zPrime == b.zPrime && a.t == b.t && a.v == b.v && a.u == b.u
    requires ca % p1 != 0 && ca % p2 != 0 && cb % p1 != 0 && cb % p2 != 0 && a.u % p1 != 0 && a.u % p2 != 0
    requires VerifyResponder(oracle, sk.public, pedersen, ca, cb, a, q)
    requires VerifyResponder(oracle', sk.public, pedersen, ca, cb, b, q)
    ensures DecryptsTo(sk, ca, ma) && DecryptsTo(sk, cb, mb) && InRange(a.s1 - b.s1, q)
    ensures var first := [ca, cb, a.z, a.zPrime, a.t, a.v, a.u, sk.public.n, pedersen.nTilde];
            var k := oracle(first) % q - oracle'(first) % q;
            Congruent(k * mb, (a.s1 - b.s1) * ma + (a.t1 - b.t1), sk.public.n)
  {
    hide Pow, Prime, Lcm, Decrypt, VerifyResponder, KeyOf;
    var n := sk.public.n;
    var first := [ca, cb, a.z, a.zPrime, a.t, a.v, a.u, n, pedersen.nTilde];
    var e, e' := oracle(first) % q, oracle'(first) % q;
    ResponderAcceptsIff(oracle, sk.public, pedersen, ca, cb, a, q);
    ResponderAcceptsIff(oracle', sk.public, pedersen, ca, cb, b, q);
    ResponderAnswers(oracle, sk, p1, p2, pedersen, ca, cb, a, q);
    ResponderAnswers(oracle', sk, p1, p2, pedersen, ca, cb, b, q);
    PositiveSquare(n);
    ma, mb := Decrypt(sk, ca).value, Decrypt(sk, cb).value;
    Subtracted(a.s1 * ma + a.t1, b.s1 * ma + b.t1, Decrypt(sk, a.u).value, e, e', mb, n);
    Difference(a.s1, b.s1, ma);
  }

  /** The commitments of two accepted responder answers. */
  lemma ResponderTwoAnswers(
      oracle: Oracle, oracle': Oracle, pk: Public, pedersen: RingPedersen, ca: int, cb: int,
      a: ResponderProof, b: ResponderProof, q: nat)
    requires Setup(pk, pedersen, q)
    requires a.z == b.z && a.zPrime == b.zPrime && a.t == b.t && a.v == b.v && a.u == b.u
    requires VerifyResponder(oracle, pk, pedersen, ca, cb, a, q) && VerifyResponder(oracle', pk, pedersen, ca, cb, b, q)
    requires var first := [ca, cb, a.z, a.zPrime, a.t, a.v, a.u, pk.n, pedersen.nTilde];
             oracle(first) % q >= oracle'(first) % q
    ensures var first := [ca, cb, a.z, a.zPrime, a.t, a.v, a.u, pk.n, pedersen.nTilde];
            var k := oracle(first) % q - oracle'(first) % q;
            && Congruent(Pow(ca, a.s1) * ((1 + a.t1 * pk.n) * Pow(a.sr, pk.n)),
                         (Pow(ca, b.s1) * ((1 + b.t1 * pk.n) * Pow(b.sr, pk.n))) * Pow(cb, k), pk.n * pk.n)
            && Congruent(Pow(pedersen.h1, a.s1) * Pow(pedersen.h2, a.s2),
                         (Pow(pedersen.h1, b.s1) * Pow(pedersen.h2, b.s2)) * Pow(a.z, k), pedersen.nTilde)
            && Congruent(Pow(pedersen.h1, a.t1) * Pow(pedersen.h2, a.t2),
                         (Pow(pedersen.h1, b.t1) * Pow(pedersen.h2, b.t2)) * Pow(a.t, k), pedersen.nTilde)
  {
    hide Pow, VerifyResponder;
    var first := [ca, cb, a.z, a.zPrime, a.t, a.v, a.u, pk.n, pedersen.nTilde];
    var e, e' := oracle(first) % q, oracle'(first) % q;
    ResponderAcceptsIff(oracle, pk, pedersen, ca, cb, a, q);
    ResponderAcceptsIff(oracle', pk, pedersen, ca, cb, b, q);
    PositiveSquare(pk.n);
    Divided(a.u, cb, e, e', Pow(ca, a.s1) * ((1 + a.t1 * pk.n) * Pow(a.sr, pk.n)),
            Pow(ca, b.s1) * ((1 + b.t1 * pk.n) * Pow(b.sr, pk.n)), pk.n * pk.n);
    Divided(a.zPrime, a.z, e, e', Pow(pedersen.h1, a.s1) * Pow(pedersen.h2, a.s2),
            Pow(pedersen.h1, b.s1) * Pow(pedersen.h2, b.s2), pedersen.nTilde);
    Divided(a.v, a.t, e, e', Pow(pedersen.h1, a.t1) * Pow(pedersen.h2, a.t2),
            Pow(pedersen.h1, b.t1) * Pow(pedersen.h2, b.t2), pedersen.nTilde);
  }
}
