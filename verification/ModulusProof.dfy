/**
 The Paillier-modulus proof (crates/custody/src/modulusproof.rs). `oracle(n, i)` is the integer
 read from the i-th hashed buffer, before it is reduced modulo n.
 */
module ModulusProofs {
  import opened Wrappers
  import opened NumberTheory
  import opened Paillier

  const CHALLENGES: nat := 12

  type ModulusOracle = (nat, nat) -> nat

  function ChallengeElement(oracle: ModulusOracle, n: nat, index: nat): (rho: nat)
    requires n > 0
    ensures 1 <= rho && (n > 1 ==> rho < n)
  {
    var value := oracle(n, index) % n;
    if value == 0 then 1 else value
  }

  /** What `verify` accepts. */
  ghost predicate Accepted(oracle: ModulusOracle, n: nat, responses: seq<int>)
  {
    && n > 1 && n % 2 == 1 && |responses| == CHALLENGES
    && forall i :: 0 <= i < CHALLENGES ==> Pow(responses[i], n) % n == ChallengeElement(oracle, n, i)
  }

  method Verify(oracle: ModulusOracle, n: nat, responses: seq<int>) returns (accepted: bool)
    ensures accepted <==> Accepted(oracle, n, responses)
  {
    if n <= 1 || n % 2 == 0 || |responses| != CHALLENGES {
      return false;
    }
    for i := 0 to |responses|
      invariant forall j :: 0 <= j < i ==> Pow(responses[j], n) % n == ChallengeElement(oracle, n, j)
    {
      if Pow(responses[i], n) % n != ChallengeElement(oracle, n, i) {
        return false;
      }
    }
    return true;
  }

  /** Accepted, written out: an odd n above one, and twelve n-th roots of the hashed values, read as 1 where they vanish. */
  lemma AcceptedIff(oracle: ModulusOracle, n: nat, responses: seq<int>)
    ensures Accepted(oracle, n, responses) <==>
            && n > 1 && n % 2 == 1 && |responses| == 12
            && forall i :: 0 <= i < 12 ==>
                 Pow(responses[i], n) % n == if oracle(n, i) % n == 0 then 1 else oracle(n, i) % n
  {
    hide Pow;
  }

  /** Both primes odd, as any prime of at least 384 bits is. */
  ghost predicate OddKeyOf(sk: Private, p: nat, q: nat)
  {
    KeyOf(sk, p, q) && p % 2 == 1 && q % 2 == 1
  }

  function Responses(oracle: ModulusOracle, n: nat, d: nat): seq<int>
    requires n > 0
  {
    seq(CHALLENGES, i requires 0 <= i < CHALLENGES => Pow(ChallengeElement(oracle, n, i), d) % n)
  }

  /** `prove` answers every challenge with its d-th power, d the inverse of n modulo lambda. */
  method Prove(oracle: ModulusOracle, n: nat, lambda: nat) returns (result: Result<seq<int>, KeyError>)
    requires n > 0 && lambda > 1
    ensures result.Ok? <==> Gcd(n, lambda) == 1
    ensures result.Ok? ==> exists d: nat :: (n * d) % lambda == 1 && result.value == Responses(oracle, n, d)
  {
    match ModInverse(n, lambda) {
      case None =>
        return Err(BadParams);
      case Some(d) =>
        var responses := [];
        for i := 0 to CHALLENGES
          invariant |responses| == i
          invariant forall j :: 0 <= j < i ==> responses[j] == Pow(ChallengeElement(oracle, n, j), d) % n
        {
          responses := responses + [Pow(ChallengeElement(oracle, n, i), d) % n];
        }
        assert responses == Responses(oracle, n, d);
        return Ok(responses);
    }
  }

  /** A generated key always proves its modulus: `prove` cannot fail and `verify` accepts. */
  lemma ModulusComplete(oracle: ModulusOracle, sk: Private, p: nat, q: nat, d: nat)
    requires OddKeyOf(sk, p, q)
    ensures sk.lambda > 1 && sk.public.n > 1 && Gcd(sk.public.n, sk.lambda) == 1
    ensures (sk.public.n * d) % sk.lambda == 1 ==>
              Accepted(oracle, sk.public.n, Responses(oracle, sk.public.n, d))
  {
    var n := sk.public.n;
    InverseExists(sk, p, q);
    OddModulus(sk, p, q);
    if (n * d) % sk.lambda == 1 {
      forall i | 0 <= i < CHALLENGES
        ensures Pow(Responses(oracle, n, d)[i], n) % n == ChallengeElement(oracle, n, i)
      {
        RootRestores(sk, p, q, d, ChallengeElement(oracle, n, i));
      }
    }
  }

  lemma OddModulus(sk: Private, p: nat, q: nat)
    requires OddKeyOf(sk, p, q)
    ensures sk.public.n > 1 && sk.public.n % 2 == 1
  {
    KeyModulus(sk, p, q);
    CongMul2(p, 1, q, 1, 2);
  }

  /** The relation lambda * mu = 1 mod n makes n invertible modulo lambda. */
  lemma InverseExists(sk: Private, p: nat, q: nat)
    requires KeyOf(sk, p, q)
    ensures sk.lambda > 1 && Gcd(sk.public.n, sk.lambda) == 1
  {
    var n, k := sk.public.n, sk.lambda * sk.mu / sk.public.n;
    KeyModulus(sk, p, q);
    LambdaAtLeastTwo(p, q);
    DivisionEquation(sk.lambda * sk.mu, n);
    MulComm(k, n);
    assert n * (-k) == -(n * k);
    UnitCombination(n, sk.lambda, -k, sk.mu);
  }

  /** (rho^d)^n = rho modulo n for every rho, units or not. */
  lemma RootRestores(sk: Private, p: nat, q: nat, d: nat, rho: nat)
    requires KeyOf(sk, p, q) && sk.lambda > 1 && (sk.public.n * d) % sk.lambda == 1 && rho < sk.public.n
    ensures Pow(Pow(rho, d) % sk.public.n, sk.public.n) % sk.public.n == rho
  {
    hide *;
    KeyFacts(sk, p, q);
    var n := sk.public.n;
    var e := n * d;
    ModIdem(Pow(rho, d), n);
    CongPow(Pow(rho, d) % n, Pow(rho, d), n, n);
    PowMul(rho, d, n);
    MulComm(d, n);
    ExponentOne(p, rho, e, sk.lambda);
    ExponentOne(q, rho, e, sk.lambda);
    PrimeAtLeastTwo(p);
    PrimeAtLeastTwo(q);
    Difference(Pow(rho, e), rho, p);
    Difference(Pow(rho, e), rho, q);
    ProductDivides(p, q, Pow(rho, e) - rho);
    CongAdd(Pow(rho, e) - rho, 0, rho, rho, n);
    DivModUnique(rho, n, 0, rho);
  }

  lemma KeyFacts(sk: Private, p: nat, q: nat)
    requires KeyOf(sk, p, q)
    ensures Prime(p) && Prime(q) && p != q && sk.public.n == p * q && sk.public.n > 1
    ensures sk.lambda % (p - 1) == 0 && sk.lambda % (q - 1) == 0
    ensures 0 % sk.public.n == 0
  {
    KeyModulus(sk, p, q);
    LcmMultiple(p - 1, q - 1);
    DivModUnique(0, sk.public.n, 0, 0);
  }

  lemma Difference(a: int, b: int, p: nat)
    requires p > 0 && a % p == b % p
    ensures (a - b) % p == 0
  {
    CongAdd(a, b, b, b, p);
    DivModUnique(0, p, 0, 0);
  }

  /** An exponent that is 1 modulo a multiple of p - 1 fixes every residue modulo p. */
  lemma ExponentOne(p: nat, rho: nat, e: nat, lambda: nat)
    requires Prime(p) && lambda > 1 && lambda % (p - 1) == 0 && e % lambda == 1
    ensures Pow(rho, e) % p == rho % p
  {
    var k := e / lambda;
    DivisionEquation(e, lambda);
    assert e >= 1 && k >= 0;
    if rho % p == 0 {
      DivModUnique(0, p, 0, 0);
      CongMul(rho, 0, Pow(rho, e - 1), p);
      assert 0 * Pow(rho, e - 1) == 0;
    } else {
      MultipleOf(k, lambda, p - 1);
      Fermat.LittleTheoremMultiple(p, rho, k * lambda);
      DivModUnique(1, p, 0, 1);
      CongMul(Pow(rho, k * lambda), 1, rho, p);
      MulComm(Pow(rho, k * lambda), rho);
    }
  }

  lemma MultipleOf(k: nat, a: nat, m: nat)
    requires m > 0 && a % m == 0
    ensures (k * a) % m == 0 && k * a >= 0
  {
    DividesCombination(m, a, 0, k);
    DivModUnique(0, m, 0, 0);
  }
}
