/**
 Paillier encryption with g = n + 1 (crates/custody/src/paillier.rs). Random draws (the two
 primes, the nonces) are parameters.
 */
module Paillier {
  import opened Wrappers
  import opened NumberTheory
  import Fermat

  datatype Public = Public(n: nat, nn: nat)

  datatype Private = Private(public: Public, lambda: nat, mu: nat)

  datatype KeyError = BadParams

  /** Key generation from two drawn primes p != q. */
  function Generate(modulusBits: nat, p: nat, q: nat): (r: Result<Private, KeyError>)
    requires p > 1 && q > 1
    ensures r.Ok? <==> modulusBits >= 768 && Gcd(Lcm(p - 1, q - 1), p * q) == 1
    ensures r.Ok? && Prime(p) && Prime(q) && p != q ==> KeyOf(r.value, p, q)
  {
    if modulusBits < 768 then Err(BadParams)
    else
      var n := p * q;
      var lambda := Lcm(p - 1, q - 1);
      assert n > 1;
      match ModInverse(lambda, n)
      case Some(mu) => Ok(Private(Public(n, n * n), lambda, mu))
      case None => Err(BadParams)
  }

  function EncryptWith(pk: Public, m: nat, r: nat): int
    requires pk.nn > 0
  {
    (((1 + m * pk.n) % pk.nn) * (Pow(r, pk.n) % pk.nn)) % pk.nn
  }

  function Add(pk: Public, c1: int, c2: int): int
    requires pk.nn > 0
  {
    (c1 * c2) % pk.nn
  }

  function MulConst(pk: Public, c: int, k: nat): int
    requires pk.nn > 0
  {
    Pow(c, k) % pk.nn
  }

  /** Decryption. `None` is the unsigned underflow of `u - 1` when `u` is zero. */
  function Decrypt(sk: Private, c: int): Option<int>
    requires sk.public.n > 0 && sk.public.nn > 0
  {
    var u := Pow(c, sk.lambda) % sk.public.nn;
    if u == 0 then None else Some(((u - 1) / sk.public.n * sk.mu) % sk.public.n)
  }

  /** The relations `generate` sets up. */
  ghost predicate KeyOf(sk: Private, p: nat, q: nat)
  {
    && Prime(p) && Prime(q) && p != q
    && sk.public.n == p * q
    && sk.public.nn == sk.public.n * sk.public.n
    && sk.lambda == Lcm(p - 1, q - 1)
    && (sk.lambda * sk.mu) % sk.public.n == 1
  }

  /** c is a ciphertext of m under nonce s, up to multiples of n^2. */
  ghost predicate Encrypts(n: nat, c: int, m: int, s: int)
    requires n > 0
  {
    c % (n * n) == ((1 + m * n) * Pow(s, n)) % (n * n)
  }

  // ------------------------------------------------------- binomial congruences

  lemma BinomialStep(n: int, x: int, y: int)
    ensures (1 + x * n) * (1 + y * n) == (1 + (x + y) * n) + (x * y) * (n * n)
  {
    assert (x * n) * (y * n) == (x * y) * (n * n);
    assert (1 + x * n) * (1 + y * n) == 1 + x * n + y * n + (x * n) * (y * n);
  }

  /** (1 + xn)^e = 1 + exn modulo n^2. */
  lemma {:induction false} OnePlusPow(n: nat, x: int, e: nat)
    requires n > 0
    ensures Pow(1 + x * n, e) % (n * n) == (1 + (e * x) * n) % (n * n)
  {
    if e > 0 {
      OnePlusPow(n, x, e - 1);
      CongMul(Pow(1 + x * n, e - 1), 1 + ((e - 1) * x) * n, 1 + x * n, n * n);
      BinomialStep(n, (e - 1) * x, x);
      ModShift(1 + (e * x) * n, ((e - 1) * x) * x, n * n);
      assert (e - 1) * x + x == e * x;
    }
  }

  lemma PowShiftStep(s: int, k: int, n: int, t: int, d: int, w: int)
    ensures (s + k * n) * (t + d * n + w * (n * n))
         == s * t + (s * d + k * t) * n + (k * d + s * w + k * w * n) * (n * n)
  {
    var v := t + d * n + w * (n * n);
    assert s * v == s * t + (s * d) * n + (s * w) * (n * n);
    assert (k * n) * v == (k * t) * n + (k * d) * (n * n) + (k * w * n) * (n * n);
    Distribute(s, k * n, v);
    Distribute(s * d, k * t, n);
  }

  /** (s + kn)^e = s^e + e k s^(e-1) n + w n^2. */
  lemma {:induction false} PowShift(s: int, k: int, n: int, e: nat) returns (w: int)
    requires e > 0
    ensures Pow(s + k * n, e) == Pow(s, e) + (e * (k * Pow(s, e - 1))) * n + w * (n * n)
  {
    if e == 1 {
      w := 0;
      assert Pow(s + k * n, 1) == s + k * n;
      assert Pow(s, 0) == 1 && Pow(s, 1) == s;
    } else {
      var t := Pow(s, e - 2);
      var d := (e - 1) * (k * t);
      var v := PowShift(s, k, n, e - 1);
      PowShiftStep(s, k, n, s * t, d, v);
      w := k * d + s * v + k * v * n;
      ExponentStep(s, e, k, t);
    }
  }

  lemma ExponentStep(s: int, e: int, k: int, t: int)
    ensures s * ((e - 1) * (k * t)) + k * (s * t) == e * (k * (s * t))
  {
    assert s * ((e - 1) * (k * t)) == (e - 1) * (s * (k * t));
    assert s * (k * t) == k * (s * t);
  }

  /** The n-th power modulo n^2 depends on the base only modulo n. */
  lemma NthPowerModN(s: int, s': int, n: nat)
    requires n > 0 && s % n == s' % n
    ensures Pow(s, n) % (n * n) == Pow(s', n) % (n * n)
  {
    var k := CongIff(s, s', n);
    var w := PowShift(s', k, n, n);
    var t := k * Pow(s', n - 1);
    FactorSquare(n, t, w);
    ModShift(Pow(s', n), t + w, n * n);
  }

  lemma FactorSquare(n: int, t: int, w: int)
    ensures (n * t) * n + w * (n * n) == (t + w) * (n * n)
  {
    assert (n * t) * n == t * (n * n);
    Distribute(t, w, n * n);
  }

  // ------------------------------------------------------------- homomorphism

  /** `encrypt_with` produces a ciphertext of its plaintext. */
  lemma EncryptEncrypts(pk: Public, m: nat, r: nat)
    requires pk.n > 0 && pk.nn == pk.n * pk.n
    ensures Encrypts(pk.n, EncryptWith(pk, m, r), m, r)
  {
    var n, nn := pk.n, pk.nn;
    ModIdem(1 + m * n, nn);
    ModIdem(Pow(r, n), nn);
    CongMul2((1 + m * n) % nn, 1 + m * n, Pow(r, n) % nn, Pow(r, n), nn);
    ModIdem(((1 + m * n) % nn) * (Pow(r, n) % nn), nn);
  }

  /** Reducing a ciphertext modulo n^2 does not change what it encrypts. */
  lemma EncryptsReduce(n: nat, c: int, m: int, s: int)
    requires n > 0 && Encrypts(n, c, m, s)
    ensures Encrypts(n, c % (n * n), m, s)
  {
    ModIdem(c, n * n);
  }

  /** Multiplying ciphertexts adds plaintexts and multiplies nonces. */
  lemma EncryptsProduct(n: nat, c1: int, m1: int, s1: int, c2: int, m2: int, s2: int)
    requires n > 0 && Encrypts(n, c1, m1, s1) && Encrypts(n, c2, m2, s2)
    ensures Encrypts(n, c1 * c2, m1 + m2, s1 * s2)
  {
    var nn := n * n;
    var g1, g2, p1, p2 := 1 + m1 * n, 1 + m2 * n, Pow(s1, n), Pow(s2, n);
    CongMul2(c1, g1 * p1, c2, g2 * p2, nn);
    MulInterchange(g1, p1, g2, p2);
    BinomialStep(n, m1, m2);
    ModShift(1 + (m1 + m2) * n, m1 * m2, nn);
    CongMul(g1 * g2, 1 + (m1 + m2) * n, p1 * p2, nn);
    PowDistributes(s1, s2, n);
  }

  /** Raising a ciphertext to k multiplies its plaintext by k. */
  lemma EncryptsPower(n: nat, c: int, m: int, s: int, k: nat)
    requires n > 0 && Encrypts(n, c, m, s)
    ensures Encrypts(n, Pow(c, k), k * m, Pow(s, k))
  {
    var nn := n * n;
    var g, t := 1 + m * n, Pow(s, n);
    CongPow(c, g * t, k, nn);
    PowDistributes(g, t, k);
    OnePlusPow(n, m, k);
    CongMul(Pow(g, k), 1 + (k * m) * n, Pow(t, k), nn);
    PowMul(s, n, k);
    PowMul(s, k, n);
    assert n * k == k * n;
  }

  /** The nonce may be reduced modulo n. */
  lemma EncryptsNonce(n: nat, c: int, m: int, s: int, s': int)
    requires n > 0 && Encrypts(n, c, m, s) && s % n == s' % n
    ensures Encrypts(n, c, m, s')
  {
    NthPowerModN(s, s', n);
    CongMul(Pow(s, n), Pow(s', n), 1 + m * n, n * n);
    assert Pow(s, n) * (1 + m * n) == (1 + m * n) * Pow(s, n);
    assert Pow(s', n) * (1 + m * n) == (1 + m * n) * Pow(s', n);
  }

  // --------------------------------------------------------------- decryption

  lemma LcmMultiple(a: nat, b: nat)
    requires a > 0 && b > 0
    ensures Lcm(a, b) > 0 && Lcm(a, b) % a == 0 && Lcm(a, b) % b == 0
  {
    LcmFirst(a, b);
    LcmSymmetric(a, b);
    LcmFirst(b, a);
  }

  lemma LcmFirst(a: nat, b: nat)
    requires a > 0 && b > 0
    ensures Lcm(a, b) > 0 && Lcm(a, b) % a == 0
  {
    var g := Gcd(a, b);
    GcdDivides(a, b);
    var l := Quotient(b, g);
    assert l > 0 by { if l <= 0 { MulMono(l, 0, g); MulComm(l, g); } }
    MulComm(g, l);
    MulAssoc(a, l, g);
    DivModUnique(a * b, g, a * l, 0);
    MulComm(a, l);
    DivModUnique(a * l, a, l, 0);
  }

  /** A unit modulo p*q raised to lambda is 1 modulo p*q. */
  lemma CarmichaelUnit(p: nat, q: nat, s: int)
    requires Prime(p) && Prime(q) && p != q && s % p != 0 && s % q != 0
    ensures Pow(s, Lcm(p - 1, q - 1)) % (p * q) == 1
  {
    var e := Lcm(p - 1, q - 1);
    LcmMultiple(p - 1, q - 1);
    Fermat.LittleTheoremMultiple(p, s, e);
    Fermat.LittleTheoremMultiple(q, s, e);
    OneModuloBoth(p, q, Pow(s, e));
  }

  lemma OneModuloBoth(p: nat, q: nat, z: int)
    requires Prime(p) && Prime(q) && p != q && z % p == 1 && z % q == 1
    ensures z % (p * q) == 1
  {
    MinusOne(p, z);
    MinusOne(q, z);
    ProductDivides(p, q, z - 1);
    assert p * q > 1 by { assert p * q >= 2 * q; }
    DivModUnique(z, p * q, (z - 1) / (p * q), 1);
  }

  lemma MinusOne(p: nat, z: int)
    requires p > 1 && z % p == 1
    ensures (z - 1) % p == 0
  {
    assert z - 1 == (z / p) * p + 0;
    DivModUnique(z - 1, p, z / p, 0);
  }

  /** The value L sees: (1 + xn) mod n^2 is 1 + (x mod n) n. */
  lemma LOfOnePlus(n: nat, x: int)
    requires n > 1
    ensures (1 + x * n) % (n * n) == 1 + (x % n) * n
    ensures (1 + x * n) % (n * n) > 0
    ensures ((1 + x * n) % (n * n) - 1) / n == x % n
  {
    var r := x % n;
    assert x == (x / n) * n + r;
    Distribute((x / n) * n, r, n);
    MulAssoc(x / n, n, n);
    MulMono(r, n - 1, n);
    MulMono(0, r, n);
    Distribute(n, -1, n);
    DivModUnique(1 + x * n, n * n, x / n, 1 + r * n);
    DivModUnique(r * n, n, r, 0);
  }

  /** Raising to lambda strips a unit nonce. */
  lemma StripNonce(n: nat, e: nat, c: int, m: int, s: int)
    requires n > 1 && Encrypts(n, c, m, s) && Pow(s, e) % n == 1
    ensures Pow(c, e) % (n * n) == (1 + (e * m) * n) % (n * n)
  {
    var g := 1 + (e * m) * n;
    EncryptsPower(n, c, m, s, e);
    DivModUnique(1, n, 0, 1);
    EncryptsNonce(n, Pow(c, e), e * m, Pow(s, e), 1);
    OnePow(n);
    assert g * 1 == g;
  }

  /** Multiplying by mu undoes the multiplication by lambda. */
  lemma UndoLambda(n: nat, e: nat, mu: nat, m: int)
    requires n > 1 && (e * mu) % n == 1
    ensures ((e * m) % n * mu) % n == m % n
  {
    ModIdem(e * m, n);
    CongMul((e * m) % n, e * m, mu, n);
    assert (e * m) * mu == (e * mu) * m;
    DivModUnique(1, n, 0, 1);
    CongMul(e * mu, 1, m, n);
  }

  lemma KeyModulus(sk: Private, p: nat, q: nat)
    requires KeyOf(sk, p, q)
    ensures sk.public.n > 1 && sk.public.nn > 1
  {
    MulMono(2, p, q);
    MulMono(2, sk.public.n, sk.public.n);
  }

  lemma DecryptUnit(sk: Private, c: int, m: int, s: int)
    requires sk.public.n > 1 && sk.public.nn == sk.public.n * sk.public.n
    requires (sk.lambda * sk.mu) % sk.public.n == 1
    requires Encrypts(sk.public.n, c, m, s) && Pow(s, sk.lambda) % sk.public.n == 1
    ensures Decrypt(sk, c) == Some(m % sk.public.n)
  {
    var n, e := sk.public.n, sk.lambda;
    StripNonce(n, e, c, m, s);
    LOfOnePlus(n, e * m);
    UndoLambda(n, e, sk.mu, m);
  }

  /** Decryption recovers the plaintext of anything encrypted under a unit nonce. */
  lemma DecryptRecovers(sk: Private, p: nat, q: nat, c: int, m: int, s: int)
    requires KeyOf(sk, p, q) && Encrypts(sk.public.n, c, m, s)
    requires s % p != 0 && s % q != 0
    ensures Decrypt(sk, c) == Some(m % sk.public.n)
  {
    KeyModulus(sk, p, q);
    CarmichaelUnit(p, q, s);
    DecryptUnit(sk, c, m, s);
  }

  // ------------------------------------------- when decryption inverts encryption

  /** The round trip of the paper: a unit nonce. */
  lemma RoundTrip(sk: Private, p: nat, q: nat, m: nat, r: nat)
    requires KeyOf(sk, p, q) && m < sk.public.n && Gcd(r, sk.public.n) == 1
    ensures Decrypt(sk, EncryptWith(sk.public, m, r)) == Some(m)
  {
    KeyModulus(sk, p, q);
    UnitsModProduct(r, p, q);
    EncryptEncrypts(sk.public, m, r);
    DecryptRecovers(sk, p, q, EncryptWith(sk.public, m, r), m, r);
    DivModUnique(m, sk.public.n, 0, m);
  }

  /** A power of a multiple of p is a multiple of p^2. */
  lemma SquareDivides(p: nat, c: int, e: nat)
    requires p > 0 && c % p == 0 && e >= 2
    ensures Pow(c, e) % (p * p) == 0
  {
    var k := Quotient(c, p);
    var t := Pow(c, e - 2);
    assert Pow(c, e) == c * (c * t);
    MulAssoc(c, c, t);
    MulInterchange(p, k, p, k);
    MulAssoc(p * p, k * k, t);
    MulComm(p * p, k * k * t);
    DivModUnique(Pow(c, e), p * p, k * k * t, 0);
  }

  /** A number that is 1 modulo q^2 and 0 modulo p^2 exceeds p * q. */
  lemma MixedResidueLarge(p: nat, q: nat, u: int)
    requires p >= 2 && q >= 2 && u > 0
    requires u % (p * p) == 0 && u % (q * q) == 1
    ensures u > p * q
  {
    MulMono(2, p, p);
    MulMono(2, q, q);
    DivisorAtMost(p * p, u);
    MinusOne(q * q, u);
    DivisorAtMost(q * q, u - 1);
    if p <= q { MulMono(p, q, q); } else { MulMono(q, p - 1, p); MulComm(p, q); Distribute(p, -1, p); }
  }

  /** r^(n*lambda) is 1 modulo q^2 when q does not divide r, whatever p does. */
  lemma OneModuloSquare(p: nat, q: nat, r: int, e: nat)
    requires Prime(q) && r % q != 0 && e % (q - 1) == 0
    ensures Pow(Pow(r, p * q), e) % (q * q) == 1
  {
    hide *;
    PrimeAtLeastTwo(q);
    Fermat.LittleTheoremMultiple(q, r, e);
    PowMul(r, p * q, e);
    PowMul(r, e, p * q);
    MulComm(p * q, e);
    var z := Pow(r, e);
    PowMul(z, q, p);
    MulComm(p, q);
    DivModUnique(1, q, 0, 1);
    NthPowerModN(z, 1, q);
    OnePow(q);
    CongPow(Pow(z, q), 1, p, q * q);
    OnePow(p);
    MulMono(2, q, q);
    DivModUnique(1, q * q, 0, 1);
  }

  lemma LambdaAtLeastTwo(p: nat, q: nat)
    requires Prime(p) && Prime(q) && p != q
    ensures Lcm(p - 1, q - 1) >= 2
  {
    LcmMultiple(p - 1, q - 1);
    DivisorAtMost(p - 1, Lcm(p - 1, q - 1));
    DivisorAtMost(q - 1, Lcm(p - 1, q - 1));
  }

  /** With a nonce divisible by p alone, plaintext zero does not come back as zero. */
  lemma ZeroLost(sk: Private, p: nat, q: nat, r: nat)
    requires KeyOf(sk, p, q) && r % p == 0 && r % q != 0
    ensures Decrypt(sk, EncryptWith(sk.public, 0, r)) != Some(0)
  {
    var n, e := p * q, sk.lambda;
    KeyModulus(sk, p, q);
    EncryptEncrypts(sk.public, 0, r);
    var c := EncryptWith(sk.public, 0, r);
    CongPow(c, Pow(r, n), e, n * n);
    var u := Pow(c, e) % (n * n);
    PowerResidues(p, q, r, e, u);
    MixedResidueLarge(p, q, u);
    QuotientPositive(n, u);
    NotUndone(n, e, sk.mu, (u - 1) / n);
  }

  lemma PowerResidues(p: nat, q: nat, r: int, e: nat, u: int)
    requires Prime(p) && Prime(q) && p != q && r % p == 0 && r % q != 0
    requires e == Lcm(p - 1, q - 1)
    requires u == Pow(Pow(r, p * q), e) % ((p * q) * (p * q))
    ensures u > 0 && u % (p * p) == 0 && u % (q * q) == 1
  {
    LcmMultiple(p - 1, q - 1);
    LambdaAtLeastTwo(p, q);
    OneModuloSquare(p, q, r, e);
    PowMul(r, p * q, e);
    AtLeast(p * q, e);
    SquareDivides(p, r, (p * q) * e);
    ResiduesOfReduced(p, q, Pow(Pow(r, p * q), e));
    DivModUnique(0, q * q, 0, 0);
  }

  lemma AtLeast(a: nat, e: nat)
    requires a >= 1
    ensures a * e >= e
  {
  }

  /** Reducing modulo (pq)^2 keeps the residues modulo p^2 and q^2. */
  lemma ResiduesOfReduced(p: nat, q: nat, z: int)
    requires p > 0 && q > 0
    ensures z % ((p * q) * (p * q)) % (p * p) == z % (p * p)
    ensures z % ((p * q) * (p * q)) % (q * q) == z % (q * q)
  {
    var u := z % ((p * q) * (p * q));
    MulInterchange(p, q, p, q);
    ModIdem(z, (p * q) * (p * q));
    CongFactor(u, z, p * p, q * q);
    assert (p * p) * (q * q) == (q * q) * (p * p);
    CongFactor(u, z, q * q, p * p);
  }

  lemma QuotientPositive(n: nat, u: int)
    requires n > 0 && n < u < n * n
    ensures 1 <= (u - 1) / n < n
  {
    var k := (u - 1) / n;
    assert u - 1 == k * n + (u - 1) % n;
    assert k <= 0 ==> k * n <= 0;
    assert k >= n ==> k * n >= n * n;
  }

  /** Multiplying by the unit mu never sends a nonzero residue to zero. */
  lemma NotUndone(n: nat, e: nat, mu: nat, l: int)
    requires n > 1 && (e * mu) % n == 1 && 0 < l < n
    ensures (l * mu) % n != 0
  {
    if (l * mu) % n == 0 {
      DivModUnique(0, n, 0, 0);
      CongMul(l * mu, 0, e, n);
      assert (l * mu) * e == (e * mu) * l && 0 * e == 0;
      DivModUnique(1, n, 0, 1);
      CongMul(e * mu, 1, l, n);
      DivModUnique(l, n, 0, l);
    }
  }

  /**
   `random_nonce` draws any 0 < r < n. Decryption inverts encryption under r for every
   plaintext exactly when r is a unit modulo n, which `random_nonce` does not check.
   */
  lemma RoundTripIffUnit(sk: Private, p: nat, q: nat, r: nat)
    requires KeyOf(sk, p, q) && 0 < r < sk.public.n
    ensures (forall m: nat :: m < sk.public.n ==> Decrypt(sk, EncryptWith(sk.public, m, r)) == Some(m))
       <==> Gcd(r, sk.public.n) == 1
  {
    KeyModulus(sk, p, q);
    UnitsModProduct(r, p, q);
    if Gcd(r, sk.public.n) == 1 {
      forall m: nat | m < sk.public.n
        ensures Decrypt(sk, EncryptWith(sk.public, m, r)) == Some(m)
      {
        RoundTrip(sk, p, q, m, r);
      }
    } else {
      NotBothDivide(p, q, r);
      if r % p == 0 {
        ZeroLost(sk, p, q, r);
      } else {
        assert KeyOf(sk, q, p) by { KeySymmetric(sk, p, q); }
        ZeroLost(sk, q, p, r);
      }
    }
  }

  lemma NotBothDivide(p: nat, q: nat, r: nat)
    requires Prime(p) && Prime(q) && p != q && 0 < r < p * q
    ensures r % p != 0 || r % q != 0
  {
    if r % p == 0 && r % q == 0 {
      ProductDivides(p, q, r);
      DivModUnique(r, p * q, 0, r);
    }
  }

  lemma KeySymmetric(sk: Private, p: nat, q: nat)
    requires KeyOf(sk, p, q)
    ensures KeyOf(sk, q, p)
  {
    MulComm(p, q);
    LcmSymmetric(p - 1, q - 1);
  }

  lemma LcmSymmetric(a: nat, b: nat)
    requires a > 0 && b > 0
    ensures Lcm(a, b) == Lcm(b, a)
  {
    MulComm(a, b);
    GcdSymmetric(a, b);
  }

  lemma GcdSymmetric(a: nat, b: nat)
    requires a > 0 && b > 0
    ensures Gcd(a, b) == Gcd(b, a)
  {
    var g, h := Gcd(a, b), Gcd(b, a);
    GcdDivides(a, b);
    GcdDivides(b, a);
    CommonDivisor(a, b, h);
    CommonDivisor(b, a, g);
    DivisorAtMost(g, h);
    DivisorAtMost(h, g);
  }

  /** The homomorphisms as a key holder sees them, for unit nonces. */
  lemma AddDecrypts(sk: Private, p: nat, q: nat, a: nat, r: nat, b: nat, s: nat)
    requires KeyOf(sk, p, q) && Gcd(r, sk.public.n) == 1 && Gcd(s, sk.public.n) == 1
    ensures Decrypt(sk, Add(sk.public, EncryptWith(sk.public, a, r), EncryptWith(sk.public, b, s)))
         == Some((a + b) % sk.public.n)
  {
    var n, ca, cb := sk.public.n, EncryptWith(sk.public, a, r), EncryptWith(sk.public, b, s);
    KeyModulus(sk, p, q);
    EncryptEncrypts(sk.public, a, r);
    EncryptEncrypts(sk.public, b, s);
    EncryptsProduct(n, ca, a, r, cb, b, s);
    EncryptsReduce(n, ca * cb, a + b, r * s);
    UnitsModProduct(r, p, q);
    UnitsModProduct(s, p, q);
    UnitProduct(p, r, s);
    UnitProduct(q, r, s);
    DecryptRecovers(sk, p, q, Add(sk.public, ca, cb), a + b, r * s);
  }

  lemma MulConstDecrypts(sk: Private, p: nat, q: nat, a: nat, r: nat, k: nat)
    requires KeyOf(sk, p, q) && Gcd(r, sk.public.n) == 1
    ensures Decrypt(sk, MulConst(sk.public, EncryptWith(sk.public, a, r), k))
         == Some((k * a) % sk.public.n)
  {
    var n, c := sk.public.n, EncryptWith(sk.public, a, r);
    KeyModulus(sk, p, q);
    EncryptEncrypts(sk.public, a, r);
    EncryptsPower(n, c, a, r, k);
    EncryptsReduce(n, Pow(c, k), k * a, Pow(r, k));
    UnitsModProduct(r, p, q);
    UnitPower(p, r, k);
    UnitPower(q, r, k);
    DecryptRecovers(sk, p, q, MulConst(sk.public, c, k), k * a, Pow(r, k));
  }

  lemma UnitProduct(p: nat, r: int, s: int)
    requires Prime(p) && r % p != 0 && s % p != 0
    ensures (r * s) % p != 0
  {
    if (r * s) % p == 0 { Euclid(p, r, s); }
  }

  lemma UnitPower(p: nat, r: int, k: nat)
    requires Prime(p) && r % p != 0
    ensures Pow(r, k) % p != 0
  {
    if Pow(r, k) % p == 0 { PrimeDividesPow(p, r, k); }
  }

  /** Decryption underflows exactly on multiples of n. */
  lemma UnderflowIff(sk: Private, p: nat, q: nat, c: int)
    requires KeyOf(sk, p, q)
    ensures Decrypt(sk, c) == None <==> c % sk.public.n == 0
  {
    var n, e := sk.public.n, sk.lambda;
    KeyModulus(sk, p, q);
    LambdaAtLeastTwo(p, q);
    if c % n == 0 {
      SquareDivides(n, c, e);
    } else if Pow(c, e) % (n * n) == 0 {
      DivModUnique(0, n * n, 0, 0);
      DivModUnique(0, n, 0, 0);
      CongFactor(Pow(c, e), 0, n, n);
      DividesBoth(p, q, Pow(c, e));
      PrimeDividesPow(p, c, e);
      PrimeDividesPow(q, c, e);
      ProductDivides(p, q, c);
    }
  }

  lemma DividesBoth(p: nat, q: nat, z: int)
    requires p > 0 && q > 0 && z % (p * q) == 0
    ensures z % p == 0 && z % q == 0
  {
    DivModUnique(0, p * q, 0, 0);
    DivModUnique(0, p, 0, 0);
    DivModUnique(0, q, 0, 0);
    CongFactor(z, 0, p, q);
    MulComm(p, q);
    CongFactor(z, 0, q, p);
  }

  // --------------------------------------------------------------- generation

  /** Odd primes of one bit length, as `generate` draws them, always give a key. */
  lemma GenerateSucceeds(modulusBits: nat, p: nat, q: nat)
    requires Prime(p) && Prime(q) && p != q && modulusBits >= 768
    requires p % 2 == 1 && q % 2 == 1 && p < 2 * q && q < 2 * p
    ensures Generate(modulusBits, p, q).Ok?
  {
    SmallResidue(p, q);
    SmallResidue(q, p);
    DivModUnique(p - 1, p, 0, p - 1);
    DivModUnique(q - 1, q, 0, q - 1);
    PrimeAvoidsLcm(p, p - 1, q - 1);
    PrimeAvoidsLcm(q, p - 1, q - 1);
    UnitsModProduct(Lcm(p - 1, q - 1), p, q);
  }

  lemma PrimeAvoidsLcm(p: nat, a: nat, b: nat)
    requires Prime(p) && a > 0 && b > 0 && a % p != 0 && b % p != 0
    ensures Lcm(a, b) % p != 0
  {
    var g := Gcd(a, b);
    LcmTimesGcd(a, b);
    if Lcm(a, b) % p == 0 {
      DivModUnique(0, p, 0, 0);
      CongMul(Lcm(a, b), 0, g, p);
      assert 0 * g == 0;
      Euclid(p, a, b);
    }
  }

  lemma LcmTimesGcd(a: nat, b: nat)
    requires a > 0 && b > 0
    ensures Lcm(a, b) * Gcd(a, b) == a * b
  {
    var g := Gcd(a, b);
    GcdDivides(a, b);
    var k := Quotient(b, g);
    MulComm(g, k);
    MulAssoc(a, k, g);
    DivModUnique(a * b, g, a * k, 0);
  }

  lemma SmallResidue(p: nat, q: nat)
    requires p >= 2 && p % 2 == 1 && q % 2 == 1 && 0 < q - 1 && q < 2 * p && p != q
    ensures (q - 1) % p != 0
  {
    if q - 1 < p {
      DivModUnique(q - 1, p, 0, q - 1);
    } else {
      DivModUnique(q - 1, p, 1, q - 1 - p);
    }
  }
}
