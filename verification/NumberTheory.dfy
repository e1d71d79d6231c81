/**
 Modular arithmetic over the unbounded integers, up to the three facts the custody
 arithmetic rests on: Euclid's lemma, Fermat's little theorem and the two binomial
 congruences modulo n^2. `Pow(b, e) % m` is what `BigUint::modpow(e, m)` returns.
 */
module NumberTheory {
  import opened Wrappers

  // ---------------------------------------------------------------- congruences

  /** Quotient and remainder are determined by the division equation. */
  lemma DivModUnique(a: int, m: int, k: int, r: int)
    requires m > 0 && a == k * m + r && 0 <= r < m
    ensures a % m == r && a / m == k
  {
    var k', r' := a / m, a % m;
    assert (k - k') * m == r' - r;
    assert k - k' >= 1 ==> (k - k') * m >= m;
    assert k - k' <= -1 ==> (k - k') * m <= -m;
  }

  lemma ModShift(a: int, k: int, m: int)
    requires m > 0
    ensures (a + k * m) % m == a % m
  {
    assert a + k * m == (a / m + k) * m + a % m;
    DivModUnique(a + k * m, m, a / m + k, a % m);
  }

  /** Congruent integers differ by a multiple of the modulus, and only those do. */
  lemma CongIff(a: int, b: int, m: int) returns (k: int)
    requires m > 0
    ensures a % m == b % m ==> a == b + k * m
  {
    k := a / m - b / m;
    if a % m == b % m {
      assert a == a / m * m + a % m && b == b / m * m + b % m;
      assert (a / m - b / m) * m == a / m * m - b / m * m;
    }
  }

  lemma CongMul(a: int, b: int, c: int, m: int)
    requires m > 0 && a % m == b % m
    ensures (a * c) % m == (b * c) % m
  {
    var k := CongIff(a, b, m);
    assert a * c == b * c + (k * c) * m;
    ModShift(b * c, k * c, m);
  }

  lemma CongMul2(a: int, b: int, c: int, d: int, m: int)
    requires m > 0 && a % m == b % m && c % m == d % m
    ensures (a * c) % m == (b * d) % m
  {
    CongMul(a, b, c, m);
    CongMul(c, d, b, m);
    assert c * b == b * c && d * b == b * d;
  }

  lemma CongAdd(a: int, b: int, c: int, d: int, m: int)
    requires m > 0 && a % m == b % m && c % m == d % m
    ensures (a + c) % m == (b + d) % m && (a - c) % m == (b - d) % m
  {
    var k := CongIff(a, b, m);
    var l := CongIff(c, d, m);
    assert a + c == (b + d) + (k + l) * m && a - c == (b - d) + (k - l) * m;
    ModShift(b + d, k + l, m);
    ModShift(b - d, k - l, m);
  }

  ghost predicate Congruent(a: int, b: int, m: int)
  {
    m > 0 && a % m == b % m
  }

  /** Adding one term on both sides, and renaming the left one. */
  lemma CongruentStep(a: int, b: int, c: int, d: int, m: int)
    requires Congruent(a, b, m) && Congruent(d, a + c, m)
    ensures Congruent(d, b + c, m)
  {
    CongAdd(a, b, c, c, m);
  }

  lemma ModIdem(a: int, m: int)
    requires m > 0
    ensures (a % m) % m == a % m
  {
    DivModUnique(a % m, m, 0, a % m);
  }

  /** A congruence modulo a multiple holds modulo each factor. */
  lemma CongFactor(a: int, b: int, m: int, f: int)
    requires m > 0 && f > 0 && a % (m * f) == b % (m * f)
    ensures a % m == b % m
  {
    assert m * f > 0;
    var k := CongIff(a, b, m * f);
    assert a == b + (k * f) * m;
    ModShift(b, k * f, m);
  }

  lemma MulInterchange(a: int, b: int, c: int, d: int)
    ensures (a * b) * (c * d) == (a * c) * (b * d)
  {
  }

  lemma MulComm(a: int, b: int)
    ensures a * b == b * a
  {
  }

  lemma MulAssoc(a: int, b: int, c: int)
    ensures (a * b) * c == a * (b * c)
  {
  }

  lemma Distribute(a: int, b: int, c: int)
    ensures (a + b) * c == a * c + b * c
  {
  }

  lemma MulMono(a: int, b: int, c: int)
    requires a <= b && c >= 0
    ensures a * c <= b * c
  {
  }

  lemma Factor2(g: int, k: int, x: int, l: int, y: int)
    ensures (g * k) * x + (g * l) * y == (k * x + l * y) * g
  {
    assert (g * k) * x == (k * x) * g;
    assert (g * l) * y == (l * y) * g;
  }

  // ---------------------------------------------------------------- powers

  function Pow(b: int, e: nat): int
  {
    if e == 0 then 1 else b * Pow(b, e - 1)
  }

  lemma {:induction false} PowAdd(b: int, e: nat, f: nat)
    ensures Pow(b, e + f) == Pow(b, e) * Pow(b, f)
  {
    if e > 0 {
      PowAdd(b, e - 1, f);
      assert Pow(b, e + f) == b * Pow(b, e - 1 + f);
    }
  }

  lemma {:induction false} PowMul(b: int, e: nat, f: nat)
    ensures Pow(Pow(b, e), f) == Pow(b, e * f)
  {
    if f > 0 {
      PowMul(b, e, f - 1);
      assert e * f == e + e * (f - 1);
      PowAdd(b, e, e * (f - 1));
    }
  }

  lemma {:induction false} PowDistributes(a: int, b: int, e: nat)
    ensures Pow(a * b, e) == Pow(a, e) * Pow(b, e)
  {
    if e > 0 {
      PowDistributes(a, b, e - 1);
      MulInterchange(a, b, Pow(a, e - 1), Pow(b, e - 1));
    }
  }

  lemma {:induction false} PowNonNegative(b: nat, e: nat)
    ensures Pow(b, e) >= 0
    ensures b > 0 ==> Pow(b, e) > 0
  {
    if e > 0 {
      PowNonNegative(b, e - 1);
    }
  }

  lemma {:induction false} OnePow(e: nat)
    ensures Pow(1, e) == 1
  {
    if e > 0 {
      OnePow(e - 1);
    }
  }

  lemma {:induction false} CongPow(a: int, b: int, e: nat, m: int)
    requires m > 0 && a % m == b % m
    ensures Pow(a, e) % m == Pow(b, e) % m
  {
    if e > 0 {
      CongPow(a, b, e - 1, m);
      CongMul2(a, b, Pow(a, e - 1), Pow(b, e - 1), m);
    }
  }

  // ---------------------------------------------------------------- divisibility

  ghost predicate Prime(p: int)
  {
    p >= 2 && forall d :: 2 <= d < p ==> p % d != 0
  }

  lemma PrimeAtLeastTwo(p: int)
    requires Prime(p)
    ensures p >= 2
  {
  }

  function Gcd(a: nat, b: nat): (g: nat)
    ensures a > 0 || b > 0 ==> g > 0
    decreases b
  {
    if b == 0 then a else Gcd(b, a % b)
  }

  function Lcm(a: nat, b: nat): nat
    requires a > 0 && b > 0
  {
    a * b / Gcd(a, b)
  }

  /** The extended Euclidean algorithm. */
  function ExtendedGcd(a: nat, b: nat): (c: (int, int))
    ensures a * c.0 + b * c.1 == Gcd(a, b)
    decreases b
  {
    if b == 0 then (1, 0)
    else
      var (x, y) := ExtendedGcd(b, a % b);
      EuclidStep(a, b, x, y);
      (y, x - a / b * y)
  }

  lemma EuclidStep(a: nat, b: nat, x: int, y: int)
    requires b > 0
    ensures a * y + b * (x - a / b * y) == b * x + (a % b) * y
  {
    assert a == a / b * b + a % b;
    assert a * y == (a / b * b) * y + (a % b) * y;
    assert b * (x - a / b * y) == b * x - (a / b * b) * y;
  }

  /** `mod_inverse`: defined exactly on the units modulo m. */
  function ModInverse(a: nat, m: nat): (r: Option<nat>)
    requires m > 1
    ensures r.Some? <==> Gcd(a, m) == 1
    ensures r.Some? ==> r.value < m && (a * r.value) % m == 1
  {
    if Gcd(a, m) != 1 then None
    else
      var (x, y) := ExtendedGcd(a, m);
      BezoutInverse(a, m, x, y);
      Some(x % m)
  }

  lemma BezoutInverse(a: nat, m: nat, x: int, y: int)
    requires m > 1 && a * x + m * y == 1
    ensures (a * (x % m)) % m == 1
  {
    ModIdem(x, m);
    CongMul(x % m, x, a, m);
    assert (x % m) * a == a * (x % m) && x * a == a * x;
    assert 1 + (-y) * m == a * x;
    ModShift(1, -y, m);
    DivModUnique(1, m, 0, 1);
  }

  lemma Quotient(a: int, g: int) returns (k: int)
    requires g > 0 && a % g == 0
    ensures a == g * k
  {
    k := a / g;
  }

  lemma DivisionEquation(a: int, b: int)
    requires b > 0
    ensures a == (a / b) * b + a % b
  {
  }

  lemma DividesCombination(g: int, a: int, b: int, x: int)
    requires g > 0 && a % g == 0 && b % g == 0
    ensures (x * a + b) % g == 0
  {
    var k := Quotient(a, g);
    var l := Quotient(b, g);
    Factor2(g, k, x, l, 1);
    MulComm(x, a);
    DivModUnique(x * a + b, g, k * x + l * 1, 0);
  }

  lemma {:induction false} GcdDivides(a: nat, b: nat)
    requires a > 0 || b > 0
    ensures a % Gcd(a, b) == 0 && b % Gcd(a, b) == 0
    decreases b
  {
    var g := Gcd(a, b);
    if b == 0 {
      DivModUnique(a, a, 1, 0);
    } else {
      GcdDivides(b, a % b);
      DividesCombination(g, b, a % b, a / b);
      DivisionEquation(a, b);
    }
  }

  lemma BezoutTimes(a: int, x: int, m: int, y: int, b: int, k: int)
    requires a * x + m * y == 1 && a * b == k * m
    ensures b == (k * x + y * b) * m
  {
    calc {
      b;
      (a * x + m * y) * b;
      (a * b) * x + (m * y) * b;
      (k * m) * x + (m * y) * b;
      (k * x + y * b) * m;
    }
  }

  lemma DivisorAtMost(g: int, p: int)
    requires g > 0 && p > 0 && p % g == 0
    ensures g <= p
  {
    var k := p / g;
    assert p == k * g;
    assert k <= 0 ==> k * g <= 0;
    assert k >= 1 ==> k * g >= g;
  }

  /** Anything coprime to a and dividing a * b divides b. */
  lemma CoprimeDivides(m: nat, a: nat, b: int)
    requires m > 0 && Gcd(a, m) == 1 && (a * b) % m == 0
    ensures b % m == 0
  {
    var (x, y) := ExtendedGcd(a, m);
    var k := Quotient(a * b, m);
    MulComm(m, k);
    BezoutTimes(a, x, m, y, b, k);
    DivModUnique(b, m, k * x + y * b, 0);
  }

  lemma PrimeCoprime(p: nat, a: nat)
    requires Prime(p) && a % p != 0
    ensures Gcd(a, p) == 1
  {
    var g := Gcd(a, p);
    GcdDivides(a, p);
    DivisorAtMost(g, p);
  }

  /** Euclid's lemma. */
  lemma Euclid(p: nat, a: int, b: int)
    requires Prime(p) && (a * b) % p == 0
    ensures a % p == 0 || b % p == 0
  {
    if a % p != 0 {
      ModIdem(a, p);
      CongMul(a % p, a, b, p);
      PrimeCoprime(p, a % p);
      CoprimeDivides(p, a % p, b);
    }
  }

  /** Cancelling a factor that p does not divide. */
  lemma CancelMod(p: nat, c: int, a: int, b: int)
    requires Prime(p) && c % p != 0 && (c * a) % p == (c * b) % p
    ensures a % p == b % p
  {
    var k := CongIff(c * a, c * b, p);
    assert c * (a - b) == k * p + 0;
    DivModUnique(c * (a - b), p, k, 0);
    Euclid(p, c, a - b);
    CongAdd(a - b, 0, b, b, p);
  }

  lemma PrimesDiffer(p: nat, q: nat)
    requires Prime(p) && Prime(q) && p != q
    ensures q % p != 0
  {
    if p > q {
      DivModUnique(q, p, 0, q);
    }
  }

  /** Two different primes dividing z make their product divide it. */
  lemma ProductDivides(p: nat, q: nat, z: int)
    requires Prime(p) && Prime(q) && p != q && z % p == 0 && z % q == 0
    ensures z % (p * q) == 0
  {
    var k := z / q;
    assert z == q * k;
    PrimesDiffer(p, q);
    Euclid(p, q, k);
    var j := k / p;
    assert z == j * (p * q) + 0 by { assert k == j * p; assert q * (j * p) == j * (p * q); }
    DivModUnique(z, p * q, j, 0);
  }

  lemma {:induction false} PrimeDividesPow(p: nat, a: int, e: nat)
    requires Prime(p) && Pow(a, e) % p == 0
    ensures a % p == 0
  {
    if e == 0 {
      DivModUnique(1, p, 0, 1);
    } else {
      Euclid(p, a, Pow(a, e - 1));
      if a % p != 0 { PrimeDividesPow(p, a, e - 1); }
    }
  }

  lemma UnitCombination(a: nat, m: nat, x: int, y: int)
    requires (a > 0 || m > 0) && a * x + m * y == 1
    ensures Gcd(a, m) == 1
  {
    var g := Gcd(a, m);
    GcdDivides(a, m);
    var k := Quotient(a, g);
    var l := Quotient(m, g);
    Factor2(g, k, x, l, y);
    DivModUnique(1, g, k * x + l * y, 0);
    DivisorAtMost(g, 1);
  }

  lemma CommonDivisor(a: nat, m: nat, d: nat)
    requires d > 0 && a % d == 0 && m % d == 0
    ensures Gcd(a, m) % d == 0
  {
    var (x, y) := ExtendedGcd(a, m);
    var k := Quotient(a, d);
    var l := Quotient(m, d);
    Factor2(d, k, x, l, y);
    DivModUnique(Gcd(a, m), d, k * x + l * y, 0);
  }

  lemma BezoutProduct(x: int, p: int, q: int, a: int, b: int, c: int, d: int)
    requires x * a + p * b == 1 && x * c + q * d == 1
    ensures x * (a * (x * c + q * d) + p * b * c) + (p * q) * (b * d) == 1
  {
    calc {
      1;
      (x * a + p * b) * (x * c + q * d);
      (x * a) * (x * c + q * d) + (p * b) * (x * c + q * d);
      x * (a * (x * c + q * d)) + (p * b) * (x * c) + (p * b) * (q * d);
      x * (a * (x * c + q * d)) + x * (p * b * c) + (p * q) * (b * d);
    }
  }

  /** The units modulo p*q are the numbers neither prime divides. */
  lemma UnitsModProduct(x: nat, p: nat, q: nat)
    requires Prime(p) && Prime(q)
    ensures Gcd(x, p * q) == 1 <==> x % p != 0 && x % q != 0
  {
    assert p * q > 0;
    if x % p == 0 {
      assert q * p + 0 == p * q;
      DivModUnique(p * q, p, q, 0);
      CommonDivisor(x, p * q, p);
      DivModUnique(1, p, 0, 1);
    } else if x % q == 0 {
      DivModUnique(p * q, q, p, 0);
      CommonDivisor(x, p * q, q);
      DivModUnique(1, q, 0, 1);
    } else {
      PrimeCoprime(p, x);
      PrimeCoprime(q, x);
      var (a, b) := ExtendedGcd(x, p);
      var (c, d) := ExtendedGcd(x, q);
      BezoutProduct(x, p, q, a, b, c, d);
      UnitCombination(x, p * q, a * (x * c + q * d) + p * b * c, b * d);
    }
  }
}
