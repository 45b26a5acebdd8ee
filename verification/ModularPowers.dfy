/** Powers and their remainders; for a product of two primes, exactly when exponents may be reduced. */
module ModularPowers {
  import opened Arithmetic

  ghost function Power(x: nat, e: nat): nat {
    if e == 0 then 1 else x * Power(x, e - 1)
  }

  lemma {:induction false} PowerAdd(x: nat, a: nat, b: nat)
    ensures Power(x, a + b) == Power(x, a) * Power(x, b)
  {
    if a > 0 {
      PowerAdd(x, a - 1, b);
      MulAssoc(x, Power(x, a - 1), Power(x, b));
    }
  }

  lemma {:induction false} PowerMul(x: nat, a: nat, b: nat)
    ensures a * b >= 0 && Power(x, a * b) == Power(Power(x, b), a)
  {
    if a > 0 {
      PowerMul(x, a - 1, b);
      assert a * b == b + (a - 1) * b;
      PowerAdd(x, b, (a - 1) * b);
    }
  }

  /** The product of the remainders has the remainder of the product. */
  lemma {:induction false} ModProduct(a: nat, b: nat, n: nat)
    requires n > 0
    ensures ((a % n) * (b % n)) % n == (a * b) % n
  {
    var q, r, s, t := a / n, a % n, b / n, b % n;
    assert a == q * n + r && b == s * n + t;
    ExpandProduct(q, r, b, s, t, n);
    ModShift(r * t, q * b + r * s, n);
  }

  lemma {:induction false} ExpandProduct(q: int, r: int, b: int, s: int, t: int, n: int)
    requires b == s * n + t
    ensures (q * n + r) * b == r * t + (q * b + r * s) * n
  {
  }

  lemma {:induction false} PowerOfOne(x: nat, a: nat, n: nat)
    requires n > 1 && x % n == 1
    ensures Power(x, a) % n == 1
  {
    if a == 0 {
      DivModUnique(1, n, 0, 1);
    } else {
      PowerOfOne(x, a - 1, n);
      ModProduct(x, Power(x, a - 1), n);
      DivModUnique(1, n, 0, 1);
    }
  }

  /** Exponents may be reduced modulo any phi with x^phi = 1. */
  lemma {:induction false} ExponentReduces(x: nat, e: nat, phi: nat, n: nat)
    requires n > 1 && phi > 0 && Power(x, phi) % n == 1
    ensures Power(x, e % phi) % n == Power(x, e) % n
  {
    var q, r := e / phi, e % phi;
    assert e == q * phi + r;
    PowerMul(x, q, phi);
    PowerAdd(x, q * phi, r);
    PowerOfOne(Power(x, phi), q, n);
    ModProduct(Power(x, q * phi), Power(x, r), n);
    assert 1 * (Power(x, r) % n) == Power(x, r) % n;
    RemainderIdempotent(Power(x, r), n);
  }

  lemma {:induction false} RemainderIdempotent(a: nat, n: nat)
    requires n > 0
    ensures (a % n) % n == a % n
  {
  }

  lemma {:induction false} PowerRemainder(x: nat, k: nat, n: nat)
    requires n > 0
    ensures Power(x, k + 1) % n == (x * (Power(x, k) % n)) % n
  {
    ModProduct(x, Power(x, k), n);
    ModProduct(x, Power(x, k) % n, n);
    RemainderIdempotent(Power(x, k), n);
  }

  // ---- prime moduli ----

  ghost predicate Prime(p: nat) {
    p >= 2 && forall d: nat :: 1 < d < p ==> p % d != 0
  }

  /** A prime that divides a product divides a factor. */
  lemma {:induction false} EuclidsLemma(p: nat, a: nat, b: nat)
    requires Prime(p) && (a * b) % p == 0 && a % p != 0
    ensures b % p == 0
    decreases a
  {
    if a >= p {
      ModProduct(a, b, p);
      ModProduct(a % p, b, p);
      RemainderIdempotent(a, p);
      EuclidsLemma(p, a % p, b);
    } else if a > 1 {
      var r, k := p % a, (a * b) / p;
      assert p == (p / a) * a + r && a * b == k * p;
      RemainderMultiple(p, a, b, p / a, r, k);
      DivModUnique(r, p, 0, r);
      EuclidsLemma(p, r, b);
    }
  }

  lemma {:induction false} RemainderMultiple(p: nat, a: nat, b: nat, s: nat, r: nat, k: nat)
    requires p > 0 && p == s * a + r && a * b == k * p
    ensures (r * b) % p == 0
  {
    assert r * b == (p - s * a) * b;
    MulDistributes(b, p, s * a);
    MulAssoc(s, a, b);
    MulAssoc(s, k, p);
    MulDistributes(p, b, s * k);
    assert r * b == (b - s * k) * p;
    ModOfMultiple(b - s * k, p);
  }

  function Choose(n: nat, k: nat): nat {
    if k == 0 then 1 else if n == 0 then 0 else Choose(n - 1, k - 1) + Choose(n - 1, k)
  }

  lemma {:induction false} ChooseNone(n: nat)
    ensures Choose(n, 0) == 1
  {
  }

  lemma {:induction false} ChooseAbove(n: nat, k: nat)
    requires k > n
    ensures Choose(n, k) == 0
  {
    if n > 0 {
      ChooseAbove(n - 1, k - 1);
      ChooseAbove(n - 1, k);
    }
  }

  lemma {:induction false} ChooseAll(n: nat)
    ensures Choose(n, n) == 1
  {
    if n > 0 {
      ChooseAll(n - 1);
      ChooseAbove(n - 1, n);
    }
  }

  lemma {:induction false} Absorption(n: nat, k: nat)
    requires n > 0 && k > 0
    ensures k * Choose(n, k) == n * Choose(n - 1, k - 1)
  {
    var above, left := Choose(n - 1, k), Choose(n - 1, k - 1);
    assert Choose(n, k) == left + above;
    MulDistributes(k, left, above);
    if n == 1 {
      assert above == 0;
    } else {
      Absorption(n - 1, k);
      MulDistributes(left, n - 1, 1);
      MulDistributes(left, k - 1, 1);
      if k > 1 {
        Absorption(n - 1, k - 1);
        assert left == Choose(n - 2, k - 2) + Choose(n - 2, k - 1);
        MulDistributes(n - 1, Choose(n - 2, k - 2), Choose(n - 2, k - 1));
      } else {
        assert left == 1 && Choose(n - 2, 0) == 1;
      }
    }
  }

  lemma {:induction false} PrimeDividesChoose(p: nat, k: nat)
    requires Prime(p) && 0 < k < p
    ensures Choose(p, k) % p == 0
  {
    hide Choose, Prime;
    Absorption(p, k);
    assert p >= 2 by { PrimeAtLeastTwo(p); }
    ModOfMultiple(Choose(p - 1, k - 1), p);
    DivModUnique(k, p, 0, k);
    EuclidsLemma(p, k, Choose(p, k));
  }

  lemma {:induction false} PrimeAtLeastTwo(p: nat)
    requires Prime(p)
    ensures p >= 2
  {
  }

  /** The first k terms of the expansion of (a + 1)^n. */
  ghost function Expansion(n: nat, a: nat, k: nat): nat {
    if k == 0 then 0 else Expansion(n, a, k - 1) + Choose(n, k - 1) * Power(a, k - 1)
  }

  lemma {:induction false} ExpansionPascal(n: nat, a: nat, k: nat)
    requires n > 0
    ensures Expansion(n, a, k + 1) == Expansion(n - 1, a, k + 1) + a * Expansion(n - 1, a, k)
  {
    if k > 0 {
      ExpansionPascal(n, a, k - 1);
      var c, d, x := Choose(n - 1, k - 1), Choose(n - 1, k), Power(a, k - 1);
      MulDistributes(Power(a, k), c, d);
      MulAssoc(a, c, x);
      MulDistributes(a, Expansion(n - 1, a, k - 1), c * x);
    }
  }

  lemma {:induction false} BinomialTheorem(n: nat, a: nat)
    ensures Power(a + 1, n) == Expansion(n, a, n + 1)
  {
    if n > 0 {
      BinomialTheorem(n - 1, a);
      ExpansionPascal(n, a, n);
      ChooseAbove(n - 1, n);
      MulDistributes(Expansion(n - 1, a, n), a, 1);
    }
  }

  lemma {:induction false} MiddleTermsVanish(p: nat, a: nat, k: nat)
    requires Prime(p) && 0 < k <= p
    ensures Expansion(p, a, k) % p == 1
  {
    hide Choose;
    if k > 1 {
      MiddleTermsVanish(p, a, k - 1);
      PrimeDividesChoose(p, k - 1);
      var c, x, e := Choose(p, k - 1), Power(a, k - 1), Expansion(p, a, k - 1);
      assert c == (c / p) * p;
      MulAssoc(x, c / p, p);
      ModShift(e, x * (c / p), p);
    } else {
      ChooseNone(p);
      DivModUnique(1, p, 0, 1);
    }
  }

  /** Fermat's little theorem. */
  lemma {:induction false} Fermat(p: nat, a: nat)
    requires Prime(p)
    ensures Power(a, p) % p == a % p
  {
    hide Choose;
    if a > 0 {
      Fermat(p, a - 1);
      BinomialTheorem(p, a - 1);
      MiddleTermsVanish(p, a - 1, p);
      ChooseAll(p);
      var e, x := Expansion(p, a - 1, p), Power(a - 1, p);
      ModThenAdd(e, x, p);
      ModThenAdd(x, 1, p);
      ModThenAdd(a - 1, 1, p);
    }
  }

  lemma {:induction false} FermatUnit(p: nat, a: nat)
    requires Prime(p) && a % p != 0
    ensures Power(a, p - 1) % p == 1
  {
    hide Prime;
    PrimeAtLeastTwo(p);
    Fermat(p, a);
    var x := Power(a, p - 1);
    assert Power(a, p) == a * x;
    PowerPositive(a, p - 1);
    MulDistributes(a, x, 1);
    SameRemainder(a * x, a, p);
    EuclidsLemma(p, a, x - 1);
    ModThenAdd(x - 1, 1, p);
    DivModUnique(1, p, 0, 1);
  }

  lemma {:induction false} PowerPositive(a: nat, k: nat)
    requires a > 0
    ensures Power(a, k) > 0
  {
    if k > 0 { PowerPositive(a, k - 1); }
  }

  /** Equal remainders are a divisible difference. */
  lemma {:induction false} SameRemainder(u: int, v: int, n: nat)
    requires n > 0
    ensures u % n == v % n <==> (u - v) % n == 0
  {
    if u % n == v % n {
      assert u == (u / n) * n + u % n && v == (v / n) * n + v % n;
      MulDistributes(n, u / n, v / n);
      ModOfMultiple(u / n - v / n, n);
    }
    if (u - v) % n == 0 {
      assert u - v == ((u - v) / n) * n;
      ModShift(v, (u - v) / n, n);
    }
  }

  lemma {:induction false} DivisibleByProduct(p: nat, q: nat, z: nat)
    requires p > 0 && q > 0 && p * q > 0 && z % (p * q) == 0
    ensures z % p == 0 && z % q == 0
  {
    var k := z / (p * q);
    assert z == k * (p * q);
    MulAssoc(k, p, q);
    ModOfMultiple(k * q, p);
    ModOfMultiple(k * p, q);
  }

  lemma {:induction false} DistinctPrimes(p: nat, q: nat)
    requires Prime(p) && Prime(q) && p != q
    ensures p % q != 0 && p * q > 0
  {
  }

  lemma {:induction false} DivisibleByBoth(p: nat, q: nat, z: nat)
    requires Prime(p) && Prime(q) && p != q && z % p == 0 && z % q == 0
    ensures p * q > 0 && z % (p * q) == 0
  {
    hide Prime;
    PrimeAtLeastTwo(p);
    PrimeAtLeastTwo(q);
    DistinctPrimes(p, q);
    var w := Quotient(z, p);
    EuclidsLemma(q, p, w);
    ProductOfMultiple(p, q, z, w, Quotient(w, q));
  }

  ghost function Quotient(z: nat, p: nat): (w: nat)
    requires p > 0 && z % p == 0
    ensures z == p * w
  {
    z / p
  }

  lemma {:induction false} ProductOfMultiple(p: nat, q: nat, z: nat, w: nat, k: nat)
    requires p * q > 0 && z == p * w && w == q * k
    ensures z % (p * q) == 0
  {
    MulAssoc(p, q, k);
    ModOfMultiple(k, p * q);
  }

  /** Remainders by a product of two primes agree when those by each do. */
  lemma {:induction false} ChineseRemainders(p: nat, q: nat, u: nat, v: nat)
    requires Prime(p) && Prime(q) && p != q
    ensures p * q > 0
    ensures u % (p * q) == v % (p * q) <==> u % p == v % p && u % q == v % q
  {
    hide Prime;
    PrimeAtLeastTwo(p);
    PrimeAtLeastTwo(q);
    var high, low := if u >= v then u else v, if u >= v then v else u;
    DistinctPrimes(p, q);
    if (high - low) % p == 0 && (high - low) % q == 0 { DivisibleByBoth(p, q, high - low); }
    if (high - low) % (p * q) == 0 { DivisibleByProduct(p, q, high - low); }
    SameRemainder(high, low, p);
    SameRemainder(high, low, q);
    SameRemainder(high, low, p * q);
  }

  /** Reducing an exponent modulo a multiple of p - 1 changes the power only of a multiple of p, and only to x^0. */
  lemma {:induction false} ReducedModPrime(p: nat, m: nat, phi: nat, x: nat, e: nat)
    requires Prime(p) && phi == m * (p - 1) && phi > 0 && e > 0
    ensures Power(x, e % phi) % p == Power(x, e) % p <==> x % p != 0 || e % phi != 0
  {
    hide Prime;
    PrimeAtLeastTwo(p);
    if x % p != 0 {
      FermatUnit(p, x);
      PowerMul(x, m, p - 1);
      PowerOfOne(Power(x, p - 1), m, p);
      ExponentReduces(x, e, phi, p);
    } else {
      PowerOfMultiple(p, x, e);
      if e % phi != 0 {
        PowerOfMultiple(p, x, e % phi);
      } else {
        DivModUnique(1, p, 0, 1);
      }
    }
  }

  lemma {:induction false} PowerOfMultiple(p: nat, x: nat, e: nat)
    requires p > 0 && x % p == 0 && e > 0
    ensures Power(x, e) % p == 0
  {
    assert x == (x / p) * p;
    MulAssoc(Power(x, e - 1), x / p, p);
    ModOfMultiple(Power(x, e - 1) * (x / p), p);
  }

  /** Modulo a product of two primes exponents may be reduced by (p-1)(q-1) exactly for units, or when the reduced
      exponent is not zero. */
  lemma {:induction false} ReductionIff(p: nat, q: nat, x: nat, e: nat)
    requires Prime(p) && Prime(q) && p != q && e > 0
    ensures p * q > 0 && (p - 1) * (q - 1) > 0
    ensures Power(x, e % ((p - 1) * (q - 1))) % (p * q) == Power(x, e) % (p * q)
      <==> (x % p != 0 && x % q != 0) || e % ((p - 1) * (q - 1)) != 0
  {
    hide Prime, Power;
    PrimeAtLeastTwo(p);
    PrimeAtLeastTwo(q);
    MulMonotone(p - 1, 1, q - 1);
    var phi := (p - 1) * (q - 1);
    ReducedModPrime(p, q - 1, phi, x, e);
    ReducedModPrime(q, p - 1, phi, x, e);
    ChineseRemainders(p, q, Power(x, e % phi), Power(x, e));
  }

  /** An exponent that is a multiple of (p-1)(q-1) may be doubled. */
  lemma {:induction false} DoubledExponent(p: nat, q: nat, x: nat, e: nat)
    requires Prime(p) && Prime(q) && p != q && e > 0
    requires (p - 1) * (q - 1) > 0 && e % ((p - 1) * (q - 1)) == 0
    ensures p * q > 0 && Power(x, e + e) % (p * q) == Power(x, e) % (p * q)
  {
    hide Prime, Power;
    PrimeAtLeastTwo(p);
    PrimeAtLeastTwo(q);
    var phi := (p - 1) * (q - 1);
    DoubleMultiple(e, phi);
    DoubledModPrime(p, q - 1, phi, x, e);
    DoubledModPrime(q, p - 1, phi, x, e);
    ChineseRemainders(p, q, Power(x, e + e), Power(x, e));
  }

  lemma {:induction false} DoubleMultiple(e: nat, d: nat)
    requires d > 0 && e % d == 0
    ensures (e + e) % d == 0
  {
    ModThenAdd(e, e, d);
  }

  lemma {:induction false} DoubledModPrime(p: nat, m: nat, phi: nat, x: nat, e: nat)
    requires Prime(p) && phi == m * (p - 1) && phi > 0 && e > 0 && e % phi == 0 && (e + e) % phi == 0
    ensures Power(x, e + e) % p == Power(x, e) % p
  {
    hide Prime, Power;
    PrimeAtLeastTwo(p);
    if x % p != 0 {
      ReducedModPrime(p, m, phi, x, e);
      ReducedModPrime(p, m, phi, x, e + e);
    } else {
      PowerOfMultiple(p, x, e);
      PowerOfMultiple(p, x, e + e);
    }
  }
}
