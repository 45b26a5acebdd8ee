/** Greatest common divisors and inverses modulo m over the integers (algebra.cpp, algebra.h).
    Integer::Divide leaves a remainder that is never negative, which is what `/` and `%` mean here. */
module EuclideanDomain {
  import opened Arithmetic

  ghost predicate Multiple(a: int, d: int, k: int) {
    a == k * d
  }

  ghost predicate Divides(d: int, a: int) {
    exists k :: Multiple(a, d, k)
  }

  ghost predicate CommonDivisor(d: int, a: int, b: int) {
    Divides(d, a) && Divides(d, b)
  }

  /** The two pairs have the same common divisors. */
  ghost predicate SameDivisors(a: int, b: int, c: int, d: int) {
    forall k :: CommonDivisor(k, a, b) <==> CommonDivisor(k, c, d)
  }

  /** A common divisor that every common divisor divides. */
  ghost predicate IsGreatestCommonDivisor(g: int, a: int, b: int) {
    && CommonDivisor(g, a, b)
    && forall d :: CommonDivisor(d, a, b) ==> Divides(d, g)
  }

  /** Integer::IsUnit. */
  predicate IsUnit(a: int) {
    a == 1 || a == -1
  }

  ghost predicate Coprime(a: int, b: int) {
    forall d :: CommonDivisor(d, a, b) ==> IsUnit(d)
  }

  lemma {:induction false} DividesIntro(d: int, a: int, k: int)
    requires a == k * d
    ensures Divides(d, a)
  {
    assert Multiple(a, d, k);
  }

  lemma {:induction false} DividesCombination(d: int, a: int, b: int, q: int)
    requires Divides(d, a) && Divides(d, b)
    ensures Divides(d, a + q * b)
  {
    var k :| Multiple(a, d, k);
    var l :| Multiple(b, d, l);
    assert a + q * b == (k + q * l) * d by {
      assert q * (l * d) == (q * l) * d;
    }
    DividesIntro(d, a + q * b, k + q * l);
  }

  /** One division step keeps the common divisors. */
  lemma {:induction false} StepKeepsDivisors(a: int, b: int, q: int, r: int)
    requires a == q * b + r
    ensures SameDivisors(a, b, b, r)
  {
    hide Divides;
    assert a + (-q) * b == r;
    forall k ensures CommonDivisor(k, a, b) <==> CommonDivisor(k, b, r) {
      if CommonDivisor(k, a, b) { DividesCombination(k, a, b, -q); }
      if CommonDivisor(k, b, r) { DividesCombination(k, r, b, q); }
    }
  }

  lemma {:induction false} DividesSelfAndZero(g: int)
    ensures CommonDivisor(g, g, 0)
  {
    DividesIntro(g, g, 1);
    DividesIntro(g, 0, 0);
  }

  lemma {:induction false} DivisorsOfUnit(d: int, g: int)
    requires IsUnit(g) && Divides(d, g)
    ensures IsUnit(d)
  {
  }

  /** AbstractEuclideanDomain::Gcd, with the three-slot rotation. */
  method Gcd(a: int, b: int) returns (result: int)
    ensures IsGreatestCommonDivisor(result, a, b)
    ensures a >= 0 && b >= 0 ==> result >= 0
  {
    hide Divides;
    var g := new int[3];
    g[0], g[1] := b, a;
    var i0, i1, i2 := 0, 1, 2;
    while g[i1] != 0
      invariant {i0, i1, i2} == {0, 1, 2}
      invariant SameDivisors(b, a, g[i0], g[i1])
      invariant a >= 0 && b >= 0 ==> g[i0] >= 0 && g[i1] >= 0
      decreases if g[i1] < 0 then -g[i1] else g[i1]
    {
      g[i2] := g[i0] % g[i1];
      StepKeepsDivisors(g[i0], g[i1], g[i0] / g[i1], g[i2]);
      i0, i1, i2 := i1, i2, i0;
    }
    result := g[i0];
    DividesSelfAndZero(result);
    assert CommonDivisor(result, b, a);
    forall d | CommonDivisor(d, a, b) ensures Divides(d, result) {
      assert CommonDivisor(d, b, a);
    }
  }

  /** QuotientRing::Equal: equality modulo the modulus. */
  predicate Equal(m: int, a: int, b: int)
    requires m != 0
  {
    (a - b) % m == 0
  }

  /** QuotientRing::IsUnit decides coprimality to the modulus. */
  method IsUnitModulo(m: int, a: int) returns (unit: bool)
    ensures unit <==> Coprime(a, m)
  {
    hide Divides;
    var d := Gcd(a, m);
    unit := IsUnit(d);
    UnitGcdIsCoprime(d, a, m);
  }

  lemma {:induction false} UnitGcdIsCoprime(g: int, a: int, b: int)
    requires IsGreatestCommonDivisor(g, a, b)
    ensures IsUnit(g) <==> Coprime(a, b)
  {
  }

  /** g is a combination of a and m with the coefficient v the algorithm tracks. */
  ghost predicate Combination(m: int, a: int, g: int, v: int, u: int) {
    g == v * a + u * m
  }

  /** Reduced inputs stay reduced; an input beyond the modulus is swapped with it once. */
  ghost predicate Progress(m: int, a: int, g0: int, g1: int) {
    if -m < a < m then -m < g1 < m
    else (g0 == m && g1 == a) || (g0 == a && g1 == m && a != m && a != -m)
  }

  /** QuotientRing::MultiplicativeInverse: for every integer a and every positive modulus the result is an inverse
      exactly when a is coprime to m and already reduced to -m < a < m, and zero otherwise. In the ring with one
      element, zero is the inverse of everything. */
  method MultiplicativeInverse(m: int, a: int) returns (r: int)
    requires m > 0
    ensures Equal(m, a * r, 1) <==> m == 1 || (Coprime(a, m) && -m < a < m)
    ensures m > 1 ==> ((a * r) % m == 1 <==> Equal(m, a * r, 1))
    ensures !(Coprime(a, m) && -m < a < m) ==> r == 0
  {
    hide Divides, Coprime, SameDivisors, Combination, Progress, Equal;
    var g, v := new int[3], new int[3];
    g[0], g[1], v[0], v[1] := m, a, 0, 1;
    ghost var u0, u1 := 1, 0;
    var i0, i1, i2 := 0, 1, 2;
    InverseStart(m, a);
    while !Equal(m, g[i1], 0)
      invariant {i0, i1, i2} == {0, 1, 2}
      invariant Combination(m, a, g[i0], v[i0], u0) && Combination(m, a, g[i1], v[i1], u1)
      invariant SameDivisors(m, a, g[i0], g[i1])
      invariant Progress(m, a, g[i0], g[i1])
      invariant m == 1 ==> g[i0] == m && v[i0] == 0
      decreases if g[i1] < 0 then -g[i1] else g[i1]
    {
      NotEqualZero(m, g[i1]);
      var y := g[i0] / g[i1];
      g[i2] := g[i0] % g[i1];
      v[i2] := v[i0] - v[i1] * y;
      InverseStep(m, a, g[i0], g[i1], y, g[i2], v[i0], v[i1], u0, u1);
      u0, u1 := u1, u0 - u1 * y;
      i0, i1, i2 := i1, i2, i0;
    }
    r := if IsUnit(g[i0]) then v[i0] / g[i0] else 0;
    InverseResult(m, a, g[i0], g[i1], v[i0], u0, r);
    OneModulo(m, a * r);
  }

  lemma {:induction false} OneModulo(m: int, x: int)
    requires m > 0
    ensures m > 1 ==> (x % m == 1 <==> Equal(m, x, 1))
    ensures m == 1 ==> Equal(m, x, 1)
  {
    if m == 1 {
      DivModUnique(x - 1, 1, x - 1, 0);
    } else if x % m == 1 {
      DivModUnique(x - 1, m, x / m, 0);
    } else if (x - 1) % m == 0 {
      DivModUnique(x, m, (x - 1) / m, 1);
    }
  }

  lemma {:induction false} InverseStart(m: int, a: int)
    requires m > 0
    ensures SameDivisors(m, a, m, a) && Progress(m, a, m, a)
    ensures Combination(m, a, m, 0, 1) && Combination(m, a, a, 1, 0)
  {
  }

  /** The loop test modulo m is stronger than a plain zero test, and the same on remainders. */
  lemma {:induction false} NotEqualZero(m: int, x: int)
    requires m > 0
    ensures !Equal(m, x, 0) ==> x != 0 && m > 1
    ensures -m < x < m ==> (Equal(m, x, 0) <==> x == 0)
  {
  }

  /** One round keeps the two linear combinations and the common divisors. */
  lemma {:induction false} InverseStep(m: int, a: int, g0: int, g1: int, y: int, g2: int, v0: int, v1: int, u0: int,
      u1: int)
    requires m > 1 && g1 != 0 && y == g0 / g1 && g2 == g0 % g1 && !Equal(m, g1, 0)
    requires Combination(m, a, g0, v0, u0) && Combination(m, a, g1, v1, u1)
    requires SameDivisors(m, a, g0, g1) && Progress(m, a, g0, g1)
    ensures Combination(m, a, g2, v0 - v1 * y, u0 - u1 * y)
    ensures SameDivisors(m, a, g1, g2) && Progress(m, a, g1, g2)
    ensures 0 <= g2 && (g2 < g1 || g2 < -g1)
  {
    hide Combination, SameDivisors, Progress, Equal;
    CombineStep(m, a, g0, g1, y, g2, v0, v1, u0, u1);
    ProgressStep(m, a, g0, g1, g2);
  }

  lemma {:induction false} ProgressStep(m: int, a: int, g0: int, g1: int, g2: int)
    requires m > 1 && g1 != 0 && g2 == g0 % g1 && !Equal(m, g1, 0) && Progress(m, a, g0, g1)
    ensures Progress(m, a, g1, g2) && 0 <= g2 && (g2 < g1 || g2 < -g1)
  {
    if !(-m < a < m) {
      assert g1 == a by {
        if g1 == m { ModOfMultiple(1, m); }
      }
      SwapStep(m, a);
    }
  }

  lemma {:induction false} CombineStep(m: int, a: int, g0: int, g1: int, y: int, g2: int, v0: int, v1: int, u0: int,
      u1: int)
    requires g0 == y * g1 + g2
    requires Combination(m, a, g0, v0, u0) && Combination(m, a, g1, v1, u1)
    requires SameDivisors(m, a, g0, g1)
    ensures Combination(m, a, g2, v0 - v1 * y, u0 - u1 * y)
    ensures SameDivisors(m, a, g1, g2)
  {
    hide CommonDivisor;
    StepKeepsDivisors(g0, g1, y, g2);
    calc {
      g2;
      v0 * a + u0 * m - y * (v1 * a + u1 * m);
      v0 * a + u0 * m - (y * (v1 * a) + y * (u1 * m));
      { assert y * (v1 * a) == (v1 * y) * a && y * (u1 * m) == (u1 * y) * m; }
      (v0 * a - (v1 * y) * a) + (u0 * m - (u1 * y) * m);
      (v0 - v1 * y) * a + (u0 - u1 * y) * m;
    }
  }

  /** Dividing m by an a beyond it only swaps them, and the early exit then stops the loop. */
  lemma {:induction false} SwapStep(m: int, a: int)
    requires m > 1 && !(-m < a < m) && a % m != 0
    ensures m % a == m && a != m && a != -m
  {
    ModOfMultiple(1, m);
    ModOfMultiple(-1, m);
    SmallRemainder(m, a);
  }

  lemma {:induction false} SmallRemainder(x: int, d: int)
    requires 0 <= x < d || 0 <= x < -d
    ensures x % d == x
  {
  }

  lemma {:induction false} SmallMultiple(m: int, x: int)
    requires m > 0 && -m < x < m && x % m == 0
    ensures x == 0
  {
  }

  lemma {:induction false} InverseResult(m: int, a: int, g0: int, g1: int, v0: int, u0: int, r: int)
    requires m > 0 && Equal(m, g1, 0) && (m == 1 ==> g0 == m && v0 == 0)
    requires Combination(m, a, g0, v0, u0) && SameDivisors(m, a, g0, g1) && Progress(m, a, g0, g1)
    requires r == if IsUnit(g0) then v0 / g0 else 0
    ensures m > 1 ==> ((a * r) % m == 1 <==> Coprime(a, m) && -m < a < m)
    ensures !(Coprime(a, m) && -m < a < m) ==> r == 0
  {
    hide Divides, CommonDivisor;
    if m > 1 && -m < a < m {
      SmallMultiple(m, g1);
      CoprimeIsUnit(m, a, g0);
      if g0 == 1 {
        InverseEquation(m, a, v0, u0);
      } else if g0 == -1 {
        assert (-v0) * a + (-u0) * m == 1;
        InverseEquation(m, a, -v0, -u0);
      }
    }
  }

  lemma {:induction false} InverseEquation(m: int, a: int, v: int, u: int)
    requires m > 1 && v * a + u * m == 1
    ensures (a * v) % m == 1
  {
    assert a * v == 1 + (-u) * m;
    assert (1 + (-u) * m) % m == 1 by { RemainderOne(m, -u); }
  }

  lemma {:induction false} RemainderOne(m: int, k: int)
    requires m > 1
    ensures (1 + k * m) % m == 1
  {
    ModShift(1, k, m);
    DivModUnique(1, m, 0, 1);
  }

  lemma {:induction false} CoprimeIsUnit(m: int, a: int, g: int)
    requires SameDivisors(m, a, g, 0)
    ensures Coprime(a, m) <==> IsUnit(g)
  {
    hide Divides;
    DividesSelfAndZero(g);
    assert CommonDivisor(g, m, a);
    if IsUnit(g) {
      forall d | CommonDivisor(d, a, m) ensures IsUnit(d) {
        assert CommonDivisor(d, m, a);
        DivisorsOfUnit(d, g);
      }
    } else {
      assert CommonDivisor(g, a, m);
    }
  }

  /** 4 is coprime to 3 (its inverse is 1), but it is not reduced, and the early exit answers zero. */
  method InverseOfUnreduced() returns (r: int)
    ensures r == 0 && Coprime(4, 3) && (4 * 1) % 3 == 1
  {
    r := MultiplicativeInverse(3, 4);
    FourIsCoprimeToThree();
  }

  lemma {:induction false} FourIsCoprimeToThree()
    ensures Coprime(4, 3)
  {
  }
}
