/** Shifts, powers of two and bits of integers, and the division facts used by the other modules.
    Shifts are defined by repeated doubling and halving, so that proofs about them stay linear. */
module Arithmetic {

  type byte = x: nat | x < 256

  const TWO32: nat := 0x1_0000_0000
  const TWO64: nat := 0x1_0000_0000_0000_0000

  function Pow2(k: nat): (p: nat)
    ensures p >= 1
  {
    if k == 0 then 1 else Pow2(k - 1) + Pow2(k - 1)
  }

  /** v << k. */
  function Shl(v: int, k: nat): int {
    if k == 0 then v else Shl(v, k - 1) + Shl(v, k - 1)
  }

  /** v >> k. */
  function Shr(v: nat, k: nat): nat {
    if k == 0 then v else Shr(v, k - 1) / 2
  }

  /** The low k bits of v: what is left without the high part shifted back. */
  function Low(v: nat, k: nat): int {
    v - Shl(Shr(v, k), k)
  }

  /** Bit n of v, bit 0 being the least significant. */
  function Bit(v: nat, n: nat): (b: nat)
    ensures b <= 1
  {
    Shr(v, n) % 2
  }

  /** Number of bits needed to write v; 0 for v == 0. */
  function BitCount(v: nat): (n: nat)
    ensures v < Pow2(n)
    ensures n > 0 ==> Pow2(n - 1) <= v
  {
    if v == 0 then 0 else 1 + BitCount(v / 2)
  }

  lemma {:induction false} ShlAdd(u: int, v: int, k: nat)
    ensures Shl(u + v, k) == Shl(u, k) + Shl(v, k)
  {
    if k > 0 { ShlAdd(u, v, k - 1); }
  }

  lemma {:induction false} ShlShl(v: int, a: nat, b: nat)
    ensures Shl(Shl(v, a), b) == Shl(v, a + b)
  {
    if b > 0 { ShlShl(v, a, b - 1); }
  }

  lemma {:induction false} ShlMonotone(u: int, v: int, k: nat)
    requires u <= v
    ensures Shl(u, k) <= Shl(v, k)
  {
    if k > 0 { ShlMonotone(u, v, k - 1); }
  }

  lemma {:induction false} ShlOne(k: nat)
    ensures Shl(1, k) == Pow2(k) && Shl(0, k) == 0
  {
    if k > 0 { ShlOne(k - 1); }
  }

  /** Shifting a nonnegative value left does not make it smaller. */
  lemma {:induction false} ShlGrows(v: nat, k: nat)
    ensures Shl(v, k) >= v
  {
    if k > 0 { ShlGrows(v, k - 1); }
  }

  lemma {:induction false} ShlIsMul(v: int, k: nat)
    ensures Shl(v, k) == v * Pow2(k)
  {
    if k > 0 {
      ShlIsMul(v, k - 1);
      MulAssoc(v, 2, Pow2(k - 1));
    }
  }

  lemma {:induction false} ShiftByZero(v: nat)
    ensures Shl(v, 0) == v == Shr(v, 0)
  {
  }

  lemma {:induction false} ShrShr(v: nat, a: nat, b: nat)
    ensures Shr(Shr(v, a), b) == Shr(v, a + b)
  {
    if b > 0 { ShrShr(v, a, b - 1); }
  }

  lemma {:induction false} ShrShl(v: nat, a: nat, b: nat)
    ensures Shl(v, a) >= 0
    ensures Shr(Shl(v, a), b) == if b <= a then Shl(v, a - b) else Shr(v, b - a)
  {
    ShlGrows(v, a);
    if b > 0 { ShrShl(v, a, b - 1); ShlGrows(v, a); if b <= a { ShlGrows(v, a - b); } }
  }

  lemma {:induction false} LowRange(v: nat, k: nat)
    ensures 0 <= Low(v, k) < Pow2(k)
  {
    if k > 0 {
      LowRange(v, k - 1);
      var h := Shr(v, k - 1);
      ShlAdd(h / 2 + h / 2, h % 2, k - 1);
      ShlAdd(h / 2, h / 2, k - 1);
      assert h == h / 2 + h / 2 + h % 2;
      ShlOne(k - 1);
    }
  }

  lemma {:induction false} LowNext(v: nat, k: nat)
    ensures Low(v, k + 1) == Low(v, k) + Shl(Bit(v, k), k)
  {
    var above := Shr(v, k + 1);
    assert Shr(v, k) == 2 * above + Bit(v, k);
    ShlAdd(above, above, k);
    ShlAdd(2 * above, Bit(v, k), k);
  }

  /** The low bits are the same number exactly if they are the same bits. */
  lemma {:induction false} BitsDecide(a: nat, b: nat, k: nat)
    ensures Low(a, k) == Low(b, k) <==> forall i: nat :: i < k ==> Bit(a, i) == Bit(b, i)
  {
    hide Low, Bit;
    if k == 0 {
      NoLowBits(a);
      NoLowBits(b);
    } else {
      BitsDecide(a, b, k - 1);
      LowNext(a, k - 1);
      LowNext(b, k - 1);
      LowRange(a, k - 1);
      LowRange(b, k - 1);
      ShlOne(k - 1);
      BitShifted(Bit(a, k - 1), k - 1);
      BitShifted(Bit(b, k - 1), k - 1);
    }
  }

  lemma {:induction false} BitShifted(bit: nat, k: nat)
    requires bit <= 1
    ensures Shl(bit, k) == if bit == 1 then Shl(1, k) else 0
  {
    if bit == 0 { ShlAdd(0, 0, k); }
  }

  lemma {:induction false} NoLowBits(v: nat)
    ensures Low(v, 0) == 0
  {
  }

  /** Adding above bit k does not disturb the low k bits. */
  lemma {:induction false} ShrOfSum(u: nat, v: nat, k: nat)
    ensures Shl(u, k) + v >= 0
    ensures Shr(Shl(u, k) + v, k) == u + Shr(v, k)
    decreases k
  {
    ShlGrows(u, k);
    if k > 0 {
      ShlShl(u, 1, k - 1);
      assert Shl(u, 1) == 2 * u;
      ShrOfSum(2 * u, v, k - 1);
    }
  }

  lemma {:induction false} ShrSmall(v: nat, k: nat)
    requires v < Pow2(k)
    ensures Shr(v, k) == 0
  {
    LowRange(v, k);
    ShlGrows(Shr(v, k), k);
    if Shr(v, k) >= 1 {
      ShlMonotone(1, Shr(v, k), k);
      ShlOne(k);
    }
  }

  lemma {:induction false} Pow2Monotone(a: nat, b: nat)
    requires a <= b
    ensures Pow2(a) <= Pow2(b)
    decreases b - a
  {
    if a < b {
      Pow2Monotone(a, b - 1);
    }
  }

  lemma {:induction false} Pow2StrictInverse(a: nat, b: nat)
    requires Pow2(a) < Pow2(b)
    ensures a < b
  {
    if b <= a { Pow2Monotone(b, a); }
  }

  lemma {:induction false} MulAssoc(a: int, b: int, c: int)
    ensures a * (b * c) == (a * b) * c == b * (a * c)
  {
  }

  lemma {:induction false} MulDistributes(a: int, b: int, c: int)
    ensures a * (b + c) == a * b + a * c
    ensures (b + c) * a == b * a + c * a
    ensures a * (b - c) == a * b - a * c
    ensures (b - c) * a == b * a - c * a
  {
  }

  lemma {:induction false} MulMonotone(a: nat, b: int, c: int)
    requires b <= c
    ensures a * b <= a * c
  {
  }

  /** Quotient and remainder are the only pair with the defining equation. */
  lemma {:induction false} DivModUnique(a: int, d: int, q: int, r: int)
    requires 0 <= r < d
    requires a == q * d + r
    ensures a / d == q && a % d == r
  {
    var q', r' := a / d, a % d;
    assert a == q' * d + r';
    assert (q - q') * d == r' - r by { MulDistributes(d, q, q'); }
    if q - q' >= 1 {
      MulMonotone(d, 1, q - q');
      assert false;
    } else if q - q' <= -1 {
      MulMonotone(d, q - q', -1);
      assert false;
    }
  }

  lemma {:induction false} ModShift(a: int, k: int, d: int)
    requires d > 0
    ensures (a + k * d) % d == a % d && (a + k * d) / d == a / d + k
  {
    assert a == (a / d) * d + a % d;
    MulDistributes(d, a / d, k);
    DivModUnique(a + k * d, d, a / d + k, a % d);
  }

  lemma {:induction false} ModThenAdd(x: int, k: int, d: int)
    requires d > 0
    ensures (x % d + k) % d == (x + k) % d
  {
    assert x == (x / d) * d + x % d;
    ModShift(x % d + k, x / d, d);
  }

  lemma {:induction false} ModOfMultiple(k: int, d: int)
    requires d > 0
    ensures (k * d) % d == 0 && (k * d) / d == k
  {
    DivModUnique(k * d, d, k, 0);
  }

  // ---- exclusive or ----

  /** Exclusive or of the low k bits of a and b. */
  function XorBits(a: nat, b: nat, k: nat): (x: nat)
    ensures x < Pow2(k)
  {
    if k == 0 then 0 else
      var r := XorBits(a / 2, b / 2, k - 1);
      r + r + (a % 2 + b % 2) % 2
  }

  function Xor(a: byte, b: byte): byte {
    PowersOfTwo();
    XorBits(a, b, 8)
  }

  lemma {:induction false} PowersOfTwo()
    ensures Pow2(3) == 8 && Pow2(7) == 128 && Pow2(8) == 256
  {
  }

  lemma {:induction false} XorBitsTwice(a: nat, b: nat, k: nat)
    requires a < Pow2(k)
    ensures XorBits(XorBits(a, b, k), b, k) == a
  {
    if k > 0 {
      var x, rest := XorBits(a, b, k), XorBits(a / 2, b / 2, k - 1);
      Halves(rest, (a % 2 + b % 2) % 2);
      assert x / 2 == rest && x % 2 == (a % 2 + b % 2) % 2;
      XorBitsTwice(a / 2, b / 2, k - 1);
      ParityTwice(a, b);
    }
  }

  lemma {:induction false} Halves(r: nat, bit: nat)
    requires bit <= 1
    ensures (r + r + bit) / 2 == r && (r + r + bit) % 2 == bit
  {
  }

  lemma {:induction false} ParityTwice(a: nat, b: nat)
    ensures ((a % 2 + b % 2) % 2 + b % 2) % 2 == a % 2
  {
  }

  lemma {:induction false} XorTwice(a: byte, b: byte)
    ensures Xor(Xor(a, b), b) == a
  {
    PowersOfTwo();
    XorBitsTwice(a, b, 8);
  }

  lemma {:induction false} XorBitsCommute(a: nat, b: nat, k: nat)
    ensures XorBits(a, b, k) == XorBits(b, a, k)
  {
    if k > 0 { XorBitsCommute(a / 2, b / 2, k - 1); }
  }

  lemma {:induction false} XorCommutes(a: byte, b: byte)
    ensures Xor(a, b) == Xor(b, a)
  {
    XorBitsCommute(a, b, 8);
  }

  /** Bit i of the exclusive or is the sum of the two bits modulo 2. */
  lemma {:induction false} XorBitsAt(a: nat, b: nat, k: nat, i: nat)
    requires i < k
    ensures Bit(XorBits(a, b, k), i) == (Bit(a, i) + Bit(b, i)) % 2
  {
    var x, rest, bit := XorBits(a, b, k), XorBits(a / 2, b / 2, k - 1), (a % 2 + b % 2) % 2;
    Halves(rest, bit);
    if i > 0 {
      XorBitsAt(a / 2, b / 2, k - 1, i - 1);
      BitOfHalf(x, i);
      BitOfHalf(a, i);
      BitOfHalf(b, i);
    }
  }

  lemma {:induction false} BitOfHalf(v: nat, i: nat)
    requires i > 0
    ensures Bit(v, i) == Bit(v / 2, i - 1)
  {
    ShrShr(v, 1, i - 1);
  }

  lemma {:induction false} XorZero(a: nat, k: nat)
    requires a < Pow2(k)
    ensures XorBits(a, 0, k) == a == XorBits(0, a, k)
  {
    if k > 0 { XorZero(a / 2, k - 1); }
  }

  // ---- inclusive or ----

  /** Inclusive or of the low k bits of a and b. */
  function OrBits(a: nat, b: nat, k: nat): (x: nat)
    ensures x < Pow2(k)
  {
    if k == 0 then 0 else
      var r := OrBits(a / 2, b / 2, k - 1);
      r + r + (if a % 2 == 1 || b % 2 == 1 then 1 else 0)
  }

  function Or(a: byte, b: byte): byte {
    PowersOfTwo();
    OrBits(a, b, 8)
  }

  /** Bit i of the inclusive or is set if it is in either. */
  lemma {:induction false} OrBitsAt(a: nat, b: nat, k: nat, i: nat)
    requires i < k
    ensures Bit(OrBits(a, b, k), i) == 1 <==> Bit(a, i) == 1 || Bit(b, i) == 1
  {
    var x, rest, bit := OrBits(a, b, k), OrBits(a / 2, b / 2, k - 1), if a % 2 == 1 || b % 2 == 1 then 1 else 0;
    Halves(rest, bit);
    if i > 0 {
      OrBitsAt(a / 2, b / 2, k - 1, i - 1);
      BitOfHalf(x, i);
      BitOfHalf(a, i);
      BitOfHalf(b, i);
    }
  }

  lemma {:induction false} OrWithZero(u: nat, k: nat)
    requires u < Pow2(k)
    ensures OrBits(u, 0, k) == u
  {
    if k > 0 { OrWithZero(u / 2, k - 1); }
  }

  /** Filling bits that are still zero adds. */
  lemma {:induction false} OrShifted(u: nat, x: nat, t: nat, k: nat)
    requires x < Pow2(t) && 0 <= Shl(u, t) && Shl(u, t) + x < Pow2(k)
    ensures OrBits(Shl(u, t), x, k) == Shl(u, t) + x
  {
    if t == 0 {
      OrWithZero(u, k);
    } else if k > 0 {
      ShlGrows(u, t - 1);
      assert (Shl(u, t) + x) / 2 == Shl(u, t - 1) + x / 2;
      assert Shl(u, t) / 2 == Shl(u, t - 1);
      OrShifted(u, x / 2, t - 1, k - 1);
    }
  }
}
