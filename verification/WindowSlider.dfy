/** The sliding window that cuts an exponent into odd digits, optionally signed (algebra.cpp). */
module WindowSliding {
  import opened Arithmetic

  const WORD_BITS: nat := 64

  /** Integer::WordCount() * WORD_BITS: the bit capacity of the words holding v. */
  function WordCapacity(v: nat): (n: nat)
    ensures v < Pow2(n)
  {
    var n := (BitCount(v) + WORD_BITS - 1) / WORD_BITS * WORD_BITS;
    Pow2Monotone(BitCount(v), n);
    n
  }

  function DefaultWindowSize(expLen: nat): (w: nat)
    ensures 1 <= w <= 7
  {
    if expLen <= 17 then 1 else if expLen <= 24 then 2 else if expLen <= 70 then 3
    else if expLen <= 197 then 4 else if expLen <= 539 then 5 else if expLen <= 1434 then 6 else 7
  }

  class WindowSlider {
    var exp: nat
    var windowModulus: nat
    var windowSize: nat
    var windowBegin: nat
    var expWindow: nat
    var fastNegate: bool
    var negateNext: bool
    var firstTime: bool
    var finished: bool
    ghost const exponent: nat  // the value the slider was built with

    /** The signed digit of the current window. */
    ghost function Digit(): int
      reads this
    {
      if negateNext then 0 - expWindow else expWindow
    }

    /** What is left of the exponent above the current window, in units of 2^HighPosition(). */
    ghost function High(): nat
      reads this
    {
      if firstTime then exp else Shr(exp, windowSize)
    }

    ghost function HighPosition(): nat
      reads this
    {
      if firstTime then windowBegin else windowBegin + windowSize
    }

    /** The current window together with everything above it. */
    ghost function Pending(): int
      reads this
    {
      if finished then 0 else Shl(Digit() + Shl(High(), windowSize), windowBegin)
    }

    ghost predicate Valid()
      reads this
    {
      && windowSize >= 1
      && windowModulus == Pow2(windowSize)
      && (firstTime ==> windowBegin == 0 && !finished && exp == exponent)
      && (finished ==> High() == 0)
      && (!finished && !firstTime ==>
          expWindow % 2 == 1 && expWindow < windowModulus && windowBegin <= BitCount(exponent))
      && Bounded(exponent, High(), HighPosition())
    }

    constructor (expIn: nat, fastNegateIn: bool, windowSizeIn: nat := 0)
      ensures Valid() && firstTime && exponent == expIn && fastNegate == fastNegateIn
      ensures windowSize == if windowSizeIn == 0 then DefaultWindowSize(BitCount(expIn)) else windowSizeIn
    {
      var w := windowSizeIn;
      if windowSizeIn == 0 {
        w := DefaultWindowSize(BitCount(expIn));
      }
      exp, exponent, windowSize, windowModulus := expIn, expIn, w, Pow2(w);
      windowBegin, expWindow := 0, 0;
      fastNegate, negateNext, firstTime, finished := fastNegateIn, false, true, false;
    }

    /** Moves to the next odd window. Nothing of the exponent is lost: the part above the old window is
        exactly the new digit plus the new high part, and that high part is strictly smaller. */
    method FindNextWindow()
      requires Valid() && !finished
      modifies this
      ensures Valid() && !firstTime && windowSize == old(windowSize) && fastNegate == old(fastNegate)
      ensures finished <==> old(High()) == 0
      ensures !finished ==> windowBegin >= old(HighPosition()) && High() < old(High())
      ensures Pending() == Shl(old(High()), old(HighPosition()))
      ensures negateNext && !finished ==> fastNegate
    {
      hide Shl, Shr, Pow2, Low, BitCount, Bounded;
      ghost var h, p := High(), HighPosition();
      ghost var start := if firstTime then 0 else windowSize;
      ShiftByZero(exp);
      var found, skipCount := SkipZeroBits(exp, if firstTime then 0 else windowSize);
      firstTime := false;
      if !found {
        NothingLeft(exponent, exp, start, windowSize, p, windowBegin + windowSize);
        finished := true;
        return;
      }
      ShiftByZero(Shr(exp, skipCount));
      exp := Shr(exp, skipCount);
      windowBegin := windowBegin + skipCount;
      TakeWindow(h, p, skipCount - start);
    }

    /** The window at the low end of the shifted exponent, which is odd. */
    method TakeWindow(ghost h: nat, ghost p: nat, ghost k: nat)
      requires windowSize >= 1 && windowModulus == Pow2(windowSize) && !finished && !firstTime
      requires h == Shl(exp, k) && Bit(exp, 0) == 1 && windowBegin == p + k && Bounded(exponent, h, p)
      modifies this`exp, this`expWindow, this`negateNext
      ensures Valid() && High() < h && Pending() == Shl(h, p)
      ensures negateNext ==> fastNegate
    {
      hide Shl, Shr, Pow2, Low, BitCount, Bounded;
      ghost var v, negate := exp, fastNegate && Bit(exp, windowSize) == 1;
      ShiftByZero(v);
      LowRange(exp, windowSize);
      expWindow := Low(exp, windowSize);
      if fastNegate && Bit(exp, windowSize) == 1 {
        negateNext := true;
        expWindow := windowModulus - expWindow;
        exp := exp + windowModulus;
      } else {
        negateNext := false;
      }
      WindowStep(exponent, h, p, v, k, windowSize, negate, exp, expWindow);
    }

    /** The skipping loop: the first set bit at or after `start`, if any. */
    static method SkipZeroBits(exp: nat, start: nat) returns (found: bool, skipCount: nat)
      ensures start <= skipCount
      ensures found ==> Bit(exp, skipCount) == 1 && Shr(exp, start) == Shl(Shr(exp, skipCount), skipCount - start)
      ensures !found ==> Shr(exp, start) == 0
    {
      var expLen := WordCapacity(exp);
      skipCount := start;
      found := true;
      while Bit(exp, skipCount) == 0
        invariant start <= skipCount && found
        invariant Shr(exp, start) == Shl(Shr(exp, skipCount), skipCount - start)
        decreases expLen - skipCount
      {
        if skipCount >= expLen {
          AboveCapacity(exp, expLen, skipCount, skipCount - start);
          found := false;
          return;
        }
        SkipZeroBit(exp, start, skipCount);
        skipCount := skipCount + 1;
      }
    }
  }

  /** What keeps windows within the exponent: the high part never exceeds the exponent by more than a carry. */
  ghost predicate Bounded(e: nat, high: nat, position: nat) {
    && Shl(high, position) < e + Pow2(position)
    && (high >= 1 ==> Pow2(position) <= e)
  }

  /** Past the capacity of the words every bit is zero. */
  lemma {:induction false} AboveCapacity(v: nat, expLen: nat, skip: nat, k: nat)
    requires v < Pow2(expLen) && expLen <= skip
    ensures Shl(Shr(v, skip), k) == 0
  {
    Pow2Monotone(expLen, skip);
    ShrSmall(v, skip);
    ShlOne(k);
  }

  lemma {:induction false} NothingLeft(e: nat, v: nat, start: nat, w: nat, p: nat, position: nat)
    requires Shr(v, start) == 0 && (start == 0 || start == w)
    ensures Shr(v, w) == 0 && Shl(0, p) == 0 && Bounded(e, 0, position)
  {
    if start == 0 { ShrSmall(0, w); }
    ShlOne(p);
    ShlOne(position);
  }

  lemma {:induction false} SkipZeroBit(v: nat, start: nat, skip: nat)
    requires start <= skip && Bit(v, skip) == 0
    ensures Shl(Shr(v, skip), skip - start) == Shl(Shr(v, skip + 1), skip + 1 - start)
  {
    ShlShl(Shr(v, skip + 1), 1, skip - start);
    assert Shl(Shr(v, skip + 1), 1) == 2 * Shr(v, skip + 1);
  }

  /** One window step in numbers: v is the shifted exponent (odd), k the zero bits skipped, and
      v', window are the exponent and the window left by the step. */
  lemma {:induction false} WindowStep(e: nat, h: nat, p: nat, v: nat, k: nat, w: nat, negate: bool, v': nat, window: nat)
    requires w >= 1 && h == Shl(v, k) && v % 2 == 1 && Bounded(e, h, p)
    requires negate ==> Shr(v, w) % 2 == 1
    requires v' == if negate then v + Pow2(w) else v
    requires window == if negate then Pow2(w) - Low(v, w) else Low(v, w)
    ensures window % 2 == 1 && window < Pow2(w)
    ensures Shl((if negate then 0 - window else window) + Shl(Shr(v', w), w), p + k) == Shl(h, p)
    ensures Shr(v', w) < h
    ensures p + k <= BitCount(e)
    ensures Bounded(e, Shr(v', w), p + k + w)
  {
    hide Shl, Shr, Low, BitCount, Bounded, Pow2;
    var high, digit := Shr(v', w), if negate then 0 - window else window;
    SignedDigit(v, w, negate, v', window);
    ShlGrows(v, k);
    WindowStart(e, h, p, v, k);
    HighBounded(e, p, p + k, v, high, digit, w);
  }

  /** The digit and the part above it are v, whichever sign is chosen. */
  lemma {:induction false} SignedDigit(v: nat, w: nat, negate: bool, v': nat, window: nat)
    requires w >= 1 && v % 2 == 1 && (negate ==> Shr(v, w) % 2 == 1)
    requires v' == if negate then v + Pow2(w) else v
    requires window == if negate then Pow2(w) - Low(v, w) else Low(v, w)
    ensures window % 2 == 1 && window < Pow2(w)
    ensures (if negate then 0 - window else window) + Shl(Shr(v', w), w) == v
    ensures Shr(v', w) < v
    ensures negate ==> Shr(v', w) >= 2 && Pow2(w) - window >= 1
    ensures !negate ==> window >= 1
  {
    hide Shl, Shr, Low, BitCount;
    WindowDigit(v, w);
    assert Low(v, w) % 2 == 1 && Low(v, w) >= 1;
    ShlAdd(Shr(v, w), 1, w);
    ShlOne(w);
  }

  /** Cutting off w >= 1 low bits keeps the parity in the low part. */
  lemma {:induction false} WindowDigit(v: nat, w: nat)
    requires w >= 1
    ensures v % 2 == Low(v, w) % 2 && 0 <= Low(v, w) < Pow2(w)
    ensures v == Shl(Shr(v, w), w) + Low(v, w)
    ensures Shr(v + Pow2(w), w) == Shr(v, w) + 1
    ensures v % 2 == 1 ==> Shr(v, w) + 1 <= v && (Shr(v, w) > 0 ==> Shr(v, w) + 1 < v)
  {
    LowRange(v, w);
    ShrOfSum(1, v, w);
    ShlOne(w);
    ShlGrows(Shr(v, w), w - 1);
  }

  lemma {:induction false} WindowStart(e: nat, h: nat, p: nat, v: nat, k: nat)
    requires h == Shl(v, k) && v >= 1 && Bounded(e, h, p)
    ensures Shl(h, p) == Shl(v, p + k) < e + Pow2(p)
    ensures Pow2(p) <= Pow2(p + k)
    ensures p + k <= BitCount(e)
  {
    ShlShl(v, k, p);
    ShlGrows(v, k);
    Pow2Monotone(p, p + k);
    ShlMonotone(1, v, p + k);
    ShlOne(p + k);
    Pow2StrictInverse(p + k, BitCount(e) + 1);
  }

  lemma {:induction false} HighBounded(e: nat, p: nat, at: nat, v: nat, high: nat, digit: int, w: nat)
    requires Shl(v, at) < e + Pow2(p) && Pow2(p) <= Pow2(at)
    requires digit + Shl(high, w) == v
    requires digit >= 1 || (high >= 2 && digit + Pow2(w) >= 1)
    ensures Bounded(e, high, at + w)
  {
    ShlAdd(digit, Shl(high, w), at);
    ShlShl(high, w, at);
    ShlOne(at);
    ShlOne(at + w);
    if digit >= 1 {
      ShlMonotone(1, digit, at);
      if high >= 1 { ShlMonotone(1, high, at + w); }
    } else {
      ShlAdd(digit, Pow2(w), at);
      ShlOne(w);
      ShlShl(1, w, at);
      ShlMonotone(1, digit + Pow2(w), at);
      ShlAdd(high - 1, 1, at + w);
      ShlMonotone(1, high - 1, at + w);
    }
  }
}
