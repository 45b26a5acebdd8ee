/** The Blum Blum Shub generator and its random access (blumshub.cpp). */
module BlumBlumShubGenerator {
  import opened Arithmetic
  import opened ModularPowers

  // ---- the stream, as a function of the position alone ----

  /** The j-th state x0^(2^(j+1)) mod n. */
  ghost function State(x0: nat, n: nat, j: nat): nat
    requires n > 0
  {
    Power(x0, Pow2(j + 1)) % n
  }

  lemma {:induction false} StateSquares(x0: nat, n: nat, j: nat)
    requires n > 0
    ensures State(x0, n, j + 1) == (State(x0, n, j) * State(x0, n, j)) % n
  {
    PowerAdd(x0, Pow2(j + 1), Pow2(j + 1));
    ModProduct(Power(x0, Pow2(j + 1)), Power(x0, Pow2(j + 1)), n);
  }

  /** Bit t of the stream: every state contributes its low maxBits bits, highest first. */
  ghost function StreamBit(x0: nat, n: nat, maxBits: nat, t: nat): nat
    requires n > 0 && maxBits > 0
  {
    Bit(State(x0, n, t / maxBits), maxBits - 1 - t % maxBits)
  }

  /** The k bits from position t on, read as a big-endian number. */
  ghost function StreamValue(x0: nat, n: nat, maxBits: nat, t: nat, k: nat): (v: nat)
    requires n > 0 && maxBits > 0
    ensures v < Pow2(k)
  {
    if k == 0 then 0
    else 2 * StreamValue(x0, n, maxBits, t, k - 1) + StreamBit(x0, n, maxBits, t + k - 1)
  }

  // ---- the bits a generator gives from any state on ----

  /** c squared d times modulo n. */
  ghost function Squared(c: nat, n: nat, d: nat): nat
    requires n > 0
  {
    if d == 0 then c else (Squared(c, n, d - 1) * Squared(c, n, d - 1)) % n
  }

  /** Bit t, when state number `word` is c. */
  ghost function RunBit(c: nat, word: nat, n: nat, maxBits: nat, t: nat): nat
    requires n > 0 && maxBits > 0 && word <= t / maxBits
  {
    Bit(Squared(c, n, t / maxBits - word), maxBits - 1 - t % maxBits)
  }

  ghost function RunValue(c: nat, word: nat, n: nat, maxBits: nat, t: nat, k: nat): (v: nat)
    requires n > 0 && maxBits > 0 && word <= t / maxBits
    ensures v < Pow2(k)
  {
    if k == 0 then 0
    else
      LaterWord(maxBits, t, t + k - 1);
      2 * RunValue(c, word, n, maxBits, t, k - 1) + RunBit(c, word, n, maxBits, t + k - 1)
  }

  /** The bytes generated from bit t on, when state number `word` is c. */
  ghost predicate RunBytes(c: nat, word: nat, n: nat, maxBits: nat, t: nat, s: seq<byte>)
    requires n > 0 && maxBits > 0
  {
    forall i :: 0 <= i < |s| ==> word <= (t + 8 * i) / maxBits && s[i] == RunValue(c, word, n, maxBits, t + 8 * i, 8)
  }

  /** The bytes of the stream from bit t on. */
  ghost predicate StreamBytes(x0: nat, n: nat, maxBits: nat, t: nat, s: seq<byte>)
    requires n > 0 && maxBits > 0
  {
    forall i :: 0 <= i < |s| ==> s[i] == StreamValue(x0, n, maxBits, t + 8 * i, 8)
  }

  /** In a number read from the stream the first bit is the highest. */
  lemma {:induction false} FirstBitHighest(x0: nat, n: nat, maxBits: nat, t: nat, k: nat, i: nat)
    requires n > 0 && maxBits > 0 && i < k
    ensures Bit(StreamValue(x0, n, maxBits, t, k), k - 1 - i) == StreamBit(x0, n, maxBits, t + i)
  {
    var v, last := StreamValue(x0, n, maxBits, t, k - 1), StreamBit(x0, n, maxBits, t + k - 1);
    AppendedBit(v, last, k - 1 - i);
    if i < k - 1 { FirstBitHighest(x0, n, maxBits, t, k - 1, i); }
  }

  /** The same after a Seek that missed the stream. */
  lemma {:induction false} FirstRunBitHighest(c: nat, word: nat, n: nat, maxBits: nat, t: nat, k: nat, i: nat)
    requires n > 0 && maxBits > 0 && word <= t / maxBits && i < k
    ensures word <= (t + i) / maxBits
    ensures Bit(RunValue(c, word, n, maxBits, t, k), k - 1 - i) == RunBit(c, word, n, maxBits, t + i)
  {
    LaterWord(maxBits, t, t + i);
    LaterWord(maxBits, t, t + k - 1);
    var v, last := RunValue(c, word, n, maxBits, t, k - 1), RunBit(c, word, n, maxBits, t + k - 1);
    AppendedBit(v, last, k - 1 - i);
    if i < k - 1 { FirstRunBitHighest(c, word, n, maxBits, t, k - 1, i); }
  }

  lemma {:induction false} AppendedBit(v: nat, last: nat, j: nat)
    requires last <= 1
    ensures Bit(2 * v + last, j) == if j == 0 then last else Bit(v, j - 1)
  {
    if j > 0 { ShrShr(2 * v + last, 1, j - 1); }
  }

  lemma {:induction false} LaterWord(maxBits: nat, t: nat, u: nat)
    requires maxBits > 0 && t <= u
    ensures t / maxBits <= u / maxBits
  {
    var a, b := t / maxBits, u / maxBits;
    assert t == a * maxBits + t % maxBits && u == b * maxBits + u % maxBits;
    if b < a { MulMonotone(maxBits, b + 1, a); MulDistributes(maxBits, b, 1); }
  }

  lemma {:induction false} WordAndOffset(word: nat, maxBits: nat, offset: nat)
    requires offset < maxBits
    ensures word * maxBits + offset >= 0
    ensures (word * maxBits + offset) / maxBits == word && (word * maxBits + offset) % maxBits == offset
  {
    DivModUnique(word * maxBits + offset, maxBits, word, offset);
  }

  lemma {:induction false} MaxBitsPositive(n: nat)
    requires n >= 2
    ensures BitCount(BitCount(n)) >= 2
  {
  }

  /** How many low bits each state contributes: BitPrecision(n.BitCount()) - 1. */
  function MaxBits(n: nat): (b: nat)
    requires n >= 2
    ensures b >= 1
  {
    MaxBitsPositive(n);
    BitCount(BitCount(n)) - 1
  }

  /** MaxBits is the logarithm, rounded down, of the number of bits of the modulus, for every modulus. */
  lemma {:induction false} MaxBitsIsLogarithm(n: nat, bits: nat)
    requires n >= 2 && bits >= 1 && Pow2(bits - 1) <= n < Pow2(bits)
    ensures Pow2(MaxBits(n)) <= bits < Pow2(MaxBits(n) + 1)
    ensures BitCount(n) == bits
  {
    Pow2StrictInverse(bits - 1, BitCount(n));
    Pow2StrictInverse(BitCount(n) - 1, bits);
  }

  class BlumBlumShub {
    const n: nat
    const p: nat
    const q: nat
    const x0: nat
    const maxBits: nat
    var current: nat
    var bitsLeft: nat
    ghost var word: nat        // which state `current` is
    ghost var origin: nat      // the state construction or the last Seek left,
    ghost var originWord: nat  // and its number

    ghost predicate Shape()
      reads this
    {
      && n >= 2 && n == p * q && maxBits >= 1 && p >= 2 && q >= 2 && bitsLeft <= maxBits
      && originWord <= word && current == Squared(origin, n, word - originWord)
    }

    /** The generator is on its stream. */
    ghost predicate Valid()
      reads this
    {
      Shape() && current == State(x0, n, word)
    }

    /** Bits generated before this point. A word boundary has two representations with the same position. */
    ghost function Position(): int
      requires Shape()
      reads this
    {
      word * maxBits + (maxBits - bitsLeft)
    }

    constructor (p: nat, q: nat, seed: nat)
      requires p >= 2 && q >= 2
      ensures Valid() && Position() == 0
      ensures this.p == p && this.q == q && n == p * q && x0 == (seed * seed) % n
      ensures n >= 2 && maxBits == MaxBits(n) && origin == State(x0, n, 0) && originWord == 0
      ensures Pow2(maxBits) <= BitCount(n) < Pow2(maxBits + 1)
      ensures current == (x0 * x0) % n && bitsLeft == maxBits
    {
      var m := p * q;
      assert m >= 2 by { MulMonotone(p, 1, q); }
      var x := (seed * seed) % m;
      this.p, this.q, n, x0 := p, q, m, x;
      maxBits, bitsLeft := MaxBits(m), MaxBits(m);
      current, word := (x * x) % m, 0;
      origin, originWord := (x * x) % m, 0;
      assert Power(x, 2) == x * x by { assert Power(x, 1) == x * 1; }
    }

    method GenerateBit() returns (b: nat)
      requires Shape()
      modifies this
      ensures Shape() && Position() == old(Position()) + 1
      ensures current == if old(bitsLeft) == 0 then (old(current) * old(current)) % n else old(current)
      ensures bitsLeft == (if old(bitsLeft) == 0 then maxBits else old(bitsLeft)) - 1 && b == Bit(current, bitsLeft)
      ensures origin == old(origin) && originWord == old(originWord) <= old(Position()) / maxBits
      ensures b == RunBit(origin, originWord, n, maxBits, old(Position()))
      ensures old(Valid()) ==> Valid() && b == StreamBit(x0, n, maxBits, old(Position()))
    {
      hide State, Bit;
      if bitsLeft == 0 {
        if current == State(x0, n, word) { StateSquares(x0, n, word); }
        current := (current * current) % n;
        word := word + 1;
        bitsLeft := maxBits;
        MulDistributes(maxBits, word, 1);
      }
      WordAndOffset(word, maxBits, maxBits - bitsLeft);
      bitsLeft := bitsLeft - 1;
      b := Bit(current, bitsLeft);
    }

    lemma {:induction false} OnOrAfterOrigin()
      requires Shape()
      ensures Position() >= 0 && originWord <= Position() / maxBits
    {
      if bitsLeft == 0 {
        MulDistributes(maxBits, word, 1);
        WordAndOffset(word + 1, maxBits, 0);
      } else {
        WordAndOffset(word, maxBits, maxBits - bitsLeft);
      }
    }

    method GenerateByte() returns (b: byte)
      requires Shape()
      modifies this
      ensures Shape() && Position() == old(Position()) + 8
      ensures origin == old(origin) && originWord == old(originWord) <= old(Position()) / maxBits
      ensures b == RunValue(origin, originWord, n, maxBits, old(Position()), 8)
      ensures old(Valid()) ==> Valid() && b == StreamValue(x0, n, maxBits, old(Position()), 8)
    {
      hide StreamBit, RunBit, State, Squared;
      var v: nat := 0;
      OnOrAfterOrigin();
      for i := 0 to 8
        invariant Shape() && Position() == old(Position()) + i && v < Pow2(i)
        invariant origin == old(origin) && originWord == old(originWord)
        invariant v == RunValue(origin, originWord, n, maxBits, old(Position()), i)
        invariant old(Valid()) ==> Valid() && v == StreamValue(x0, n, maxBits, old(Position()), i)
      {
        var bit := GenerateBit();
        v := 2 * v + bit;
      }
      assert Pow2(8) == 256 by { assert Pow2(4) == 16; }
      b := v;
    }

    method GenerateBlock(output: array<byte>)
      requires Shape()
      modifies this, output
      ensures Shape() && Position() == old(Position()) + 8 * output.Length
      ensures origin == old(origin) && originWord == old(originWord)
      ensures old(Position()) >= 0 && RunBytes(origin, originWord, n, maxBits, old(Position()), output[..])
      ensures old(Valid()) ==> Valid() && StreamBytes(x0, n, maxBits, old(Position()), output[..])
    {
      hide StreamValue, RunValue, State, Squared;
      OnOrAfterOrigin();
      for i := 0 to output.Length
        invariant Shape() && Position() == old(Position()) + 8 * i
        invariant origin == old(origin) && originWord == old(originWord)
        invariant forall k :: 0 <= k < i ==>
                    originWord <= (old(Position()) + 8 * k) / maxBits
                    && output[k] == RunValue(origin, originWord, n, maxBits, old(Position()) + 8 * k, 8)
        invariant old(Valid()) ==> Valid() && forall k :: 0 <= k < i ==>
                    output[k] == StreamValue(x0, n, maxBits, old(Position()) + 8 * k, 8)
      {
        var b := GenerateByte();
        output[i] := b;
      }
    }

    /** Jumps to byte `index` without generating what comes before: onto the stream if x0 has order dividing
        (p-1)(q-1), and for distinct primes exactly when SeekLands says so. */
    method Seek(index: nat)
      requires Shape()
      modifies this
      ensures Shape() && Position() == 8 * index && origin == current && originWord == 8 * index / maxBits
      ensures (p - 1) * (q - 1) > 0
      ensures Power(x0, (p - 1) * (q - 1)) % n == 1 ==> Valid()
      ensures Prime(p) && Prime(q) && p != q ==> (Valid() <==> SeekLands(p, q, x0, maxBits, index))
      ensures current == Power(x0, Pow2(8 * index / maxBits + 1) % ((p - 1) * (q - 1))) % n
    {
      hide Power, Prime, Squared, SeekLands, Pow2;
      var i := index * 8;
      MulMonotone(p - 1, 1, q - 1);
      var phi := (p - 1) * (q - 1);
      var e := Pow2(i / maxBits + 1) % phi;
      SeekLandsIff(p, q, x0, maxBits, index);
      current := ModularPower(x0, e, n);
      MoveTo(i);
    }

    /** The state just computed is the one of bit i. */
    method MoveTo(i: nat)
      requires n >= 2 && n == p * q && maxBits >= 1 && p >= 2 && q >= 2
      modifies this`word, this`origin, this`originWord, this`bitsLeft
      ensures Shape() && Position() == i && origin == current && originWord == word == i / maxBits
    {
      hide Squared;
      NotSquaredYet(n);
      word := i / maxBits;
      origin, originWord := current, word;
      bitsLeft := maxBits - i % maxBits;
    }
  }

  /** What a caller can check before seeking: no prime factor of the modulus divides x0, or the reduced exponent is not
      zero. */
  ghost predicate SeekLands(p: nat, q: nat, x0: nat, maxBits: nat, index: nat)
    requires p >= 2 && q >= 2 && maxBits >= 1 && (p - 1) * (q - 1) > 0
  {
    (x0 % p != 0 && x0 % q != 0) || Pow2(8 * index / maxBits + 1) % ((p - 1) * (q - 1)) != 0
  }

  lemma {:induction false} SeekLandsIff(p: nat, q: nat, x0: nat, maxBits: nat, index: nat)
    requires p >= 2 && q >= 2 && maxBits >= 1 && p * q >= 2 && (p - 1) * (q - 1) > 0
    ensures var e, phi := Pow2(8 * index / maxBits + 1), (p - 1) * (q - 1);
            && (Power(x0, phi) % (p * q) == 1 ==> Power(x0, e % phi) % (p * q) == Power(x0, e) % (p * q))
            && (Prime(p) && Prime(q) && p != q ==>
                 (Power(x0, e % phi) % (p * q) == Power(x0, e) % (p * q) <==> SeekLands(p, q, x0, maxBits, index)))
  {
    hide Power, Prime;
    var e, phi := Pow2(8 * index / maxBits + 1), (p - 1) * (q - 1);
    if Power(x0, phi) % (p * q) == 1 { ExponentReduces(x0, e, phi, p * q); }
    if Prime(p) && Prime(q) && p != q { ReductionIff(p, q, x0, e); }
  }

  lemma {:induction false} NotSquaredYet(n: nat)
    requires n > 0
    ensures forall c: nat :: Squared(c, n, 0) == c
  {
  }

  // ---- when the bits are right ----

  lemma {:induction false} StateFollows(x0: nat, n: nat, w: nat, d: nat)
    requires n > 0
    ensures Squared(State(x0, n, w), n, d) == State(x0, n, w + d)
  {
    hide State;
    if d > 0 {
      StateFollows(x0, n, w, d - 1);
      StateSquares(x0, n, w + d - 1);
    }
  }

  /** A state that is its own square stays. */
  lemma {:induction false} SquareStays(c: nat, n: nat, d: nat)
    requires n > 0 && (c * c) % n == c
    ensures Squared(c, n, d) == c
  {
    if d > 0 { SquareStays(c, n, d - 1); }
  }

  /** The state Seek computes for byte k. */
  ghost function SoughtState(p: nat, q: nat, x0: nat, maxBits: nat, k: nat): nat
    requires p >= 2 && q >= 2 && maxBits >= 1 && p * q >= 2 && (p - 1) * (q - 1) > 0
  {
    Power(x0, Pow2(8 * k / maxBits + 1) % ((p - 1) * (q - 1))) % (p * q)
  }

  /** What a caller can check before seeking, for the bits: Seek lands, or the state it misses ends in the bits of 1. */
  ghost predicate SeekGivesBits(p: nat, q: nat, x0: nat, maxBits: nat, k: nat)
    requires p >= 2 && q >= 2 && maxBits >= 1 && p * q >= 2 && (p - 1) * (q - 1) > 0
  {
    SeekLands(p, q, x0, maxBits, k) || Low(State(x0, p * q, 8 * k / maxBits), maxBits) == 1
  }

  /** Off the stream both sequences of states stand still: the one sought at 1, the other at an idempotent. */
  lemma {:induction false} StandingStill(p: nat, q: nat, x0: nat, maxBits: nat, k: nat)
    requires Prime(p) && Prime(q) && p != q && maxBits >= 1 && p * q >= 2 && (p - 1) * (q - 1) > 0
    requires !SeekLands(p, q, x0, maxBits, k)
    ensures var c, s := SoughtState(p, q, x0, maxBits, k), State(x0, p * q, 8 * k / maxBits);
            c == 1 && (c * c) % (p * q) == c && (s * s) % (p * q) == s
  {
    hide Prime, Power;
    var w := 8 * k / maxBits;
    DoubledExponent(p, q, x0, Pow2(w + 1));
    assert Pow2(w + 2) == Pow2(w + 1) + Pow2(w + 1);
    StateSquares(x0, p * q, w);
    NoPower(x0);
    DivModUnique(1, p * q, 0, 1);
  }

  /** Bit t of either sequence, with its words written out. */
  lemma {:induction false} BitsAt(p: nat, q: nat, x0: nat, maxBits: nat, k: nat, t: nat)
    requires Prime(p) && Prime(q) && p != q && maxBits >= 1 && p * q >= 2 && (p - 1) * (q - 1) > 0
    requires 8 * k <= t
    ensures 8 * k / maxBits <= t / maxBits
    ensures var n, w := p * q, 8 * k / maxBits;
            var c, bit := SoughtState(p, q, x0, maxBits, k), maxBits - 1 - t % maxBits;
            && (SeekLands(p, q, x0, maxBits, k) ==> RunBit(c, w, n, maxBits, t) == StreamBit(x0, n, maxBits, t))
            && (!SeekLands(p, q, x0, maxBits, k) ==>
                 && RunBit(c, w, n, maxBits, t) == Bit(1, bit)
                 && StreamBit(x0, n, maxBits, t) == Bit(State(x0, n, w), bit))
  {
    hide Prime, Power, State, Bit, SeekLands, Pow2;
    var n, w, c := p * q, 8 * k / maxBits, SoughtState(p, q, x0, maxBits, k);
    LaterWord(maxBits, 8 * k, t);
    var d := t / maxBits - w;
    StateFollows(x0, n, w, d);
    if SeekLands(p, q, x0, maxBits, k) {
      SeekLandsIff(p, q, x0, maxBits, k);
      assert c == State(x0, n, w) by { StateIs(x0, n, w); }
    } else {
      StandingStill(p, q, x0, maxBits, k);
      SquareStays(c, n, d);
      SquareStays(State(x0, n, w), n, d);
    }
  }

  lemma {:induction false} StateIs(x0: nat, n: nat, w: nat)
    requires n > 0
    ensures State(x0, n, w) == Power(x0, Pow2(w + 1)) % n
  {
  }

  /** The len bits from byte k on are those of the stream. */
  ghost predicate SameBits(p: nat, q: nat, x0: nat, maxBits: nat, k: nat, len: nat)
    requires p >= 2 && q >= 2 && maxBits >= 1 && p * q >= 2 && (p - 1) * (q - 1) > 0
  {
    forall t: nat :: 8 * k <= t < 8 * k + len ==>
      && 8 * k / maxBits <= t / maxBits
      && RunBit(SoughtState(p, q, x0, maxBits, k), 8 * k / maxBits, p * q, maxBits, t) == StreamBit(x0, p * q, maxBits, t)
  }

  lemma {:induction false} LowOfOne(k: nat)
    requires k >= 1
    ensures Low(1, k) == 1
  {
    Pow2Monotone(1, k);
    ShrSmall(1, k);
    ShlAdd(0, 0, k);
  }

  /** Off the stream, two words' worth of equal bits show that the state stood still ends in the bits of 1. */
  lemma {:induction false} WholeWordDecides(p: nat, q: nat, x0: nat, maxBits: nat, k: nat, len: nat)
    requires Prime(p) && Prime(q) && p != q && maxBits >= 1 && p * q >= 2 && (p - 1) * (q - 1) > 0
    requires !SeekLands(p, q, x0, maxBits, k) && len >= 2 * maxBits && SameBits(p, q, x0, maxBits, k, len)
    ensures Low(State(x0, p * q, 8 * k / maxBits), maxBits) == 1
  {
    hide Prime, Power, State, Bit, SeekLands, Pow2, RunBit, StreamBit, SoughtState, Low;
    var w := 8 * k / maxBits;
    var s := State(x0, p * q, w);
    assert 8 * k == w * maxBits + 8 * k % maxBits;
    forall i: nat | i < maxBits ensures Bit(s, i) == Bit(1, i) {
      var offset := maxBits - 1 - i;
      var t := (w + 1) * maxBits + offset;
      MulDistributes(maxBits, w, 1);
      WordAndOffset(w + 1, maxBits, offset);
      BitsAt(p, q, x0, maxBits, k, t);
    }
    BitsDecide(s, 1, maxBits);
    LowOfOne(maxBits);
  }

  lemma {:induction false} LowBitsGive(p: nat, q: nat, x0: nat, maxBits: nat, k: nat, t: nat)
    requires Prime(p) && Prime(q) && p != q && maxBits >= 1 && p * q >= 2 && (p - 1) * (q - 1) > 0
    requires SeekGivesBits(p, q, x0, maxBits, k) && 8 * k <= t
    ensures 8 * k / maxBits <= t / maxBits
    ensures RunBit(SoughtState(p, q, x0, maxBits, k), 8 * k / maxBits, p * q, maxBits, t) == StreamBit(x0, p * q, maxBits, t)
  {
    hide Prime, Power, State, Bit, SeekLands, Pow2, RunBit, StreamBit, SoughtState, Low;
    BitsAt(p, q, x0, maxBits, k, t);
    LowOfOne(maxBits);
    BitsDecide(State(x0, p * q, 8 * k / maxBits), 1, maxBits);
  }

  /** Seeking gives the bits of the stream, all of them or those of two words, exactly if it lands or the state missed
      ends in the bits of 1. */
  lemma {:induction false} SeekBitsIff(p: nat, q: nat, x0: nat, maxBits: nat, k: nat, len: nat)
    requires Prime(p) && Prime(q) && p != q && maxBits >= 1 && p * q >= 2 && (p - 1) * (q - 1) > 0
    requires len >= 2 * maxBits
    ensures SameBits(p, q, x0, maxBits, k, len) <==> SeekGivesBits(p, q, x0, maxBits, k)
    ensures (forall more: nat :: SameBits(p, q, x0, maxBits, k, more)) <==> SeekGivesBits(p, q, x0, maxBits, k)
  {
    hide Prime, SeekLands, RunBit, StreamBit, SoughtState, Low, State;
    if SeekGivesBits(p, q, x0, maxBits, k) {
      forall more: nat ensures SameBits(p, q, x0, maxBits, k, more) {
        BitsGiven(p, q, x0, maxBits, k, more);
      }
    } else if SameBits(p, q, x0, maxBits, k, len) {
      WholeWordDecides(p, q, x0, maxBits, k, len);
    }
  }

  lemma {:induction false} BitsGiven(p: nat, q: nat, x0: nat, maxBits: nat, k: nat, len: nat)
    requires Prime(p) && Prime(q) && p != q && maxBits >= 1 && p * q >= 2 && (p - 1) * (q - 1) > 0
    requires SeekGivesBits(p, q, x0, maxBits, k)
    ensures SameBits(p, q, x0, maxBits, k, len)
  {
    hide Prime, RunBit, StreamBit, SoughtState, SeekGivesBits;
    forall t: nat | 8 * k <= t < 8 * k + len
      ensures 8 * k / maxBits <= t / maxBits
      ensures RunBit(SoughtState(p, q, x0, maxBits, k), 8 * k / maxBits, p * q, maxBits, t) == StreamBit(x0, p * q, maxBits, t)
    {
      LowBitsGive(p, q, x0, maxBits, k, t);
    }
  }

  /** modn.Exponentiate by its meaning. */
  method ModularPower(x: nat, e: nat, n: nat) returns (r: nat)
    requires n > 0
    ensures r == Power(x, e) % n
  {
    r := 1 % n;
    var k := 0;
    while k < e
      invariant k <= e && r == Power(x, k) % n
    {
      PowerRemainder(x, k, n);
      r := (x * r) % n;
      k := k + 1;
    }
  }

  lemma {:induction false} ValuesAreBits(c: nat, word: nat, x0: nat, n: nat, maxBits: nat, t: nat, k: nat)
    requires n > 0 && maxBits > 0 && word <= t / maxBits
    ensures RunValue(c, word, n, maxBits, t, k) == StreamValue(x0, n, maxBits, t, k) <==>
      (forall u: nat :: t <= u < t + k ==> word <= u / maxBits && RunBit(c, word, n, maxBits, u) == StreamBit(x0, n, maxBits, u))
  {
    hide Squared, State, Bit;
    if k > 0 {
      LaterWord(maxBits, t, t + k - 1);
      ValuesAreBits(c, word, x0, n, maxBits, t, k - 1);
      BitOrNone(c, word, x0, n, maxBits, t + k - 1);
    }
  }

  lemma {:induction false} BitOrNone(c: nat, word: nat, x0: nat, n: nat, maxBits: nat, t: nat)
    requires n > 0 && maxBits > 0 && word <= t / maxBits
    ensures RunBit(c, word, n, maxBits, t) <= 1 && StreamBit(x0, n, maxBits, t) <= 1
  {
  }

  lemma {:induction false} BytesAreBits(p: nat, q: nat, x0: nat, maxBits: nat, k: nat, sought: seq<byte>,
      sequential: seq<byte>)
    requires p >= 2 && q >= 2 && maxBits >= 1 && p * q >= 2 && (p - 1) * (q - 1) > 0 && |sought| == |sequential|
    requires RunBytes(SoughtState(p, q, x0, maxBits, k), 8 * k / maxBits, p * q, maxBits, 8 * k, sought)
    requires StreamBytes(x0, p * q, maxBits, 8 * k, sequential)
    ensures sought == sequential <==> SameBits(p, q, x0, maxBits, k, 8 * |sought|)
  {
    hide RunValue, StreamValue, RunBit, StreamBit, SoughtState;
    var c, w, n := SoughtState(p, q, x0, maxBits, k), 8 * k / maxBits, p * q;
    forall i | 0 <= i < |sought| ensures sought[i] == sequential[i] <==>
      (forall u: nat :: 8 * k + 8 * i <= u < 8 * k + 8 * i + 8 ==>
        w <= u / maxBits && RunBit(c, w, n, maxBits, u) == StreamBit(x0, n, maxBits, u))
    {
      ValuesAreBits(c, w, x0, n, maxBits, 8 * k + 8 * i, 8);
    }
    if sought == sequential {
      forall t: nat | 8 * k <= t < 8 * k + 8 * |sought|
        ensures w <= t / maxBits && RunBit(c, w, n, maxBits, t) == StreamBit(x0, n, maxBits, t)
      {
        var i := (t - 8 * k) / 8;
        assert sought[i] == sequential[i];
      }
    }
  }

  /** Seeking to byte k and generating size bytes, and generating them after the first k. For distinct primes the bytes
      are the same if SeekGivesBits, and once they cover two words only then; for any p and q they are if x0 has order
      dividing (p-1)(q-1). */
  method SeekAgreesWithGeneration(p: nat, q: nat, seed: nat, k: nat, size: nat) returns (sought: array<byte>,
      sequential: array<byte>)
    requires p >= 2 && q >= 2
    ensures sought.Length == size == sequential.Length && p * q >= 2 && (p - 1) * (q - 1) > 0
    ensures Power((seed * seed) % (p * q), (p - 1) * (q - 1)) % (p * q) == 1 ==> sought[..] == sequential[..]
    ensures Prime(p) && Prime(q) && p != q ==>
      var x0, maxBits := (seed * seed) % (p * q), MaxBits(p * q);
      && (SeekGivesBits(p, q, x0, maxBits, k) ==> sought[..] == sequential[..])
      && (8 * size >= 2 * maxBits ==> (sought[..] == sequential[..] <==> SeekGivesBits(p, q, x0, maxBits, k)))
  {
    hide StreamValue, RunValue, Power, Prime, SeekLands, MaxBits, SeekGivesBits, SameBits, SoughtState, RunBytes,
      Squared, State, Pow2;
    MulMonotone(p, 1, q);
    MulMonotone(p - 1, 1, q - 1);
    ghost var x0, maxBits := (seed * seed) % (p * q), MaxBits(p * q);
    var a := new BlumBlumShub(p, q, seed);
    sought := SeekAndGenerate(a, k, size, SoughtState(p, q, x0, maxBits, k));
    var b := new BlumBlumShub(p, q, seed);
    sequential := SkipAndGenerate(b, k, size);
    if Power(x0, (p - 1) * (q - 1)) % (p * q) == 1 { assert sought[..] == sequential[..]; }
    BytesAreBits(p, q, x0, maxBits, k, sought[..], sequential[..]);
    if Prime(p) && Prime(q) && p != q {
      if SeekGivesBits(p, q, x0, maxBits, k) { BitsGiven(p, q, x0, maxBits, k, 8 * size); }
      if 8 * size >= 2 * maxBits { SeekBitsIff(p, q, x0, maxBits, k, 8 * size); }
    }
  }

  method SeekAndGenerate(a: BlumBlumShub, k: nat, size: nat, ghost c: nat) returns (sought: array<byte>)
    requires a.Shape() && (a.p - 1) * (a.q - 1) > 0 && c == SoughtState(a.p, a.q, a.x0, a.maxBits, k)
    modifies a
    ensures sought.Length == size && RunBytes(c, 8 * k / a.maxBits, a.n, a.maxBits, 8 * k, sought[..])
    ensures Power(a.x0, (a.p - 1) * (a.q - 1)) % a.n == 1 ==> StreamBytes(a.x0, a.n, a.maxBits, 8 * k, sought[..])
  {
    hide RunBytes, StreamBytes, Power, Prime, SeekLands, Squared, State, Pow2;
    a.Seek(k);
    sought := new byte[size];
    a.GenerateBlock(sought);
  }

  method SkipAndGenerate(b: BlumBlumShub, k: nat, size: nat) returns (sequential: array<byte>)
    requires b.Valid() && b.Position() == 0
    modifies b
    ensures sequential.Length == size && StreamBytes(b.x0, b.n, b.maxBits, 8 * k, sequential[..])
  {
    hide RunBytes, StreamBytes, Squared, State, Pow2;
    var skipped := new byte[k];
    b.GenerateBlock(skipped);
    sequential := new byte[size];
    b.GenerateBlock(sequential);
  }

  /** Off the stream: p = 3, q = 5 and seed 3, whose square shares a factor with 15. Byte 1 needs state 4, but the
      reduced exponent is 2^5 mod 8 = 0, and already the first bit differs. */
  method SeekLeavesStream() returns (sought: nat, sequential: nat)
    ensures sought != sequential
    ensures Prime(3) && Prime(5) && !SeekLands(3, 5, 9, 2, 1)
  {
    hide Power, State, MaxBits, Bit, StreamValue, Prime, Pow2;
    NineSquared();
    var a := new BlumBlumShub(3, 5, 3);
    a.Seek(1);
    sought := a.GenerateBit();
    var b := new BlumBlumShub(3, 5, 3);
    var skipped := b.GenerateByte();
    sequential := b.GenerateBit();
  }

  lemma {:induction false} NineSquared()
    ensures (3 * 3) % 15 == 9 && MaxBits(15) == 2 && Pow2(8 * 1 / 2 + 1) % ((3 - 1) * (5 - 1)) == 0
    ensures State(9, 15, 8 / 2) == 6 && Power(9, 0) % 15 == 1 && Bit(1, 1) == 0 && Bit(6, 1) == 1
    ensures Prime(3) && Prime(5)
  {
    hide State, Power, Prime, Bit, Pow2, BitCount;
    StatesOfNine();
    FourBits();
    assert Pow2(5) == 32 by { SmallPower(); }
    assert Power(9, 0) == 1 by { NoPower(9); }
    SmallPrimes();
    SmallBits();
  }

  lemma {:induction false} NoPower(x: nat)
    ensures Power(x, 0) == 1
  {
  }

  lemma {:induction false} SmallPower()
    ensures Pow2(5) == 32
  {
  }

  lemma {:induction false} FourBits()
    ensures MaxBits(15) == 2
  {
  }

  lemma {:induction false} StatesOfNine()
    ensures State(9, 15, 4) == 6
  {
    hide State;
    FirstStateOfNine();
    StateFollows(9, 15, 0, 4);
    SquareStays(6, 15, 4);
  }

  lemma {:induction false} FirstStateOfNine()
    ensures State(9, 15, 0) == 6
  {
    assert Power(9, 1) == 9 && Power(9, 2) == 81;
  }

  lemma {:induction false} SmallPrimes()
    ensures Prime(3) && Prime(5)
  {
  }

  lemma {:induction false} SmallBits()
    ensures Bit(1, 1) == 0 && Bit(6, 1) == 1
  {
  }

  /** The two conditions differ: for p = 17, q = 257, seed 17 and byte 5 Seek misses the state, which is 2057, and gives the
      right bits, because 2057 ends in the three bits of 1. */
  lemma {:induction false} StateMissedBitsKept()
    ensures Prime(17) && Prime(257) && (17 * 17) % (17 * 257) == 289 && MaxBits(17 * 257) == 3
    ensures !SeekLands(17, 257, 289, 3, 5) && SeekGivesBits(17, 257, 289, 3, 5)
  {
    hide Prime, Power, Pow2, BitCount, Low, State;
    Prime17();
    Prime257();
    assert 17 * 257 == 4369;
    BitsOf4369();
    FourteenthPower();
    var e := Pow2(14);
    assert 8 * 5 / 3 + 1 == 14;
    PowerOfMultiple(17, 289, e);
    ReducedModPrime(257, 16, 16 * 256, 289, e);
    NoPower(289);
    assert 16 * 256 == (17 - 1) * (257 - 1);
    ChineseRemainders(17, 257, Power(289, e), 2057);
    StateIs(289, 4369, 13);
    LowOf2057();
  }

  lemma {:induction false} LowOf2057()
    ensures Low(2057, 3) == 1
  {
  }

  lemma {:induction false} FourteenthPower()
    ensures Pow2(14) == 16384
  {
    assert Pow2(5) == 32 && Pow2(10) == 1024;
  }

  lemma {:induction false} BitsOf4369()
    ensures MaxBits(4369) == 3
  {
    hide BitCount;
    assert Pow2(5) == 32 && Pow2(8) == 256 && Pow2(11) == 2048;
    BitCountIs(4369, 13);
    BitCountIs(13, 4);
  }

  lemma {:induction false} BitCountIs(v: nat, n: nat)
    requires n > 0 && Pow2(n - 1) <= v < Pow2(n)
    ensures BitCount(v) == n
  {
    hide Pow2, BitCount;
    if BitCount(v) < n {
      Pow2Monotone(BitCount(v), n - 1);
    } else if BitCount(v) > n {
      Pow2Monotone(n, BitCount(v) - 1);
    }
  }

  lemma {:induction false} Prime17()
    ensures Prime(17)
  {
  }

  lemma {:induction false} Prime257()
    ensures Prime(257)
  {
    forall d: nat | 1 < d < 257 ensures 257 % d != 0 {
      var k := 257 / d;
      assert 257 == d * k + 257 % d;
      if d <= 16 { NotDivided(d, k); } else { FewTimes(d, k); }
    }
  }

  lemma {:induction false} NotDivided(d: nat, k: nat)
    requires 2 <= d <= 16
    ensures d * k != 257
  {
    if d <= 8 {
      if d == 2 { } else if d == 3 { } else if d == 4 { } else if d == 5 { } else if d == 6 { } else if d == 7 { }
    } else if d <= 12 {
      if d == 9 { } else if d == 10 { } else if d == 11 { }
    } else if d == 13 { } else if d == 14 { } else if d == 15 { }
  }

  lemma {:induction false} FewTimes(d: nat, k: nat)
    requires 16 < d < 257
    ensures d * k != 257
  {
    if k >= 17 {
      MulMonotone(d, 17, k);
    } else if k >= 2 {
      NotDivided(k, d);
    }
  }
}
