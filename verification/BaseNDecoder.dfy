/** BaseN_Decoder and its lookup table (basecode.cpp): characters back to bytes, in place in one output block.
    The block is described by the predicates of the encoder, with groups of eight bits. */
module BaseNDecoding {
  import opened Arithmetic
  import opened BaseNSpec
  import opened BaseNEncoding

  function ByteBlock(b: nat): (n: nat)
    requires 1 <= b <= 7
    ensures n > 0
  {
    if b == 1 || b == 2 || b == 4 then 1 else if b == 3 || b == 6 then 3 else b
  }

  lemma {:induction false} LeastByteBlock(b: nat)
    requires 1 <= b <= 7
    ensures (8 * ByteBlock(b)) % b == 0
    ensures forall k :: 0 < k < ByteBlock(b) ==> (8 * k) % b != 0
  {
  }

  /** The bits taken are those of whole characters. */
  predicate WholeUnits(bits: nat, b: nat)
    requires b > 0
  {
    bits % b == 0
  }

  lemma {:induction false} BlockOfUnits(b: nat, n: nat)
    requires 1 <= b <= 7 && n == ByteBlock(b)
    ensures WholeUnits(8 * n, b)
  {
  }

  lemma {:induction false} NoUnits(b: nat)
    requires b > 0
    ensures WholeUnits(0, b)
  {
  }

  lemma {:induction false} FirstWhole(b: nat, i: nat)
    requires 1 <= b <= 7 && i % b == 0 && b <= i <= 8 * b && i % 8 == 0
    requires forall k :: b <= k < i && k % b == 0 ==> k % 8 != 0
    ensures i / 8 == ByteBlock(b)
  {
    LeastByteBlock(b);
    assert (8 * ByteBlock(b)) % 8 == 0;
    if b == 1 { } else if b == 2 { } else if b == 3 { } else if b == 4 { } else if b == 5 { } else if b == 6 { } else { }
  }

  /** A position on a character boundary inside the block leaves room for a whole character. */
  lemma {:induction false} RoomForUnit(b: nat, position: nat, end: nat)
    requires b > 0 && WholeUnits(position, b) && WholeUnits(end, b) && position < end
    ensures position + b <= end && WholeUnits(position + b, b)
  {
    var p, e := position / b, end / b;
    assert position == b * p && end == b * e;
    if e <= p { MulMonotone(b, e, p); }
    MulMonotone(b, p + 1, e);
    MulDistributes(b, p, 1);
    ModShift(position, 1, b);
  }

  /** The character fits in the open byte with room to spare. */
  lemma {:induction false} FitEffect(emitted: seq<nat>, block: seq<byte>, bytePos: nat, bitPos: nat, open: nat,
      b: nat, value: nat)
    returns (block': seq<byte>, open': nat)
    requires 1 <= b <= 7 && value < Pow2(b) && Holds(block, bytePos, bitPos, open, 8) && bytePos < |block| && bitPos + b < 8
    ensures 0 <= Shl(value, 8 - (bitPos + b)) < 256
    ensures block' == block[bytePos := Or(block[bytePos], Shl(value, 8 - (bitPos + b)))]
    ensures Holds(block', bytePos, bitPos + b, open', 8)
    ensures Taken(emitted, block', bytePos, bitPos + b, open', 8)
      == Taken(emitted, block, bytePos, bitPos, open, 8) + BitsOf(value, b)
  {
    hide Shl, Shr, Pow2, BitsOf, Pack, OrBits;
    var t := 8 - bitPos;
    var cur := AtTheTop(value, b);
    open' := OpenMore(8, bitPos, open, cur, value, b, t);
    var sum := Shl(open, t) + Shl(value, t - b);
    ByteBound(8, sum);
    ByteBound(t, Shl(value, t - b));
    OrShifted(open, Shl(value, t - b), t, 8);
    block' := block[bytePos := sum];
    Widened(block, block', bytePos, bitPos, bitPos + b, open, open', 8, sum);
    var before := Pack(emitted + block[..bytePos], 8);
    assert before + (BitsOf(open, bitPos) + BitsOf(value, b)) == before + BitsOf(open, bitPos) + BitsOf(value, b);
  }

  lemma {:induction false} AtTheTop(value: nat, b: nat) returns (cur: byte)
    requires 1 <= b <= 7 && value < Pow2(b)
    ensures cur == Shl(value, 8 - b)
  {
    hide Shl, Pow2;
    JoinedFits(value, b, 0, 8 - b);
    PositivePow2(8 - b);
    ShlGrows(value, 8 - b);
    ByteBound(8, Shl(value, 8 - b));
    cur := Shl(value, 8 - b);
  }

  /** The character completes the open byte; lo, of rest bits, is what is left of it. */
  lemma {:induction false} CompleteEffect(emitted: seq<nat>, block: seq<byte>, bytePos: nat, bitPos: nat, open: nat,
      b: nat, value: nat)
    returns (block': seq<byte>, lo: nat)
    requires 1 <= b <= 7 && value < Pow2(b) && Holds(block, bytePos, bitPos, open, 8) && bytePos < |block|
    requires bitPos < 8 <= bitPos + b
    ensures var rest := bitPos + b - 8;
            && Shr(value, rest) < 256 && block' == block[bytePos := Or(block[bytePos], Shr(value, rest))]
            && lo < Pow2(rest) && 0 <= Shl(value, 8 - rest) && Low(Shl(value, 8 - rest), 8) == Shl(lo, 8 - rest)
            && Holds(block', bytePos + 1, 0, 0, 8)
            && Taken(emitted, block', bytePos + 1, 0, 0, 8) + BitsOf(lo, rest)
               == Taken(emitted, block, bytePos, bitPos, open, 8) + BitsOf(value, b)
  {
    hide Shl, Shr, Pow2, BitsOf, Pack, Low, OrBits;
    var t, rest := 8 - bitPos, bitPos + b - 8;
    var cur := AtTheTop(value, b);
    var hi;
    hi, lo := FillGroup(8, bitPos, open, cur, value, b, t);
    ShrShl(value, 8 - b, 8 - t);
    ShlShl(value, 8 - b, t);
    ShlGrows(value, 8 - rest);
    TopOrLess(value, 8 - b, 8 - t, rest);
    var sum := Shl(open, t) + hi;
    ByteBound(8, sum);
    ByteBound(t, hi);
    OrShifted(open, hi, t, 8);
    block' := block[bytePos := sum];
    Closed(emitted, block, block', bytePos, bitPos, open, 8, sum);
    var before := Pack(emitted + block[..bytePos], 8);
    assert before + (BitsOf(open, bitPos) + BitsOf(hi, t)) + BitsOf(lo, rest)
      == before + BitsOf(open, bitPos) + (BitsOf(hi, t) + BitsOf(lo, rest));
  }

  lemma {:induction false} TopOrLess(value: nat, a: nat, c: nat, rest: nat)
    requires a + rest == c
    ensures 0 <= Shl(value, a) && Shr(Shl(value, a), c) == Shr(value, rest)
  {
    ShrShl(value, a, c);
    if rest == 0 { ShiftByZero(value); }
  }

  /** The rest of a character opens the next byte. */
  lemma {:induction false} RestEffect(emitted: seq<nat>, block: seq<byte>, bytePos: nat, rest: nat, lo: nat, value: byte)
    returns (block': seq<byte>)
    requires Holds(block, bytePos, 0, 0, 8) && bytePos < |block| && rest < 8 && lo < Pow2(rest) && value == Shl(lo, 8 - rest)
    ensures block' == block[bytePos := Or(block[bytePos], value)]
    ensures Holds(block', bytePos, rest, lo, 8)
    ensures Taken(emitted, block', bytePos, rest, lo, 8) == Taken(emitted, block, bytePos, 0, 0, 8) + BitsOf(lo, rest)
  {
    hide Shl, Pow2, BitsOf, Pack, OrBits;
    NothingOpen(8);
    PowersOfTwo();
    OrShifted(0, value, 8, 8);
    block' := block[bytePos := value];
    Widened(block, block', bytePos, 0, rest, 0, lo, 8, value);
    var before := Pack(emitted + block[..bytePos], 8);
    assert before + [] == before;
  }

  class Decoder {
    const lookup: Lookup
    const bitsPerChar: nat
    const outputBlockSize: nat
    const outBuf: array<byte>
    var bytePos: nat
    var bitPos: nat
    var output: seq<byte>          // what the attached filter has received
    ghost var base: seq<byte>      // output before the current message
    ghost var fed: seq<byte>       // the current message so far
    ghost var emitted: seq<byte>   // bytes of it already written out
    ghost var open: nat            // the bits of the open byte

    ghost predicate Configured() {
      && 1 <= bitsPerChar <= 7 && outputBlockSize == ByteBlock(bitsPerChar) == outBuf.Length
      && LookupFor(lookup, bitsPerChar)
    }

    ghost predicate Valid()
      reads this, outBuf
    {
      && Configured()
      && bytePos < outputBlockSize && bitPos < 8 && open < Pow2(bitPos)
      && output == base + emitted
      && WholeUnits(8 * bytePos + bitPos, bitsPerChar)
      && (bytePos != 0 || bitPos != 0 ==> Holds(outBuf[..], bytePos, bitPos, open, 8))
      && Taken(emitted, outBuf[..], bytePos, bitPos, open, 8) == Pack(Units(lookup, bitsPerChar, fed), bitsPerChar)
    }

    constructor (lookup: Lookup, log2base: nat)
      requires 1 <= log2base <= 7 && LookupFor(lookup, log2base)
      ensures Valid() && fresh(outBuf)
      ensures this.lookup == lookup && bitsPerChar == log2base
      ensures output == [] && base == [] && fed == []
    {
      this.lookup, bitsPerChar := lookup, log2base;
      var n := ComputeBlockSize(log2base);
      outputBlockSize := n;
      outBuf := new byte[n](_ => 0);
      bytePos, bitPos, output := 0, 0, [];
      base, fed, emitted, open := [], [], [], 0;
    }

    /** The loop of IsolatedInitialize: the least whole number of characters that is also whole bytes. */
    static method ComputeBlockSize(b: nat) returns (n: nat)
      requires 1 <= b <= 7
      ensures n == ByteBlock(b) && n > 0 && (8 * n) % b == 0
      ensures forall k :: 0 < k < n ==> (8 * k) % b != 0
    {
      var i := b;
      ModOfMultiple(1, b);
      while i % 8 != 0
        invariant i % b == 0 && b <= i <= 8 * b
        invariant forall k :: b <= k < i && k % b == 0 ==> k % 8 != 0
        decreases 8 * b - i
      {
        NextMultiple(b, i);
        i := i + b;
      }
      n := i / 8;
      FirstWhole(b, i);
      LeastByteBlock(b);
    }

    /** memset(m_outBuf, 0, m_outputBlockSize). */
    method ClearBlock()
      requires Configured()
      modifies outBuf
      ensures forall k :: 0 <= k < outputBlockSize ==> outBuf[k] == 0
    {
      for i := 0 to outputBlockSize
        invariant forall k :: 0 <= k < i ==> outBuf[k] == 0
      {
        outBuf[i] := 0;
      }
    }

    /** The bits of one character are written to the block, over a byte boundary or not. */
    method PlaceValue(value: nat, newBitPos: nat)
      requires Configured() && bytePos < outputBlockSize && bitPos < 8 && value < Pow2(bitsPerChar)
      requires Holds(outBuf[..], bytePos, bitPos, open, 8) && newBitPos == bitPos + bitsPerChar
      requires 8 * bytePos + newBitPos <= 8 * outputBlockSize
      modifies this`open, outBuf
      ensures Holds(outBuf[..], bytePos + newBitPos / 8, newBitPos % 8, open, 8)
      ensures Taken(emitted, outBuf[..], bytePos + newBitPos / 8, newBitPos % 8, open, 8)
        == old(Taken(emitted, outBuf[..], bytePos, bitPos, open, 8)) + BitsOf(value, bitsPerChar)
    {
      hide Shl, Shr, Pow2, BitsOf, Pack, Holds, Taken, Low, Or, OrBits, ByteBlock;
      ghost var block := outBuf[..];
      if newBitPos <= 8 {
        if newBitPos < 8 {
          block, open := FitEffect(emitted, block, bytePos, bitPos, open, bitsPerChar, value);
        } else {
          block, open := CompleteEffect(emitted, block, bytePos, bitPos, open, bitsPerChar, value);
          ShiftByZero(value);
          NoBits(open, Taken(emitted, block, bytePos + 1, 0, 0, 8));
          open := 0;
        }
        outBuf[bytePos] := Or(outBuf[bytePos], Shl(value, 8 - newBitPos));
      } else {
        block, open := CompleteEffect(emitted, block, bytePos, bitPos, open, bitsPerChar, value);
        outBuf[bytePos] := Or(outBuf[bytePos], Shr(value, newBitPos - 8));
        assert outBuf[..] == block;
        ByteOf(Shl(value, 16 - newBitPos));
        block := RestEffect(emitted, block, bytePos + 1, newBitPos - 8, open, Low(Shl(value, 16 - newBitPos), 8));
        outBuf[bytePos + 1] := Or(outBuf[bytePos + 1], Low(Shl(value, 16 - newBitPos), 8));
      }
      assert outBuf[..] == block;
    }

    /** One character's bits go into the block and the position moves past them. */
    method PutValue(value: nat)
      requires Configured() && bytePos < outputBlockSize && bitPos < 8 && value < Pow2(bitsPerChar)
      requires Holds(outBuf[..], bytePos, bitPos, open, 8)
      requires WholeUnits(8 * bytePos + bitPos, bitsPerChar)
      modifies this`bytePos, this`bitPos, this`open, outBuf
      ensures bytePos <= outputBlockSize && bitPos < 8 && open < Pow2(bitPos)
      ensures Holds(outBuf[..], bytePos, bitPos, open, 8)
      ensures WholeUnits(8 * bytePos + bitPos, bitsPerChar)
      ensures Taken(emitted, outBuf[..], bytePos, bitPos, open, 8)
        == old(Taken(emitted, outBuf[..], bytePos, bitPos, open, 8)) + BitsOf(value, bitsPerChar)
      ensures bytePos == outputBlockSize ==> bitPos == 0
    {
      hide Pow2, BitsOf, Pack, Holds, Taken, ByteBlock, WholeUnits;
      BlockOfUnits(bitsPerChar, outputBlockSize);
      RoomForUnit(bitsPerChar, 8 * bytePos + bitPos, 8 * outputBlockSize);
      var newBitPos := bitPos + bitsPerChar;
      PlaceValue(value, newBitPos);
      MovePast(newBitPos);
      OpenFits(outBuf[..], bytePos, bitPos, open, 8);
    }

    method MovePast(newBitPos: nat)
      modifies this`bytePos, this`bitPos
      ensures bytePos == old(bytePos) + newBitPos / 8 && bitPos == newBitPos % 8
    {
      bitPos := newBitPos;
      while bitPos >= 8
        invariant 8 * bytePos + bitPos == 8 * old(bytePos) + newBitPos
        decreases bitPos
      {
        bitPos := bitPos - 8;
        bytePos := bytePos + 1;
      }
    }

    /** One turn of the input loop. */
    method PutCharacter(c: byte)
      requires Valid()
      modifies this`bytePos, this`bitPos, this`open, this`output, this`fed, this`emitted, outBuf
      ensures Valid() && fed == old(fed) + [c]
    {
      hide Pow2, BitsOf, Pack, Holds, ByteBlock, Units, WholeUnits;
      UnitsAppend(lookup, bitsPerChar, fed, c);
      fed := fed + [c];
      if lookup[c] < 0 {
        return;
      }
      if bytePos == 0 && bitPos == 0 {
        ClearBlock();
        Emptied(outBuf[..], open, 8);
        assert outBuf[..0] == old(outBuf[..0]);
      }
      PutValue(lookup[c]);
      if bytePos == outputBlockSize {
        PowersOfTwo();
        FullBlock(emitted, outBuf[..], bitPos, open, 8, 256);
        output := output + outBuf[..outputBlockSize];
        emitted := emitted + outBuf[..];
        bytePos, bitPos := 0, 0;
        assert emitted + outBuf[..0] == emitted;
        NoUnits(bitsPerChar);
      }
    }

    /** Put2 on a chunk: the message grows by it, whatever the earlier chunks were. */
    method Put(begin: seq<byte>)
      requires Valid()
      modifies this`bytePos, this`bitPos, this`open, this`output, this`fed, this`emitted, outBuf
      ensures Valid() && fed == old(fed) + begin
    {
      hide Valid();
      var inputPosition: nat := 0;
      while inputPosition < |begin|
        invariant inputPosition <= |begin| && Valid() && fed == old(fed) + begin[..inputPosition]
      {
        PutCharacter(begin[inputPosition]);
        assert begin[..inputPosition + 1] == begin[..inputPosition] + [begin[inputPosition]];
        inputPosition := inputPosition + 1;
      }
      assert begin[..|begin|] == begin;
    }

    /** The messageEnd branch of Put2: the attached filter has received the decoding of the whole message. */
    method FinishMessage()
      requires Valid()
      modifies this`bytePos, this`bitPos, this`open, this`output, this`base, this`fed, this`emitted
      ensures Valid() && fed == [] && base == output
      ensures output == old(base) + Decoded(lookup, bitsPerChar, old(fed))
    {
      hide Pow2, BitsOf, Pack, Holds, ByteBlock, Units, Decoded, WholeUnits;
      DecodedInParts(lookup, bitsPerChar, fed, emitted + outBuf[..bytePos], BitsOf(open, bitPos));
      OutputJoined(base, emitted, outBuf[..bytePos]);
      output := output + outBuf[..bytePos];
      bytePos, bitPos := 0, 0;
      base, fed, emitted, open := output, [], [], 0;
      NothingDecoded(lookup, bitsPerChar, outBuf[..]);
      NoUnits(bitsPerChar);
    }

    /** Put2: a chunk of the message, the last one if messageEnd. The result depends on the message, not on the chunks. */
    method Put2(begin: seq<byte>, messageEnd: bool)
      requires Valid()
      modifies this`bytePos, this`bitPos, this`open, this`output, this`base, this`fed, this`emitted, outBuf
      ensures Valid()
      ensures !messageEnd ==> fed == old(fed) + begin && base == old(base)
      ensures messageEnd ==> fed == [] && base == output
      ensures messageEnd ==> output == old(base) + Decoded(lookup, bitsPerChar, old(fed) + begin)
    {
      hide Valid();
      Put(begin);
      if messageEnd {
        FinishMessage();
      }
    }
  }

  lemma {:induction false} NextMultiple(b: nat, i: nat)
    requires 1 <= b <= 7 && i % b == 0 && b <= i <= 8 * b && i % 8 != 0
    ensures (i + b) % b == 0 && i + b <= 8 * b
    ensures forall k :: i < k < i + b ==> k % b != 0
  {
    var n := i / b;
    assert i == n * b;
    DivModUnique(i + b, b, n + 1, 0);
    if n >= 8 { MulMonotone(b, 8, n); }
    MulMonotone(b, n + 1, 8);
    forall k | i < k < i + b ensures k % b != 0 {
      DivModUnique(k, b, n, k - i);
    }
  }

  lemma {:induction false} ByteOf(v: nat)
    ensures 0 <= Low(v, 8) < 256
  {
    LowRange(v, 8);
    PowersOfTwo();
  }

  lemma {:induction false} DecodedInParts(lookup: Lookup, b: nat, s: seq<byte>, m: seq<byte>, tail: seq<bool>)
    requires LookupFor(lookup, b) && |tail| < 8 && Pack(Units(lookup, b, s), b) == Pack(m, 8) + tail
    ensures Decoded(lookup, b, s) == m
  {
    hide Pack, Units, FullBytes;
    FullBytesOfPack(m, tail);
  }

  lemma {:induction false} UnitsAppend(lookup: Lookup, b: nat, s: seq<byte>, c: byte)
    requires LookupFor(lookup, b)
    ensures lookup[c] < 0 ==> Units(lookup, b, s + [c]) == Units(lookup, b, s)
    ensures lookup[c] < Pow2(b)
    ensures lookup[c] >= 0 ==> Pack(Units(lookup, b, s + [c]), b) == Pack(Units(lookup, b, s), b) + BitsOf(lookup[c], b)
  {
  }

  lemma {:induction false} NothingDecoded(lookup: Lookup, b: nat, block: seq<byte>)
    requires LookupFor(lookup, b)
    ensures 0 < Pow2(0) && Taken([], block, 0, 0, 0, 8) == Pack(Units(lookup, b, []), b)
  {
  }

  // ---- the lookup table ----

  predicate IsAlpha(c: byte) {
    65 <= c <= 90 || 97 <= c <= 122
  }

  function ToUpper(c: byte): byte {
    if 97 <= c <= 122 then c - 32 else c
  }

  function ToLower(c: byte): byte {
    if 65 <= c <= 90 then c + 32 else c
  }

  /** Whether letter a of the alphabet claims character c. */
  predicate Claims(a: byte, c: byte, caseInsensitive: bool) {
    if caseInsensitive && IsAlpha(a) then c == ToUpper(a) || c == ToLower(a) else c == a
  }

  /** A letter claims itself and, if case does not matter, its other case, 32 apart; anything else only itself. */
  lemma {:induction false} ClaimsMeans(a: byte, c: byte, caseInsensitive: bool)
    ensures Claims(a, c, caseInsensitive) <==>
      || c == a
      || (caseInsensitive && 'A' as int <= a <= 'Z' as int && c == a + 32)
      || (caseInsensitive && 'a' as int <= a <= 'z' as int && c == a - 32)
  {
  }

  /** Without regard to case both forms of a letter have the same value. */
  lemma {:induction false} CasesAgree(alphabet: seq<byte>, n: nat, c: byte)
    requires n <= |alphabet| && 'A' as int <= c <= 'Z' as int
    ensures LastClaim(alphabet, n, true, c) == LastClaim(alphabet, n, true, c + 32)
  {
    if n > 0 { CasesAgree(alphabet, n - 1, c); }
  }

  /** The last of the first n letters that claims c, -1 if none does. */
  function LastClaim(alphabet: seq<byte>, n: nat, caseInsensitive: bool, c: byte): (i: int)
    requires n <= |alphabet|
    ensures -1 <= i < n
    ensures i >= 0 ==> Claims(alphabet[i], c, caseInsensitive)
    ensures forall k :: i < k < n ==> !Claims(alphabet[k], c, caseInsensitive)
  {
    if n == 0 then -1
    else if Claims(alphabet[n - 1], c, caseInsensitive) then n - 1
    else LastClaim(alphabet, n - 1, caseInsensitive, c)
  }

  method InitializeDecodingLookupArray(lookup: array<int>, alphabet: seq<byte>, base: nat, caseInsensitive: bool)
    requires lookup.Length == 256 && base <= |alphabet|
    modifies lookup
    ensures forall c :: 0 <= c < 256 ==> lookup[c] == LastClaim(alphabet, base, caseInsensitive, c)
    ensures caseInsensitive ==> forall c :: 'A' as int <= c <= 'Z' as int ==> lookup[c] == lookup[c + 32]
  {
    forall c: byte | 'A' as int <= c <= 'Z' as int
      ensures LastClaim(alphabet, base, true, c) == LastClaim(alphabet, base, true, c + 32)
    {
      CasesAgree(alphabet, base, c);
    }
    for i := 0 to 256
      invariant forall c :: 0 <= c < i ==> lookup[c] == -1
    {
      lookup[i] := -1;
    }
    for i := 0 to base
      invariant forall c :: 0 <= c < 256 ==> lookup[c] == LastClaim(alphabet, i, caseInsensitive, c)
    {
      if caseInsensitive && IsAlpha(alphabet[i]) {
        lookup[ToUpper(alphabet[i])] := i;
        lookup[ToLower(alphabet[i])] := i;
      } else {
        lookup[alphabet[i]] := i;
      }
    }
  }

  /** No character is claimed by two letters. */
  ghost predicate Distinct(alphabet: seq<byte>, base: nat, caseInsensitive: bool)
    requires base <= |alphabet|
  {
    forall i, j, c: byte :: 0 <= i < j < base ==> !(Claims(alphabet[i], c, caseInsensitive) && Claims(alphabet[j], c, caseInsensitive))
  }

  ghost predicate DecodesOwnIndex(alphabet: seq<byte>, base: nat, caseInsensitive: bool)
    requires base <= |alphabet|
  {
    forall i, c: byte :: 0 <= i < base && Claims(alphabet[i], c, caseInsensitive) ==> LastClaim(alphabet, base, caseInsensitive, c) == i
  }

  /** Every letter decodes to its own index exactly when no two letters claim the same character. */
  lemma {:induction false} LookupInvertsAlphabetIff(alphabet: seq<byte>, base: nat, caseInsensitive: bool)
    requires base <= |alphabet|
    ensures Distinct(alphabet, base, caseInsensitive) <==> DecodesOwnIndex(alphabet, base, caseInsensitive)
  {
    hide LastClaim, Claims;
    if Distinct(alphabet, base, caseInsensitive) {
      forall i, c: byte | 0 <= i < base && Claims(alphabet[i], c, caseInsensitive)
        ensures LastClaim(alphabet, base, caseInsensitive, c) == i
      {
        var j := LastClaim(alphabet, base, caseInsensitive, c);
        assert i <= j;
      }
    }
    if DecodesOwnIndex(alphabet, base, caseInsensitive) {
      forall i, j, c: byte | 0 <= i < j < base
        ensures !(Claims(alphabet[i], c, caseInsensitive) && Claims(alphabet[j], c, caseInsensitive))
      {
        var last := LastClaim(alphabet, base, caseInsensitive, c);
      }
    }
  }

  ghost predicate Outside(alphabet: seq<byte>, base: nat, caseInsensitive: bool, s: seq<byte>)
    requires base <= |alphabet|
  {
    forall i, k :: 0 <= i < base && 0 <= k < |s| ==> !Claims(alphabet[i], s[k], caseInsensitive)
  }

  /** The round trip with the table InitializeDecodingLookupArray builds. */
  lemma {:induction false} RoundTripWithTable(lookup: Lookup, alphabet: seq<byte>, b: nat, caseInsensitive: bool,
      padding: int,
      groupSize: nat, separator: seq<byte>, terminator: seq<byte>, m: seq<byte>)
    requires 1 <= b <= 7 && |alphabet| >= Pow2(b) && -1 <= padding < 256
    requires forall c :: 0 <= c < 256 ==> lookup[c] == LastClaim(alphabet, Pow2(b), caseInsensitive, c)
    requires Distinct(alphabet, Pow2(b), caseInsensitive)
    requires Outside(alphabet, Pow2(b), caseInsensitive, separator)
    requires Outside(alphabet, Pow2(b), caseInsensitive, terminator)
    requires padding >= 0 ==> Outside(alphabet, Pow2(b), caseInsensitive, [padding])
    ensures LookupFor(lookup, b)
    ensures Decoded(lookup, b, Separated(groupSize, separator, Encoded(alphabet, b, padding, m)) + terminator) == m
  {
    hide Pow2, Distinct, LastClaim, Decoded, Encoded, Separated;
    var base := Pow2(b);
    LookupInvertsAlphabetIff(alphabet, base, caseInsensitive);
    forall i | 0 <= i < base ensures lookup[alphabet[i]] == i {
      assert Claims(alphabet[i], alphabet[i], caseInsensitive);
      var c := alphabet[i];
      assert lookup[c] == LastClaim(alphabet, base, caseInsensitive, c);
    }
    OutsideIsIgnored(lookup, alphabet, base, caseInsensitive, separator);
    OutsideIsIgnored(lookup, alphabet, base, caseInsensitive, terminator);
    if padding >= 0 {
      OutsideIsIgnored(lookup, alphabet, base, caseInsensitive, [padding]);
      assert lookup[[padding][0]] < 0;
    }
    RoundTrip(lookup, alphabet, b, padding, groupSize, separator, terminator, m);
  }

  lemma {:induction false} OutsideIsIgnored(lookup: Lookup, alphabet: seq<byte>, base: nat, caseInsensitive: bool,
      s: seq<byte>)
    requires base <= |alphabet| && Outside(alphabet, base, caseInsensitive, s)
    requires forall c :: 0 <= c < 256 ==> lookup[c] == LastClaim(alphabet, base, caseInsensitive, c)
    ensures Ignored(lookup, s)
  {
  }
}
