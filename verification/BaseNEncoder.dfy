/** BaseN_Encoder (basecode.cpp): bit packing in place in one output block. */
module BaseNEncoding {
  import opened Arithmetic
  import opened BaseNSpec

  /** A full target group: t more bits are wanted and the source still has s >= t of them. r is what the source
      holds, left-justified in cur. */
  lemma {:induction false} FillGroup(b: nat, bitPos: nat, open: nat, cur: byte, r: nat, s: nat,
      t: nat) returns (hi: nat, lo: nat)
    requires b <= 8 && bitPos + t == b && t <= s <= 8 && 0 < t
    requires open < Pow2(bitPos) && r < Pow2(s) && cur == Shl(r, 8 - s)
    ensures hi == Shr(cur, 8 - t) < Pow2(t) && lo < Pow2(s - t)
    ensures 0 <= Shl(open, t) && Shl(open, t) + hi < Pow2(b)
    ensures BitsOf(Shl(open, t) + hi, b) == BitsOf(open, bitPos) + BitsOf(hi, t)
    ensures BitsOf(r, s) == BitsOf(hi, t) + BitsOf(lo, s - t)
    ensures 0 <= Shl(cur, t) && Low(Shl(cur, t), 8) == Shl(lo, 8 - (s - t))
  {
    hide Pow2, Shl, Shr, BitsOf;
    LowRange(r, s - t);
    ShiftByZero(r);
    hi, lo := Shr(r, s - t), Low(r, s - t);
    ShrShl(r, 8 - s, 8 - t);
    HighBits(r, s, t);
    BitsOfJoined(open, bitPos, hi, t);
    BitsOfJoined(hi, t, lo, s - t);
    JoinedFits(open, bitPos, hi, t);
    ShiftedOut(r, hi, lo, s, t);
    ShlShl(r, 8 - s, t);
    ShlGrows(open, t);
    ShlGrows(cur, t);
  }

  lemma {:induction false} HighBits(r: nat, s: nat, t: nat)
    requires t <= s && r < Pow2(s)
    ensures Shr(r, s - t) < Pow2(t)
  {
    ShrShr(r, s - t, t);
    ShrSmall(r, s);
    LowRange(Shr(r, s - t), t);
    ShlOne(t);
  }

  lemma {:induction false} JoinedFits(u: nat, k: nat, w: nat, t: nat)
    requires u < Pow2(k) && w < Pow2(t)
    ensures Shl(u, t) + w < Pow2(k + t)
  {
    ShlMonotone(u + 1, Pow2(k), t);
    ShlAdd(u, 1, t);
    ShlOne(t);
    ShlOne(k);
    ShlShl(1, k, t);
    ShlOne(k + t);
  }

  /** Shifting the used bits out of the byte leaves the unused ones at the top. */
  lemma {:induction false} ShiftedOut(r: nat, hi: nat, lo: nat, s: nat, t: nat)
    requires t <= s <= 8 && r == Shl(hi, s - t) + lo && lo < Pow2(s - t)
    ensures 0 <= Shl(r, 8 - s + t) && Low(Shl(r, 8 - s + t), 8) == Shl(lo, 8 - (s - t))
  {
    hide Pow2, Shl, Shr;
    var k := 8 - s + t;
    ShlAdd(Shl(hi, s - t), lo, k);
    ShlShl(hi, s - t, k);
    ShlGrows(lo, k);
    ShlGrows(r, k);
    JoinedFits(lo, s - t, 0, k);
    PositivePow2(k);
    ShrOfSum(hi, Shl(lo, k), 8);
    ShrSmall(Shl(lo, k), 8);
  }

  lemma {:induction false} PositivePow2(k: nat)
    ensures 0 < Pow2(k)
  {
  }

  /** The source runs out first: its s < t bits join the open group. */
  lemma {:induction false} OpenMore(b: nat, bitPos: nat, open: nat, cur: byte, r: nat, s: nat,
      t: nat) returns (open': nat)
    requires b <= 8 && bitPos + t == b && s < t
    requires open < Pow2(bitPos) && r < Pow2(s) && cur == Shl(r, 8 - s)
    ensures Shr(cur, 8 - t) == Shl(r, t - s) < Pow2(t) && 0 <= Shl(r, t - s)
    ensures 0 <= Shl(open, t) && Shl(open, t) + Shl(r, t - s) == Shl(open', t - s) < Pow2(b)
    ensures open' < Pow2(bitPos + s)
    ensures BitsOf(open', bitPos + s) == BitsOf(open, bitPos) + BitsOf(r, s)
  {
    hide Pow2, Shl, Shr, BitsOf;
    ShlGrows(open, s);
    open' := Shl(open, s) + r;
    ShrShl(r, 8 - s, 8 - t);
    JoinedFits(r, s, 0, t - s);
    PositivePow2(t - s);
    JoinedFits(open, bitPos, r, s);
    JoinedFits(open', bitPos + s, 0, t - s);
    BitsOfJoined(open, bitPos, r, s);
    ShlAdd(Shl(open, s), r, t - s);
    ShlShl(open, s, t - s);
    ShlGrows(r, t - s);
    ShlGrows(open, t);
  }

  /** An output block: whole groups, then the open one at the top of its place, then zeros. */
  ghost predicate Holds(block: seq<byte>, bytePos: nat, bitPos: nat, open: nat, b: nat) {
    && bytePos <= |block| && bitPos < b && open < Pow2(bitPos)
    && AllBelow(block[..bytePos], Pow2(b))
    && (bytePos < |block| ==> block[bytePos] == Shl(open, b - bitPos))
    && (forall k :: bytePos < k < |block| ==> block[k] == 0)
  }

  /** The bits taken in so far, as the groups written out, the groups in the block and the open one show them. */
  ghost function Taken(emitted: seq<nat>, block: seq<byte>, bytePos: nat, bitPos: nat, open: nat, b: nat): seq<bool>
    requires bytePos <= |block|
  {
    Pack(emitted + block[..bytePos], b) + BitsOf(open, bitPos)
  }

  lemma {:induction false} Emptied(block: seq<byte>, open: nat, b: nat)
    requires b > 0 && open < Pow2(0) && forall k :: 0 <= k < |block| ==> block[k] == 0
    ensures Holds(block, 0, 0, open, b)
  {
    NothingOpen(b);
  }

  lemma {:induction false} OpenFits(block: seq<byte>, bytePos: nat, bitPos: nat, open: nat, b: nat)
    requires Holds(block, bytePos, bitPos, open, b)
    ensures open < Pow2(bitPos)
  {
  }

  /** A value put in the open place closes it. */
  lemma {:induction false} Closed(emitted: seq<nat>, block: seq<byte>, block': seq<byte>, bytePos: nat, bitPos: nat,
      open: nat, b: nat, group: byte)
    requires Holds(block, bytePos, bitPos, open, b) && bytePos < |block| && group < Pow2(b)
    requires block' == block[bytePos := group]
    ensures Holds(block', bytePos + 1, 0, 0, b)
    ensures Taken(emitted, block', bytePos + 1, 0, 0, b) == Pack(emitted + block[..bytePos], b) + BitsOf(group, b)
  {
    hide Pack, BitsOf, Shl, Pow2;
    NothingOpen(b);
    assert block'[..bytePos + 1] == block[..bytePos] + [group];
    PackAppend(emitted + block[..bytePos], group, b);
    assert (emitted + block[..bytePos]) + [group] == emitted + block'[..bytePos + 1];
  }

  lemma {:induction false} Widened(block: seq<byte>, block': seq<byte>, bytePos: nat, bitPos: nat, bitPos': nat,
      open: nat, open': nat, b: nat, value: byte)
    requires Holds(block, bytePos, bitPos, open, b) && bytePos < |block|
    requires bitPos' < b && open' < Pow2(bitPos') && value == Shl(open', b - bitPos')
    requires block' == block[bytePos := value]
    ensures Holds(block', bytePos, bitPos', open', b) && block'[..bytePos] == block[..bytePos]
  {
  }

  /** One turn of the bit loop that completes a group: t bits leave the source. */
  lemma {:induction false} FillEffect(emitted: seq<nat>, block: seq<byte>, bytePos: nat, bitPos: nat, open: nat, b: nat,
      cur: byte, r: nat, s: nat) returns (block': seq<byte>, r': nat)
    requires b <= 7 && Holds(block, bytePos, bitPos, open, b) && bytePos < |block|
    requires b - bitPos <= s <= 8 && cur == Shl(r, 8 - s) && r < Pow2(s)
    ensures var t := b - bitPos;
            && 0 <= Shl(cur, t) && Low(Shl(cur, t), 8) == Shl(r', 8 - (s - t)) && r' < Pow2(s - t)
            && Shr(cur, 8 - t) < 256 && block' == block[bytePos := Or(block[bytePos], Shr(cur, 8 - t))]
            && Holds(block', bytePos + 1, 0, 0, b)
            && Taken(emitted, block', bytePos + 1, 0, 0, b) + BitsOf(r', s - t)
               == Taken(emitted, block, bytePos, bitPos, open, b) + BitsOf(r, s)
  {
    hide Shl, Shr, Pow2, BitsOf, Pack, Low, OrBits;
    var t := b - bitPos;
    var hi, lo := FillGroup(b, bitPos, open, cur, r, s, t);
    var group := Shl(open, t) + hi;
    ByteBound(b, group);
    ByteBound(t, hi);
    ByteBound(b, Shl(open, t) + hi);
    OrShifted(open, hi, t, 8);
    block', r' := block[bytePos := group], lo;
    Closed(emitted, block, block', bytePos, bitPos, open, b, group);
    var before := Pack(emitted + block[..bytePos], b);
    assert before + (BitsOf(open, bitPos) + BitsOf(hi, t)) + BitsOf(lo, s - t)
      == before + BitsOf(open, bitPos) + (BitsOf(hi, t) + BitsOf(lo, s - t));
  }

  /** The last turn, when the source runs out in an open group. */
  lemma {:induction false} OpenEffect(emitted: seq<nat>, block: seq<byte>, bytePos: nat, bitPos: nat, open: nat, b: nat,
      cur: byte, r: nat, s: nat) returns (block': seq<byte>, open': nat)
    requires b <= 7 && Holds(block, bytePos, bitPos, open, b) && bytePos < |block|
    requires s < b - bitPos && cur == Shl(r, 8 - s) && r < Pow2(s)
    ensures var t := b - bitPos;
            && Shr(cur, 8 - t) < 256 && block' == block[bytePos := Or(block[bytePos], Shr(cur, 8 - t))]
            && Holds(block', bytePos, bitPos + s, open', b)
            && Taken(emitted, block', bytePos, bitPos + s, open', b)
               == Taken(emitted, block, bytePos, bitPos, open, b) + BitsOf(r, s)
  {
    hide Shl, Shr, Pow2, BitsOf, Pack, OrBits;
    var t := b - bitPos;
    open' := OpenMore(b, bitPos, open, cur, r, s, t);
    var value := Shl(open, t) + Shl(r, t - s);
    ByteBound(b, value);
    ByteBound(t, Shl(r, t - s));
    OrShifted(open, Shl(r, t - s), t, 8);
    block' := block[bytePos := value];
    Widened(block, block', bytePos, bitPos, bitPos + s, open, open', b, value);
    var before := Pack(emitted + block[..bytePos], b);
    assert before + (BitsOf(open, bitPos) + BitsOf(r, s)) == before + BitsOf(open, bitPos) + BitsOf(r, s);
  }

  lemma {:induction false} LettersConcat(alphabet: seq<byte>, a: seq<nat>, c: seq<nat>)
    requires AllBelow(a, |alphabet|) && AllBelow(c, |alphabet|)
    ensures AllBelow(a + c, |alphabet|)
    ensures Letters(alphabet, a + c) == Letters(alphabet, a) + Letters(alphabet, c)
  {
  }

  /** What is in the block when the message ends, with an open group counted in, completes the groups of the message. */
  lemma {:induction false} LastGroups(emitted: seq<nat>, block: seq<byte>, bytePos: nat, bitPos: nat, open: nat, b: nat,
      fed: seq<byte>)
    requires Holds(block, bytePos, bitPos, open, b) && bytePos < |block| && AllBelow(emitted, Pow2(b))
    requires Taken(emitted, block, bytePos, bitPos, open, b) == Pack(fed, 8)
    ensures var n := if bitPos > 0 then bytePos + 1 else bytePos;
            && Groups(Pack(fed, 8), b) == emitted + block[..n]
            && AllBelow(block[..n], Pow2(b))
  {
    hide Shl, Pow2, BitsOf, Pack, Groups;
    var units := emitted + block[..bytePos];
    GroupsOfPack(units, b, open, bitPos);
    if bitPos > 0 {
      OpenGroup(open, bitPos, b);
      assert block[..bytePos + 1] == block[..bytePos] + [block[bytePos]];
    }
  }

  lemma {:induction false} NoLetters(alphabet: seq<byte>, groups: seq<nat>)
    ensures Letters(alphabet, groups[..0]) == []
  {
  }

  lemma {:induction false} OneMoreLetter(alphabet: seq<byte>, groups: seq<nat>, i: nat)
    requires i < |groups| && AllBelow(groups, |alphabet|)
    ensures groups[i] < |alphabet|
    ensures Letters(alphabet, groups[..i + 1]) == Letters(alphabet, groups[..i]) + [alphabet[groups[i]]]
  {
  }

  /** The bits packed so far are whole bytes. */
  predicate AtByte(b: nat, bytePos: nat, bitPos: nat) {
    BitsAt(b, bytePos, bitPos) % 8 == 0
  }

  function BitsAt(b: nat, bytePos: nat, bitPos: nat): nat {
    b * bytePos + bitPos
  }

  /** A character completed, or bits added to the open one. */
  lemma {:induction false} BitsMoved(b: nat, bytePos: nat, bitPos: nat, s: nat)
    requires bitPos <= b
    ensures BitsAt(b, bytePos + 1, 0) == BitsAt(b, bytePos, bitPos) + (b - bitPos)
    ensures BitsAt(b, bytePos, bitPos + s) == BitsAt(b, bytePos, bitPos) + s
  {
    MulDistributes(b, bytePos, 1);
  }

  lemma {:induction false} AtByteZero(b: nat)
    ensures AtByte(b, 0, 0)
  {
  }

  class Encoder {
    const alphabet: seq<byte>
    const bitsPerChar: nat
    const padding: int
    const outputBlockSize: nat
    const outBuf: array<byte>
    var bytePos: nat
    var bitPos: nat
    var output: seq<byte>          // what the attached filter has received
    ghost var base: seq<byte>      // output before the current message
    ghost var fed: seq<byte>       // the current message so far
    ghost var emitted: seq<nat>    // groups of it already written out
    ghost var open: nat            // the bits of the open group

    ghost predicate Configured() {
      && 1 <= bitsPerChar <= 7 && outputBlockSize == BlockSize(bitsPerChar) == outBuf.Length
      && |alphabet| >= Pow2(bitsPerChar) && -1 <= padding < 256
    }

    ghost predicate Valid()
      reads this, outBuf
    {
      && Configured()
      && bytePos < outputBlockSize && bitPos < bitsPerChar && open < Pow2(bitPos)
      && AllBelow(emitted, Pow2(bitsPerChar)) && |emitted| % outputBlockSize == 0
      && output == base + Letters(alphabet, emitted)
      && AtByte(bitsPerChar, bytePos, bitPos)
      && (bytePos == 0 ==> bitPos == 0)
      && (bytePos != 0 ==> Holds(outBuf[..], bytePos, bitPos, open, bitsPerChar))
      && Taken(emitted, outBuf[..], bytePos, bitPos, open, bitsPerChar) == Pack(fed, 8)
    }

    constructor (alphabet: seq<byte>, log2base: nat, padding: int)
      requires 1 <= log2base <= 7 && |alphabet| >= Pow2(log2base) && -1 <= padding < 256
      ensures Valid() && fresh(outBuf)
      ensures this.alphabet == alphabet && bitsPerChar == log2base && this.padding == padding
      ensures output == [] && base == [] && fed == []
    {
      this.alphabet, bitsPerChar, this.padding := alphabet, log2base, padding;
      var n := ComputeBlockSize(log2base);
      outputBlockSize := n;
      outBuf := new byte[n](_ => 0);
      bytePos, bitPos, output := 0, 0, [];
      base, fed, emitted, open := [], [], [], 0;
    }

    /** The loop of IsolatedInitialize: the least whole number of bytes that is also whole groups. */
    static method ComputeBlockSize(b: nat) returns (n: nat)
      requires 1 <= b <= 7
      ensures n == BlockSize(b) && n > 0 && n * b % 8 == 0
      ensures forall k :: 0 < k < n ==> k * b % 8 != 0
    {
      hide BlockSize, NoneBefore;
      var i := 8;
      NoneBeforeEight(b);
      while i % b != 0
        invariant i % 8 == 0 && 8 <= i <= 8 * b && NoneBefore(b, i)
        decreases 8 * b - i
      {
        NextEight(b, i);
        i := i + 8;
      }
      n := i / b;
      FirstMultiple(b, i);
    }

    /** memset(m_outBuf, 0, m_outputBlockSize). */
    method ClearBlock()
      requires Configured()
      modifies outBuf
      ensures forall k :: 0 <= k < outputBlockSize ==> outBuf[k] == 0
    {
      for i := 0 to outputBlockSize
        invariant forall k :: 0 <= k < i ==> outBuf[k] == 0
      {
        outBuf[i] := 0;
      }
    }

    /** One turn of the bit loop: either the source fills the open group, or it runs out in it. r is what the source
        holds in its s bits, left-justified in b; nothing is left when s' is 0. */
    method PackBits(b: byte, ghost r: nat, s: nat) returns (b': byte, ghost r': nat, s': nat)
      requires 1 <= bitsPerChar <= 7 && bytePos < outputBlockSize == outBuf.Length && bitPos < bitsPerChar
      requires Holds(outBuf[..], bytePos, bitPos, open, bitsPerChar)
      requires 0 < s <= 8 && b == Shl(r, 8 - s) && r < Pow2(s)
      modifies this`bytePos, this`bitPos, this`open, outBuf
      ensures bytePos <= outputBlockSize && bitPos < bitsPerChar && Holds(outBuf[..], bytePos, bitPos, open, bitsPerChar)
      ensures s' < s && (s' > 0 ==> b' == Shl(r', 8 - s') && r' < Pow2(s'))
      ensures BitsAt(bitsPerChar, bytePos, bitPos) + s' == BitsAt(bitsPerChar, old(bytePos), old(bitPos)) + s
      ensures Taken(emitted, outBuf[..], bytePos, bitPos, open, bitsPerChar) + BitsOf(r', s')
        == old(Taken(emitted, outBuf[..], bytePos, bitPos, open, bitsPerChar)) + BitsOf(r, s)
    {
      hide Shl, Shr, Pow2, BitsOf, Pack, Holds, Taken, Low, Or, OrBits, BlockSize, BitsAt;
      var bitsLeftInTarget: nat := bitsPerChar - bitPos;
      BitsMoved(bitsPerChar, bytePos, bitPos, s);
      ghost var block := outBuf[..];
      if s >= bitsLeftInTarget {
        block, r' := FillEffect(emitted, block, bytePos, bitPos, open, bitsPerChar, b, r, s);
        outBuf[bytePos] := Or(outBuf[bytePos], Shr(b, 8 - bitsLeftInTarget));
        assert outBuf[..] == block;
        bitPos, bytePos, open, s' := 0, bytePos + 1, 0, s - bitsLeftInTarget;
        ShiftedByteFits(b, bitsLeftInTarget);
        b' := Low(Shl(b, bitsLeftInTarget), 8);
      } else {
        ghost var open';
        block, open' := OpenEffect(emitted, block, bytePos, bitPos, open, bitsPerChar, b, r, s);
        outBuf[bytePos] := Or(outBuf[bytePos], Shr(b, 8 - bitsLeftInTarget));
        assert outBuf[..] == block;
        bitPos, open, b', r', s' := bitPos + s, open', b, 0, 0;
        NoBits(0, Taken(emitted, block, bytePos, bitPos, open, bitsPerChar));
      }
    }

    /** The bit loop over one input byte. */
    method PackByte(x: byte)
      requires 1 <= bitsPerChar <= 7 && outputBlockSize == BlockSize(bitsPerChar) == outBuf.Length
      requires bytePos < outputBlockSize && bitPos < bitsPerChar
      requires Holds(outBuf[..], bytePos, bitPos, open, bitsPerChar)
      requires AtByte(bitsPerChar, bytePos, bitPos)
      modifies this`bytePos, this`bitPos, this`open, outBuf
      ensures 0 < bytePos <= outputBlockSize && bitPos < bitsPerChar && open < Pow2(bitPos)
      ensures Holds(outBuf[..], bytePos, bitPos, open, bitsPerChar)
      ensures BitsAt(bitsPerChar, bytePos, bitPos) == BitsAt(bitsPerChar, old(bytePos), old(bitPos)) + 8
      ensures Taken(emitted, outBuf[..], bytePos, bitPos, open, bitsPerChar)
        == old(Taken(emitted, outBuf[..], bytePos, bitPos, open, bitsPerChar)) + BitsOf(x, 8)
      ensures bytePos == outputBlockSize ==> bitPos == 0
      ensures AtByte(bitsPerChar, bytePos, bitPos)
    {
      hide Shl, Pow2, BitsOf, Pack, Holds, Taken, BlockSize, BitsAt;
      var b: byte, bitsLeftInSource: nat := x, 8;
      ghost var r: nat, start := x, BitsAt(bitsPerChar, bytePos, bitPos);
      PackByteStart(x);
      ghost var end := Taken(emitted, outBuf[..], bytePos, bitPos, open, bitsPerChar) + BitsOf(x, 8);
      RoomForByte(bitsPerChar, bytePos, bitPos, outputBlockSize);
      while true
        invariant bytePos <= outputBlockSize && bitPos < bitsPerChar
        invariant Holds(outBuf[..], bytePos, bitPos, open, bitsPerChar)
        invariant 0 < bitsLeftInSource <= 8 && b == Shl(r, 8 - bitsLeftInSource) && r < Pow2(bitsLeftInSource)
        invariant BitsAt(bitsPerChar, bytePos, bitPos) + bitsLeftInSource == start + 8
        invariant Taken(emitted, outBuf[..], bytePos, bitPos, open, bitsPerChar) + BitsOf(r, bitsLeftInSource) == end
        decreases bitsLeftInSource
      {
        StillRoom(bitsPerChar, bytePos, bitPos, outputBlockSize, start, bitsLeftInSource);
        b, r, bitsLeftInSource := PackBits(b, r, bitsLeftInSource);
        if bitsLeftInSource == 0 {
          NoBits(r, Taken(emitted, outBuf[..], bytePos, bitPos, open, bitsPerChar));
          break;
        }
      }
      PackByteEnd(bitsPerChar, bytePos, bitPos, outputBlockSize, start);
      OpenFits(outBuf[..], bytePos, bitPos, open, bitsPerChar);
    }

    /** m_outBuf[i] = m_alphabet[m_outBuf[i]] for the first n places. */
    method MapLetters(n: nat)
      requires Configured() && n <= outputBlockSize && AllBelow(outBuf[..n], Pow2(bitsPerChar))
      modifies outBuf
      ensures outBuf[..n] == Letters(alphabet, old(outBuf[..n]))
    {
      hide Pow2, Letters;
      ghost var groups := outBuf[..n];
      NoLetters(alphabet, groups);
      for i := 0 to n
        invariant outBuf[..i] == Letters(alphabet, groups[..i])
        invariant outBuf[i..n] == groups[i..]
      {
        OneMoreLetter(alphabet, groups, i);
        ghost var rest := outBuf[i + 1..n];
        assert outBuf[i] == outBuf[i..n][0] == groups[i] && rest == outBuf[i..n][1..] == groups[i + 1..];
        outBuf[i] := alphabet[outBuf[i]];
        assert outBuf[..i + 1] == outBuf[..i] + [outBuf[i]] && outBuf[i + 1..n] == rest;
      }
      assert groups[..n] == groups;
    }

    /** One turn of the input loop. */
    method PutByte(x: byte)
      requires Valid()
      modifies this`bytePos, this`bitPos, this`open, this`output, this`fed, this`emitted, outBuf
      ensures Valid() && fed == old(fed) + [x] && old(output) <= output
    {
      hide Pow2, BitsOf, Pack, Holds, BlockSize, Letters, AtByte;
      if bytePos == 0 {
        ClearBlock();
        Emptied(outBuf[..], open, bitsPerChar);
        assert outBuf[..0] == old(outBuf[..0]);
      }
      PackByte(x);
      PackAppend(fed, x, 8);
      fed := fed + [x];
      if bytePos == outputBlockSize {
        OutputBlock();
      }
    }

    /** A full block goes out as letters. */
    method OutputBlock()
      requires Configured() && bytePos == outputBlockSize && bitPos == 0
      requires Holds(outBuf[..], bytePos, bitPos, open, bitsPerChar)
      requires AllBelow(emitted, Pow2(bitsPerChar)) && |emitted| % outputBlockSize == 0
      requires output == base + Letters(alphabet, emitted)
      requires Taken(emitted, outBuf[..], bytePos, bitPos, open, bitsPerChar) == Pack(fed, 8)
      modifies this`bytePos, this`bitPos, this`output, this`emitted, outBuf
      ensures Valid() && old(output) <= output
    {
      hide Pow2, BitsOf, Pack, Holds, BlockSize, Letters, AtByte;
      ghost var groups := outBuf[..bytePos];
      FullBlock(emitted, outBuf[..], bitPos, open, bitsPerChar, |alphabet|);
      MapLetters(bytePos);
      output := output + outBuf[..outputBlockSize];
      LettersConcat(alphabet, emitted, groups);
      WholeBlocks(emitted, groups, outputBlockSize);
      emitted := emitted + groups;
      bytePos, bitPos := 0, 0;
      AtByteZero(bitsPerChar);
      assert emitted + outBuf[..0] == emitted;
    }

    /** Put2 on a chunk: the message grows by it, whatever the earlier chunks were. */
    method Put(begin: seq<byte>)
      requires Valid()
      modifies this`bytePos, this`bitPos, this`open, this`output, this`fed, this`emitted, outBuf
      ensures Valid() && fed == old(fed) + begin && old(output) <= output
    {
      hide Valid();
      var inputPosition: nat := 0;
      while inputPosition < |begin|
        invariant inputPosition <= |begin| && Valid() && fed == old(fed) + begin[..inputPosition]
        invariant old(output) <= output
      {
        PutByte(begin[inputPosition]);
        assert begin[..inputPosition + 1] == begin[..inputPosition] + [begin[inputPosition]];
        inputPosition := inputPosition + 1;
      }
      assert begin[..|begin|] == begin;
    }

    /** The messageEnd branch of Put2: the attached filter has received the encoding of the whole message. */
    method FinishMessage()
      requires Valid()
      modifies this`bytePos, this`bitPos, this`open, this`output, this`base, this`fed, this`emitted, outBuf
      ensures Valid() && fed == [] && base == output && old(output) <= output
      ensures output == old(base) + Encoded(alphabet, bitsPerChar, padding, old(fed))
    {
      hide Pow2, BitsOf, Pack, Holds, BlockSize, Letters, Groups, Encoded, Taken, AtByte;
      AtMessageEnd();
      if bitPos > 0 {
        bytePos := bytePos + 1;
      }
      EncodedInParts(alphabet, bitsPerChar, padding, fed, emitted, outBuf[..bytePos]);
      FinishBlock();
      OutputJoined(base, Letters(alphabet, emitted), outBuf[..bytePos]);
      NextMessage();
    }

    /** The attached filter receives the block, and the next message starts. */
    method NextMessage()
      requires Configured() && bytePos <= outputBlockSize
      modifies this`bytePos, this`bitPos, this`open, this`output, this`base, this`fed, this`emitted
      ensures Valid() && fed == [] && base == output && output == old(output) + outBuf[..old(bytePos)]
    {
      hide Pow2, BitsOf, Pack, Holds, BlockSize, Letters, Taken, AtByte;
      output := output + outBuf[..bytePos];
      bytePos, bitPos := 0, 0;
      base, fed, emitted, open := output, [], [], 0;
      StartsEmpty(alphabet, outBuf[..], bitsPerChar);
      AtByteZero(bitsPerChar);
    }

    /** Put2: a chunk of the message, the last one if messageEnd. The result depends on the message, not on the chunks. */
    method Put2(begin: seq<byte>, messageEnd: bool)
      requires Valid()
      modifies this`bytePos, this`bitPos, this`open, this`output, this`base, this`fed, this`emitted, outBuf
      ensures Valid() && old(output) <= output
      ensures !messageEnd ==> fed == old(fed) + begin && base == old(base)
      ensures messageEnd ==> fed == [] && base == output
      ensures messageEnd ==> output == old(base) + Encoded(alphabet, bitsPerChar, padding, old(fed) + begin)
    {
      hide Valid();
      Put(begin);
      if messageEnd {
        FinishMessage();
      }
    }

    method FinishBlock()
      requires Configured() && bytePos <= outputBlockSize && AllBelow(outBuf[..bytePos], Pow2(bitsPerChar))
      modifies this`bytePos, outBuf
      ensures bytePos <= outputBlockSize
      ensures outBuf[..bytePos] == Letters(alphabet, old(outBuf[..bytePos]))
        + (if padding == -1 || old(bytePos) == 0 then [] else seq(outputBlockSize - old(bytePos), _ => padding))
    {
      hide Letters, Pow2, BlockSize;
      MapLetters(bytePos);
      if padding != -1 && bytePos > 0 {
        PadBlock(bytePos);
        bytePos := outputBlockSize;
        assert outBuf[..bytePos] == outBuf[..];
      }
    }

    /** memset(m_outBuf+m_bytePos, m_padding, m_outputBlockSize-m_bytePos). */
    method PadBlock(n: nat)
      requires Configured() && n <= outputBlockSize && padding != -1
      modifies outBuf
      ensures outBuf[..n] == old(outBuf[..n])
      ensures outBuf[..] == old(outBuf[..n]) + seq(outputBlockSize - n, _ => padding)
    {
      for i := n to outputBlockSize
        invariant outBuf[..n] == old(outBuf[..n])
        invariant forall k :: n <= k < i ==> outBuf[k] == padding
      {
        outBuf[i] := padding;
      }
    }

    lemma {:induction false} AtMessageEnd()
      requires Valid()
      ensures var n := if bitPos > 0 then bytePos + 1 else bytePos;
              && Groups(Pack(fed, 8), bitsPerChar) == emitted + outBuf[..n]
              && AllBelow(outBuf[..n], Pow2(bitsPerChar))
    {
      hide Pow2, BitsOf, Pack, Holds, BlockSize, Letters, Groups;
      if bytePos == 0 {
        assert emitted + outBuf[..0] == emitted;
        GroupsOfPack(emitted, bitsPerChar, open, 0);
      } else {
        LastGroups(emitted, outBuf[..], bytePos, bitPos, open, bitsPerChar, fed);
      }
    }
  }

  ghost predicate NoneBefore(b: nat, i: nat)
    requires b > 0
  {
    forall k :: 8 <= k < i && k % 8 == 0 ==> k % b != 0
  }

  lemma {:induction false} NoneBeforeEight(b: nat)
    requires b > 0
    ensures NoneBefore(b, 8)
  {
  }

  lemma {:induction false} NextEight(b: nat, i: nat)
    requires 1 <= b <= 7 && i % 8 == 0 && 8 <= i <= 8 * b && i % b != 0 && NoneBefore(b, i)
    ensures i + 8 <= 8 * b && NoneBefore(b, i + 8)
  {
  }

  lemma {:induction false} FirstMultiple(b: nat, i: nat)
    requires 1 <= b <= 7 && i % 8 == 0 && 8 <= i <= 8 * b && i % b == 0 && NoneBefore(b, i)
    ensures i / b == BlockSize(b) && BlockSize(b) * b % 8 == 0
    ensures forall k :: 0 < k < BlockSize(b) ==> k * b % 8 != 0
  {
    LeastBlockSize(b);
    assert (BlockSize(b) * b) % b == 0 by { ModOfMultiple(BlockSize(b), b); }
    if b == 1 { } else if b == 2 { } else if b == 3 { } else if b == 4 { } else if b == 5 { } else if b == 6 { } else { }
  }

  lemma {:induction false} ByteBound(b: nat, v: nat)
    requires b <= 8 && v < Pow2(b)
    ensures v < Pow2(8) == 256
  {
  }

  lemma {:induction false} PackAppend(units: seq<nat>, u: nat, b: nat)
    ensures Pack(units + [u], b) == Pack(units, b) + BitsOf(u, b)
  {
  }

  lemma {:induction false} NothingOpen(b: nat)
    ensures Shl(0, b) == 0 && 0 < Pow2(0) && BitsOf(0, 0) == []
  {
    ShlOne(b);
  }

  lemma {:induction false} NoBits(r: nat, bits: seq<bool>)
    ensures bits + BitsOf(r, 0) == bits
  {
  }

  lemma {:induction false} PackByteStart(x: byte)
    ensures Shl(x, 0) == x && x < Pow2(8)
  {
  }

  lemma {:induction false} ShiftedByteFits(v: byte, t: nat)
    ensures 0 <= Shl(v, t) && 0 <= Low(Shl(v, t), 8) < 256
  {
    ShlGrows(v, t);
    LowRange(Shl(v, t), 8);
    PowersOfTwo();
  }

  /** A byte boundary inside the block leaves room for a whole byte. */
  lemma {:induction false} RoomForByte(b: nat, bytePos: nat, bitPos: nat, blockSize: nat)
    requires 1 <= b <= 7 && blockSize == BlockSize(b) && bytePos < blockSize && bitPos < b
    requires AtByte(b, bytePos, bitPos)
    ensures BitsAt(b, bytePos, bitPos) + 8 <= BitsAt(b, blockSize, 0)
  {
    MulMonotone(b, bytePos + 1, blockSize);
    MulDistributes(b, bytePos, 1);
  }

  lemma {:induction false} StillRoom(b: nat, bytePos: nat, bitPos: nat, blockSize: nat, start: nat, left: nat)
    requires start + 8 <= BitsAt(b, blockSize, 0) && left > 0
    requires BitsAt(b, bytePos, bitPos) + left == start + 8
    ensures bytePos < blockSize
  {
  }

  lemma {:induction false} PackByteEnd(b: nat, bytePos: nat, bitPos: nat, blockSize: nat, start: nat)
    requires 1 <= b <= 7 && bytePos <= blockSize && bitPos < b
    requires start + 8 <= BitsAt(b, blockSize, 0) && BitsAt(b, bytePos, bitPos) == start + 8
    ensures bytePos > 0
    ensures bytePos == blockSize ==> bitPos == 0
  {
  }

  lemma {:induction false} FullBlock(emitted: seq<nat>, block: seq<byte>, bitPos: nat, open: nat, b: nat, limit: nat)
    requires Holds(block, |block|, bitPos, open, b) && bitPos == 0 && limit >= Pow2(b)
    ensures AllBelow(block, Pow2(b)) && AllBelow(block, limit)
    ensures open < Pow2(0)
    ensures Taken(emitted, block, |block|, bitPos, open, b) == Pack(emitted + block, b) + BitsOf(open, 0)
  {
    hide Pow2, Pack, BitsOf;
    assert block[..|block|] == block;
  }

  lemma {:induction false} WholeBlocks(emitted: seq<nat>, groups: seq<nat>, blockSize: nat)
    requires blockSize > 0 && |emitted| % blockSize == 0 && |groups| == blockSize
    ensures |emitted + groups| % blockSize == 0
  {
    ModShift(|emitted|, 1, blockSize);
  }

  lemma {:induction false} CountInBlock(whole: nat, n: nat, blockSize: nat)
    requires blockSize > 0 && whole % blockSize == 0 && n <= blockSize
    ensures (whole + n) % blockSize == if n == blockSize then 0 else n
  {
    if n == blockSize {
      ModShift(whole, 1, blockSize);
    } else {
      assert whole == (whole / blockSize) * blockSize;
      DivModUnique(whole + n, blockSize, whole / blockSize, n);
    }
  }

  lemma {:induction false} PaddingCount(padding: int, emitted: seq<nat>, n: nat, blockSize: nat)
    requires -1 <= padding < 256 && blockSize > 0 && |emitted| % blockSize == 0 && n <= blockSize
    ensures Padding(padding, |emitted| + n, blockSize)
      == if padding == -1 || n == 0 then [] else seq(blockSize - n, _ => padding)
  {
    CountInBlock(|emitted|, n, blockSize);
  }

  lemma {:induction false} EncodedInParts(alphabet: seq<byte>, b: nat, padding: int, m: seq<byte>, emitted: seq<nat>,
      last: seq<nat>)
    requires 1 <= b <= 7 && |alphabet| >= Pow2(b) && -1 <= padding < 256
    requires Groups(Pack(m, 8), b) == emitted + last && AllBelow(emitted, Pow2(b)) && AllBelow(last, Pow2(b))
    requires |emitted| % BlockSize(b) == 0 && |last| <= BlockSize(b)
    ensures Encoded(alphabet, b, padding, m) == Letters(alphabet, emitted) + (Letters(alphabet, last)
      + (if padding == -1 || |last| == 0 then [] else seq(BlockSize(b) - |last|, _ => padding)))
  {
    hide Pow2, Pack, BlockSize, Letters, Groups;
    LettersConcat(alphabet, emitted, last);
    PaddingCount(padding, emitted, |last|, BlockSize(b));
  }

  lemma {:induction false} OutputJoined(base: seq<byte>, letters: seq<byte>, last: seq<byte>)
    ensures base + letters + last == base + (letters + last)
  {
  }

  lemma {:induction false} StartsEmpty(alphabet: seq<byte>, block: seq<byte>, b: nat)
    requires |alphabet| >= Pow2(b)
    ensures 0 < Pow2(0) && AllBelow([], Pow2(b)) && Letters(alphabet, []) == []
    ensures Taken([], block, 0, 0, 0, b) == Pack([], 8) == []
  {
  }
}
