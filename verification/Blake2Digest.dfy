/** BLAKE2b and BLAKE2s from key and message to digest bytes: section 3.3 of RFC 7693 with its initial state. The
    compression function F and the initialization vector stay parameters. */
module Blake2Digests {
  import opened Arithmetic
  import opened ByteStrings
  import opened Blake2Hash

  type State8 = s: seq<nat> | |s| == 8 witness seq(8, _ => 0)

  type Compression = (State8, seq<byte>, nat, nat, nat, nat) -> State8

  /** A word, least significant byte first. */
  function LittleEndian(s: seq<byte>): nat {
    if |s| == 0 then 0 else s[0] + 256 * LittleEndian(s[1..])
  }

  /** The i-th word of w bytes of the parameter block. */
  function BlockWord(block: seq<byte>, w: nat, i: nat): nat {
    LittleEndian(WordAt(block, w, i))
  }

  function WordAt(block: seq<byte>, w: nat, i: nat): seq<byte> {
    if 0 <= i * w <= i * w + w <= |block| then block[i * w..i * w + w] else []
  }

  /** PutBlock: the initialization vector exclusive-or the words of the parameter block. */
  function InitialState(iv: State8, w: nat, block: seq<byte>): State8 {
    seq(8, i requires 0 <= i < 8 => XorBits(iv[i], BlockWord(block, w, i), 8 * w))
  }

  /** The bytes of a word in memory. */
  function WordBytes(v: nat, w: nat): (s: seq<byte>)
    ensures |s| == w
  {
    if w == 0 then [] else [v % 256] + WordBytes(v / 256, w - 1)
  }

  /** The state as it lies in memory. */
  function StateBytes(h: seq<nat>, w: nat): (s: seq<byte>) {
    if |h| == 0 then [] else StateBytes(h[..|h| - 1], w) + WordBytes(h[|h| - 1], w)
  }

  /** BLAKE2b for w = 8, BLAKE2s for w = 4. */
  function Family(w: nat, iv: State8, F: Compression): Variant<State8> {
    Variant(16 * w, Pow2(8 * w), F, block => InitialState(iv, w, block), h => StateBytes(h, w))
  }

  lemma {:induction false} FamilyIsVariant(w: nat, iv: State8, F: Compression)
    requires 4 <= w <= 8
    ensures IsVariant(Family(w, iv, F))
  {
    PowersOfTwo();
    Pow2Monotone(8, 8 * w);
  }

  // ---- what these definitions mean ----

  /** Byte j of a word in memory is its j-th lowest. */
  lemma {:induction false} WordByte(v: nat, w: nat, j: nat)
    requires j < w
    ensures WordBytes(v, w)[j] == Shr(v, 8 * j) % 256
  {
    if j > 0 {
      WordByte(v / 256, w - 1, j - 1);
      EightHalvings(v);
      ShrShr(v, 8, 8 * (j - 1));
    }
  }

  /** The words of the state lie one behind the other, each with its lowest byte first. */
  lemma {:induction false} StateByte(h: seq<nat>, w: nat, i: nat, j: nat)
    requires i < |h| && j < w
    ensures |StateBytes(h, w)| == |h| * w && 0 <= i * w + j < |h| * w
    ensures StateBytes(h, w)[i * w + j] == Shr(h[i], 8 * j) % 256
  {
    StateSize(h, w);
    var n := |h| - 1;
    StateSize(h[..n], w);
    MulDistributes(w, n, 1);
    if i == n {
      WordByte(h[n], w, j);
    } else {
      StateByte(h[..n], w, i, j);
    }
  }

  lemma {:induction false} StateSize(h: seq<nat>, w: nat)
    ensures |StateBytes(h, w)| == |h| * w
  {
    if |h| > 0 {
      StateSize(h[..|h| - 1], w);
      MulDistributes(w, |h| - 1, 1);
    }
  }

  lemma {:induction false} ZeroWord(w: nat)
    ensures LittleEndian(Zeros(w)) == 0
  {
    if w > 0 {
      ZeroWord(w - 1);
      assert Zeros(w)[1..] == Zeros(w - 1);
    }
  }

  /** The first word of the parameter block of a hash without salt and personalization is 0x0101kknn. */
  lemma {:induction false} FirstWord(nn: byte, kk: byte, w: nat)
    requires w >= 4
    ensures LittleEndian([nn, kk, 1, 1] + Zeros(w - 4)) == 0x0101_0000 + 256 * kk + nn
  {
    hide LittleEndian;
    var rest := Zeros(w - 4);
    ZeroWord(w - 4);
    AfterByte(nn, [kk, 1, 1] + rest, [nn, kk, 1, 1] + rest);
    AfterByte(kk, [1, 1] + rest, [kk, 1, 1] + rest);
    AfterByte(1, [1] + rest, [1, 1] + rest);
    AfterByte(1, rest, [1] + rest);
  }

  lemma {:induction false} AfterByte(b: byte, rest: seq<byte>, all: seq<byte>)
    requires all == [b] + rest
    ensures LittleEndian(all) == b + 256 * LittleEndian(rest)
  {
    assert all[1..] == rest;
  }

  /** h[0] := IV[0] ^ 0x01010000 ^ (kk << 8) ^ nn, and the other words of the initialization vector. */
  ghost function RfcInitial(iv: State8, w: nat, nn: nat, kk: nat): State8 {
    iv[0 := XorBits(iv[0], 0x0101_0000 + 256 * kk + nn, 8 * w)]
  }

  lemma {:induction false} InitialIsRfc(iv: State8, w: nat, nn: byte, kk: byte)
    requires w >= 4 && forall i :: 0 <= i < 8 ==> iv[i] < Pow2(8 * w)
    ensures InitialState(iv, w, [nn, kk, 1, 1] + Zeros(8 * w - 4)) == RfcInitial(iv, w, nn, kk)
  {
    hide XorBits, LittleEndian, Pow2;
    var block := [nn, kk, 1, 1] + Zeros(8 * w - 4);
    FirstWord(nn, kk, w);
    assert WordAt(block, w, 0) == [nn, kk, 1, 1] + Zeros(w - 4);
    forall i | 1 <= i < 8 ensures InitialState(iv, w, block)[i] == iv[i] {
      MulMonotone(w, 1, i);
      MulMonotone(w, i + 1, 8);
      MulDistributes(w, i, 1);
      assert WordAt(block, w, i) == Zeros(w);
      ZeroWord(w);
      XorZero(iv[i], 8 * w);
    }
  }

  // ---- the object ----

  /** Update, one piece after the other. */
  method FeedPieces<H(0)>(hasher: Blake2<H>, pieces: seq<seq<byte>>)
    requires hasher.Valid()
    modifies hasher, hasher.buf
    ensures hasher.Valid() && hasher.fed == old(hasher.fed) + Joined(pieces)
    ensures hasher.start == old(hasher.start) && hasher.block == old(hasher.block)
  {
    hide Joined;
    ghost var before := hasher.fed;
    NothingJoined(pieces);
    for i := 0 to |pieces|
      invariant hasher.Valid() && hasher.fed == before + Joined(pieces[..i])
      invariant hasher.start == old(hasher.start) && hasher.block == old(hasher.block)
    {
      hasher.Update(pieces[i]);
      JoinedOneMore(pieces, i);
      assert before + Joined(pieces[..i]) + pieces[i] == before + Joined(pieces[..i + 1]);
    }
    assert pieces[..|pieces|] == pieces;
  }

  lemma {:induction false} NothingJoined(pieces: seq<seq<byte>>)
    ensures Joined(pieces[..0]) == []
  {
  }

  /** A message through an object in any pieces: the RFC's hash from the initial value of the block with both sizes. */
  method HashMessage<H(0)>(v: Variant<H>, key: seq<byte>, block: seq<byte>, digestSize: nat, pieces: seq<seq<byte>>,
      size: nat) returns (ok: bool, hash: seq<byte>)
    requires IsVariant(v) && |key| <= v.blockSize && |block| >= 2
    ensures ok <==> size <= digestSize
    ensures ok ==> hash == Take(v.encode(RfcHash(v, v.initial([digestSize % 256, |key| % 256] + block[2..]),
                                                 KeyBlock(key, v.blockSize), Joined(pieces))), size)
  {
    hide RfcHash, Patched, Final, Joined, Take, Padded;
    var hasher := new Blake2(v, key, block, digestSize, false);
    FeedPieces(hasher, pieces);
    PatchedMeans(block, digestSize, |key|);
    PaddedKey(key, v.blockSize);
    FinalIsRfc(v, v.initial(hasher.block), hasher.key, Joined(pieces));
    ok, hash := hasher.TruncatedFinal(size);
  }

  /** The key and zeros up to a block; nothing without a key. */
  function KeyBlock(key: seq<byte>, size: nat): seq<byte>
    requires |key| <= size
  {
    if |key| == 0 then [] else key + Zeros(size - |key|)
  }

  lemma {:induction false} PaddedKey(key: seq<byte>, size: nat)
    requires |key| <= size
    ensures KeyBlock(key, size) == if |key| == 0 then [] else Padded(key, size)
  {
  }

  /** One message through an object in any pieces, for any key, any salt and personalization in the parameter block and
      any digest size: the first bytes of the final state of RFC 7693. Without salt and personalization the initial state
      is the RFC's own. */
  method Digest(w: nat, iv: State8, F: Compression, key: seq<byte>, block: seq<byte>, digestSize: nat,
      pieces: seq<seq<byte>>, size: nat) returns (ok: bool, hash: seq<byte>)
    requires w == 4 || w == 8
    requires forall i :: 0 <= i < 8 ==> iv[i] < Pow2(8 * w)
    requires |key| <= 8 * w && |block| == 8 * w && digestSize <= 8 * w
    ensures ok <==> size <= digestSize
    ensures IsVariant(Family(w, iv, F))
    ensures ok ==>
      var h0 := InitialState(iv, w, [digestSize, |key|] + block[2..]);
      && |hash| == size && hash <= StateBytes(RfcHash(Family(w, iv, F), h0, KeyBlock(key, 16 * w), Joined(pieces)), w)
      && (block[2..] == [1, 1] + Zeros(8 * w - 4) ==> h0 == RfcInitial(iv, w, digestSize, |key|))
  {
    hide InitialState, StateBytes, RfcHash, RfcInitial, Joined, Pow2, Take, KeyBlock;
    var v := Family(w, iv, F);
    FamilyIsVariant(w, iv, F);
    ok, hash := HashMessage(v, key, block, digestSize, pieces, size);
    if ok {
      Encoded(w, iv, F, [digestSize, |key|] + block[2..], KeyBlock(key, 16 * w), Joined(pieces), size);
    }
    if block[2..] == [1, 1] + Zeros(8 * w - 4) {
      assert [digestSize, |key|] + block[2..] == [digestSize, |key|, 1, 1] + Zeros(8 * w - 4);
      InitialIsRfc(iv, w, digestSize, |key|);
    }
  }

  lemma {:induction false} Encoded(w: nat, iv: State8, F: Compression, block: seq<byte>, keyBlock: seq<byte>,
      data: seq<byte>, size: nat)
    requires IsVariant(Family(w, iv, F)) && size <= 8 * w
    ensures var v := Family(w, iv, F);
            var hash := Take(v.encode(RfcHash(v, v.initial(block), keyBlock, data)), size);
            |hash| == size && hash <= StateBytes(RfcHash(v, InitialState(iv, w, block), keyBlock, data), w)
  {
    hide RfcHash, InitialState, StateBytes, IsVariant;
    var v := Family(w, iv, F);
    StateSize(RfcHash(v, v.initial(block), keyBlock, data), w);
  }
}
