/** BLAKE2 buffering, counters and finalization for both variants (blake2.cpp), against section 3.3 of RFC 7693.
    The compression function, the initial chaining value and the output encoding are parameters. */
module Blake2Hash {
  import opened Arithmetic
  import opened ByteStrings

  /** A variant: block size in bytes, 2^(word size), and the functions it is built from. */
  datatype Variant<!H> = Variant(
    blockSize: nat,
    wordModulus: nat,
    compress: (H, seq<byte>, nat, nat, nat, nat) -> H,  // chaining value, block, t0, t1, f0, f1
    initial: seq<byte> -> H,                            // parameter block
    encode: H -> seq<byte>)

  ghost predicate IsVariant<H>(v: Variant<H>) {
    0 < v.blockSize < v.wordModulus
  }

  // ---- the definition ----

  /** Compression with a byte count c as the two-word counter. */
  ghost function CompressAt<H>(v: Variant<H>, h: H, block: seq<byte>, c: nat, f0: nat, f1: nat): H
    requires IsVariant(v)
  {
    v.compress(h, block, c % v.wordModulus, (c / v.wordModulus) % v.wordModulus, f0, f1)
  }

  /** Chaining value after the first n bytes of m, all in non-final blocks. */
  ghost function Chain<H>(v: Variant<H>, h0: H, start: nat, m: seq<byte>, n: nat): H
    requires IsVariant(v) && n <= |m|
  {
    if n < v.blockSize then h0
    else CompressAt(v, Chain(v, h0, start, m, n - v.blockSize), m[n - v.blockSize..n], start + n, 0, 0)
  }

  /** The parameter block with the digest and key sizes in their places. */
  function Patched(block: seq<byte>, digestSize: nat, keyLength: nat): seq<byte> {
    if |block| < 2 then block else block[0 := digestSize % 256][1 := keyLength % 256]
  }

  /** The size bytes are the first two of the block; all others are the caller's. */
  lemma {:induction false} PatchedMeans(block: seq<byte>, digestSize: nat, keyLength: nat)
    requires |block| >= 2
    ensures Patched(block, digestSize, keyLength) == [digestSize % 256, keyLength % 256] + block[2..]
  {
  }

  function Take(s: seq<byte>, n: nat): seq<byte> {
    if n <= |s| then s[..n] else s
  }

  /** Where the last block of a message starts: it is nonempty unless the message is empty. */
  function LastStart(blockSize: nat, length: nat): (n: nat)
    requires blockSize > 0
    ensures n <= length && length - n <= blockSize && (length > 0 ==> n < length)
  {
    if length <= blockSize then 0 else blockSize + LastStart(blockSize, length - blockSize)
  }

  function Padded(block: seq<byte>, size: nat): (p: seq<byte>)
    requires |block| <= size
    ensures |p| == size
  {
    block + Zeros(size - |block|)
  }

  /** The final chaining value of message m. */
  ghost function Final<H>(v: Variant<H>, h0: H, start: nat, treeMode: bool, m: seq<byte>): H
    requires IsVariant(v)
  {
    var n := LastStart(v.blockSize, |m|);
    CompressAt(v, Chain(v, h0, start, m, n), Padded(m[n..], v.blockSize), start + |m|,
               v.wordModulus - 1, if treeMode then v.wordModulus - 1 else 0)
  }

  // ---- facts about the definition ----

  /** A padded block is the bytes given, then zeros. */
  lemma {:induction false} PaddedMeans(block: seq<byte>, size: nat, i: nat)
    requires |block| <= size && i < size
    ensures Padded(block, size)[i] == if i < |block| then block[i] else 0
  {
  }

  lemma {:induction false} ChainOfPrefix<H>(v: Variant<H>, h0: H, start: nat, m: seq<byte>, more: seq<byte>, n: nat)
    requires IsVariant(v) && n <= |m|
    ensures Chain(v, h0, start, m + more, n) == Chain(v, h0, start, m, n)
  {
    if n >= v.blockSize {
      ChainOfPrefix(v, h0, start, m, more, n - v.blockSize);
      assert (m + more)[n - v.blockSize..n] == m[n - v.blockSize..n];
    }
  }

  /** n is a whole number of blocks. */
  ghost predicate Whole(blockSize: nat, n: nat)
    requires blockSize > 0
  {
    n == 0 || (n >= blockSize && Whole(blockSize, n - blockSize))
  }

  lemma {:induction false} WholeIsLastStart(blockSize: nat, n: nat, length: nat)
    requires blockSize > 0 && Whole(blockSize, n) && n <= length <= n + blockSize && (n > 0 ==> n < length)
    ensures LastStart(blockSize, length) == n
  {
    if n > 0 { WholeIsLastStart(blockSize, n - blockSize, length - blockSize); }
  }

  /** t0 and t1 are the two low words of c. */
  predicate Counters(t0: nat, t1: nat, c: nat, w: nat)
    requires w > 0
  {
    t0 == c % w && t1 == (c / w) % w
  }

  /** The carry test of IncrementCounter. */
  lemma {:induction false} CounterStep(c: nat, count: nat, w: nat)
    requires count < w
    ensures (c % w + count) % w == (c + count) % w
    ensures ((c / w) % w + (if (c + count) % w < count then 1 else 0)) % w == ((c + count) / w) % w
  {
    var q, r := c / w, c % w;
    assert c == q * w + r;
    ModThenAdd(c, count, w);
    if r + count < w {
      DivModUnique(c + count, w, q, r + count);
      DivModUnique(q % w, w, 0, q % w);
    } else {
      MulDistributes(w, q, 1);
      DivModUnique(c + count, w, q + 1, r + count - w);
      ModThenAdd(q, 1, w);
    }
  }

  class Blake2<H(0)> {
    const v: Variant<H>
    const treeMode: bool
    const digestSize: nat
    const keyLength: nat
    const key: seq<byte>          // padded to a block when there is one
    var block: seq<byte>          // parameter block
    var h: H
    var t0: nat
    var t1: nat
    var f0: nat
    var f1: nat
    const buf: array<byte>
    var len: nat
    ghost var start: nat          // the counter a customized Restart began with
    ghost var fed: seq<byte>      // everything hashed since the last Restart, the key block included

    ghost predicate Configured()
      reads this`block
    {
      && IsVariant(v) && buf.Length == v.blockSize
      && keyLength <= v.blockSize && |key| == (if keyLength == 0 then 0 else v.blockSize)
      && |block| >= 2
    }

    /** Chaining value and counter stand for the first n bytes of m. */
    ghost predicate Absorbed(m: seq<byte>, n: nat)
      requires Configured()
      reads this`block, this`h, this`t0, this`t1, this`f0, this`f1, this`start
    {
      && n <= |m| && Whole(v.blockSize, n)
      && h == Chain(v, v.initial(block), start, m, n)
      && Counters(t0, t1, start + n, v.wordModulus)
      && f0 == 0 == f1
    }

    /** The last block is always kept back, nonempty unless nothing was fed. */
    ghost predicate Valid()
      reads this, buf
    {
      && Configured()
      && len <= v.blockSize && len <= |fed|
      && (len == 0 ==> fed == [])
      && Absorbed(fed, |fed| - len)
      && buf[..len] == fed[|fed| - len..]
    }

    constructor (v: Variant<H>, key: seq<byte>, block: seq<byte>, digestSize: nat, treeMode: bool)
      requires IsVariant(v) && |key| <= v.blockSize && |block| >= 2
      ensures Valid() && fresh(buf)
      ensures this.v == v && this.treeMode == treeMode && this.digestSize == digestSize
      ensures keyLength == |key| && this.key == (if |key| == 0 then [] else Padded(key, v.blockSize))
      ensures this.block == Patched(block, digestSize, |key|)
      ensures start == 0 && fed == this.key
    {
      this.v, this.treeMode, this.digestSize, this.keyLength := v, treeMode, digestSize, |key|;
      this.key := if |key| == 0 then [] else Padded(key, v.blockSize);
      this.block := block;
      buf := new byte[v.blockSize](_ => 0);
      new;
      Restart();
    }

    method IncrementCounter(count: nat, ghost c: nat)
      requires IsVariant(v) && count < v.wordModulus
      requires Counters(t0, t1, c, v.wordModulus)
      modifies this`t0, this`t1
      ensures Counters(t0, t1, c + count, v.wordModulus)
    {
      CounterStep(c, count, v.wordModulus);
      t0 := (t0 + count) % v.wordModulus;
      t1 := (t1 + (if t0 < count then 1 else 0)) % v.wordModulus;
    }

    method Compress(input: seq<byte>)
      modifies this`h
      ensures h == v.compress(old(h), input, t0, t1, f0, f1)
    {
      h := v.compress(h, input, t0, t1, f0, f1);
    }

    /** One full block that is not the last. */
    method AbsorbBlock(input: seq<byte>, ghost m: seq<byte>, ghost n: nat)
      requires Configured() && Absorbed(m, n)
      requires n + v.blockSize <= |m| && input == m[n..n + v.blockSize]
      modifies this`h, this`t0, this`t1
      ensures Configured() && Absorbed(m, n + v.blockSize)
    {
      IncrementCounter(v.blockSize, start + n);
      Compress(input);
    }

    method Update(input: seq<byte>)
      requires Valid()
      modifies this, buf
      ensures Valid() && fed == old(fed) + input && start == old(start) && block == old(block)
    {
      hide Absorbed, Patched;
      ghost var m := fed + input;
      FedExtends(input);
      var pos := 0;
      if |input| > v.blockSize - len {
        pos := CompressFullBlocks(input, m);
      }
      assert buf[..len] + input[pos..] == m[|m| - len - (|input| - pos)..];
      CopyTail(input, pos, m);
      fed := m;
    }

    /** The tail bytes join the buffer. */
    method CopyTail(input: seq<byte>, pos: nat, ghost m: seq<byte>)
      requires pos <= |input| && len + (|input| - pos) <= buf.Length && len + (|input| - pos) <= |m|
      requires buf[..len] + input[pos..] == m[|m| - len - (|input| - pos)..]
      modifies this`len, buf
      ensures len == old(len) + (|input| - pos) && buf[..len] == m[|m| - len..]
    {
      ghost var before, rest, at := buf[..len], input[pos..], len;
      if |input| - pos > 0 {
        CopyInto(input, pos, len, |input| - pos);
        len := len + (|input| - pos);
        assert buf[at..len] == rest;
        assert buf[..len] == buf[..at] + buf[at..len];
      } else {
        assert rest == [] && before + rest == before;
      }
      assert buf[..len] == before + rest;
    }

    lemma {:induction false} FedExtends(input: seq<byte>)
      requires Valid()
      ensures Absorbed(fed + input, |fed| - len)
    {
      ChainOfPrefix(v, v.initial(block), start, fed, input, |fed| - len);
    }

    /** Completes the buffered block and compresses whole blocks in place, always leaving some input over. */
    method CompressFullBlocks(input: seq<byte>, ghost m: seq<byte>) returns (pos: nat)
      requires Configured() && len <= v.blockSize && len <= |fed| && buf[..len] == fed[|fed| - len..]
      requires m == fed + input && Absorbed(m, |fed| - len) && |input| > v.blockSize - len
      modifies this`h, this`t0, this`t1, this`len, buf
      ensures Configured() && len == 0 && pos < |input| <= pos + v.blockSize
      ensures Absorbed(m, |m| - (|input| - pos))
    {
      hide Absorbed;
      ghost var n := |fed| - len;
      var length := |input|;
      pos := 0;
      if len != 0 {
        var fill := v.blockSize - len;
        CopyInto(input, 0, len, fill);
        assert buf[..] == m[n..n + v.blockSize] by {
          assert buf[..] == buf[..len] + buf[len..len + fill];
        }
        AbsorbBlock(buf[..], m, n);
        n := n + v.blockSize;
        len := 0;
        length, pos := length - fill, pos + fill;
      }
      while length > v.blockSize
        invariant Configured() && len == 0 && pos + length == |input| && n == |m| - length && length > 0
        invariant Absorbed(m, n)
      {
        PieceOfJoined(fed, input, pos, v.blockSize);
        assert n == |fed| + pos;
        AbsorbBlock(input[pos..pos + v.blockSize], m, n);
        n := n + v.blockSize;
        length, pos := length - v.blockSize, pos + v.blockSize;
      }
    }

    /** memcpy(buf + at, input + pos, count). */
    method CopyInto(input: seq<byte>, pos: nat, at: nat, count: nat)
      requires pos + count <= |input| && at + count <= buf.Length
      modifies buf
      ensures buf[..at] == old(buf[..at]) && buf[at + count..] == old(buf[at + count..])
      ensures buf[at..at + count] == input[pos..pos + count]
    {
      for i := 0 to count
        invariant buf[..at] == old(buf[..at]) && buf[at + count..] == old(buf[at + count..])
        invariant buf[at..at + i] == input[pos..pos + i]
      {
        buf[at + i] := input[pos + i];
        assert buf[at..at + i + 1] == buf[at..at + i] + [input[pos + i]];
      }
    }

    /** Restart(block, counter): the caller's parameter block, its two size bytes replaced, and a counter to start at. */
    method RestartWith(newBlock: seq<byte>, counter0: nat, counter1: nat)
      requires Configured() && counter0 < v.wordModulus && counter1 < v.wordModulus && |newBlock| == |block|
      modifies this, buf
      ensures Valid() && fed == key && start == counter1 * v.wordModulus + counter0
      ensures block == Patched(newBlock, digestSize, keyLength)
    {
      hide Absorbed, Patched;
      StartState(newBlock, counter0, counter1);
      if keyLength != 0 {
        Update(key);
      }
      assert [] + key == key;
    }

    /** The state before the key block. */
    method StartState(newBlock: seq<byte>, counter0: nat, counter1: nat)
      requires Configured() && counter0 < v.wordModulus && counter1 < v.wordModulus && |newBlock| == |block|
      modifies this
      ensures Valid() && fed == [] && start == counter1 * v.wordModulus + counter0
      ensures block == Patched(newBlock, digestSize, keyLength)
    {
      hide Chain, Whole, Counters;
      t0, t1, f0, f1, len := counter0, counter1, 0, 0, 0;
      block := Patched(newBlock, digestSize, keyLength);
      h := v.initial(block);
      start, fed := counter1 * v.wordModulus + counter0, [];
      NothingAbsorbed(v, h, counter0, counter1);
    }

    method Restart()
      requires Configured()
      modifies this, buf
      ensures Valid() && fed == key && start == 0
      ensures block == Patched(old(block), digestSize, keyLength)
    {
      RestartWith(block, 0, 0);
    }

    /** The digest of everything fed, after which the object is as after construction. Sizes above the
        digest size are refused and change nothing. */
    method TruncatedFinal(size: nat) returns (ok: bool, hash: seq<byte>)
      requires Valid()
      modifies this, buf
      ensures Valid()
      ensures ok <==> size <= digestSize
      ensures ok ==> hash == Take(v.encode(Final(v, v.initial(old(block)), old(start), treeMode, old(fed))), size)
      ensures ok ==> fed == key && start == 0 && block == Patched(old(block), digestSize, keyLength)
      ensures !ok ==> fed == old(fed) && start == old(start) && block == old(block) && h == old(h)
    {
      hide Absorbed, Final, Patched;
      if size > digestSize {
        return false, [];
      }
      CompressLast();
      hash := Take(v.encode(h), size);
      Restart();
      ok := true;
    }

    /** Finalization flags, counter and padding for the buffered block, and its compression. */
    method CompressLast()
      requires Valid()
      modifies this`h, this`t0, this`t1, this`f0, this`f1, buf
      ensures Configured() && h == Final(v, v.initial(block), start, treeMode, fed)
    {
      hide Chain, Whole, Padded, LastStart, Counters, Final;
      ghost var n := |fed| - len;
      WholeStart(v.blockSize, n, |fed|, len);
      f0 := v.wordModulus - 1;
      if treeMode {
        f1 := v.wordModulus - 1;
      }
      IncrementCounter(len, start + n);
      ZeroTail();
      LastCompression(v, v.initial(block), start, treeMode, fed, t0, t1);
      Compress(buf[..]);
    }

    /** memset(buf + len, 0, BLOCKSIZE - len). */
    method ZeroTail()
      requires len <= buf.Length
      modifies buf
      ensures buf[..] == Padded(old(buf[..len]), buf.Length)
    {
      for i := len to buf.Length
        invariant buf[..len] == old(buf[..len])
        invariant forall k :: len <= k < i ==> buf[k] == 0
      {
        buf[i] := 0;
      }
    }
  }

  lemma {:induction false} LastCompression<H>(v: Variant<H>, h0: H, start: nat, treeMode: bool, m: seq<byte>, t0: nat,
      t1: nat)
    requires IsVariant(v) && Counters(t0, t1, start + |m|, v.wordModulus)
    ensures var n := LastStart(v.blockSize, |m|);
            Final(v, h0, start, treeMode, m)
            == v.compress(Chain(v, h0, start, m, n), Padded(m[n..], v.blockSize), t0, t1,
                          v.wordModulus - 1, if treeMode then v.wordModulus - 1 else 0)
  {
  }

  lemma {:induction false} PieceOfJoined(a: seq<byte>, b: seq<byte>, pos: nat, n: nat)
    requires pos + n <= |b|
    ensures (a + b)[|a| + pos..|a| + pos + n] == b[pos..pos + n]
  {
  }

  lemma {:induction false} WholeStart(blockSize: nat, n: nat, length: nat, len: nat)
    requires blockSize > 0 && Whole(blockSize, n) && length == n + len && len <= blockSize && (len == 0 ==> length == 0)
    ensures LastStart(blockSize, length) == n
  {
    WholeIsLastStart(blockSize, n, length);
  }

  lemma {:induction false} NothingAbsorbed<H>(v: Variant<H>, h: H, counter0: nat, counter1: nat)
    requires IsVariant(v) && counter0 < v.wordModulus && counter1 < v.wordModulus
    ensures counter1 * v.wordModulus + counter0 >= 0
    ensures Chain(v, h, counter1 * v.wordModulus + counter0, [], 0) == h && Whole(v.blockSize, 0)
    ensures Counters(counter0, counter1, counter1 * v.wordModulus + counter0, v.wordModulus)
  {
    DivModUnique(counter1 * v.wordModulus + counter0, v.wordModulus, counter1, counter0);
    DivModUnique(counter1, v.wordModulus, 0, counter1);
  }

  // ---- section 3.3 of RFC 7693, with its block numbering ----

  function Ceiling(a: nat, b: nat): nat
    requires b > 0
  {
    (a + b - 1) / b
  }

  /** dd: the blocks of the key and of the data, at least one. */
  function BlockTotal(bb: nat, kk: nat, ll: nat): (dd: nat)
    requires bb > 0
    ensures dd > 0
  {
    CeilingOf(kk, bb);
    CeilingOf(ll, bb);
    if kk == 0 && ll == 0 then 1 else Ceiling(kk, bb) + Ceiling(ll, bb)
  }

  /** d[i] of the padded input: the key block first when there is a key, then the data blocks. */
  ghost function InputBlock(bb: nat, m: seq<byte>, i: nat): seq<byte>
    requires bb > 0
  {
    if (i + 1) * bb <= |m| && i * bb >= 0 then m[(i + 1) * bb - bb..(i + 1) * bb]
    else if 0 <= i * bb <= |m| && |m| - i * bb <= bb then Padded(m[i * bb..], bb)
    else []
  }

  /** Its bytes are those of the input from i * bb on, then zeros. */
  lemma {:induction false} InputBlockByte(bb: nat, m: seq<byte>, i: nat, j: nat)
    requires bb > 0 && 0 <= i * bb <= |m| && j < bb
    ensures |InputBlock(bb, m, i)| == bb
    ensures InputBlock(bb, m, i)[j] == if i * bb + j < |m| then m[i * bb + j] else 0
  {
    MulDistributes(bb, i, 1);
    if (i + 1) * bb > |m| { PaddedMeans(m[i * bb..], bb, j); }
  }

  /** The chaining value before block i. */
  ghost function RfcState<H>(v: Variant<H>, h0: H, m: seq<byte>, i: nat): H
    requires IsVariant(v)
  {
    if i == 0 then h0
    else CompressAt(v, RfcState(v, h0, m, i - 1), InputBlock(v.blockSize, m, i - 1), i * v.blockSize, 0, 0)
  }

  /** BLAKE2 as the RFC states it: kk key bytes, ll data bytes, dd blocks, the last with offset ll or ll + bb. */
  ghost function RfcHash<H>(v: Variant<H>, h0: H, keyBlock: seq<byte>, data: seq<byte>): H
    requires IsVariant(v)
  {
    var bb, kk, ll := v.blockSize, |keyBlock|, |data|;
    var dd, m := BlockTotal(bb, kk, ll), keyBlock + data;
    CompressAt(v, RfcState(v, h0, m, dd - 1), InputBlock(bb, m, dd - 1), if kk == 0 then ll else ll + bb, v.wordModulus - 1, 0)
  }

  /** What TruncatedFinal returns outside tree mode is the RFC's hash of the key block and the data. */
  lemma {:induction false} FinalIsRfc<H>(v: Variant<H>, h0: H, keyBlock: seq<byte>, data: seq<byte>)
    requires IsVariant(v) && (|keyBlock| == 0 || |keyBlock| == v.blockSize)
    ensures Final(v, h0, 0, false, keyBlock + data) == RfcHash(v, h0, keyBlock, data)
  {
    hide CompressAt, Chain, RfcState, BlockTotal, LastStart, Padded;
    var bb, m := v.blockSize, keyBlock + data;
    var dd := BlockTotal(bb, |keyBlock|, |data|);
    BlockCount(bb, |keyBlock|, |data|);
    LastStartIsMultiple(bb, |m|, dd - 1);
    LastBlock(bb, m, dd - 1);
    ChainIsRfcState(v, h0, m, dd - 1);
  }

  lemma {:induction false} LastBlock(bb: nat, m: seq<byte>, i: nat)
    requires bb > 0 && 0 <= i * bb <= |m| <= i * bb + bb
    ensures InputBlock(bb, m, i) == Padded(m[i * bb..], bb)
  {
  }

  lemma {:induction false} CeilingOf(a: nat, b: nat)
    requires b > 0
    ensures a <= Ceiling(a, b) * b < a + b
    ensures Ceiling(0, b) == 0 && Ceiling(b, b) == 1
    ensures a > 0 ==> Ceiling(a, b) > 0
  {
    var q, r := (a + b - 1) / b, (a + b - 1) % b;
    assert a + b - 1 == q * b + r;
    DivModUnique(b - 1, b, 0, b - 1);
    DivModUnique(b + b - 1, b, 1, b - 1);
    assert q == 0 ==> q * b == 0;
  }

  /** dd - 1 blocks end where the last block starts. */
  lemma {:induction false} BlockCount(bb: nat, kk: nat, ll: nat)
    requires bb > 0 && (kk == 0 || kk == bb)
    ensures var dd := BlockTotal(bb, kk, ll);
            (dd - 1) * bb <= kk + ll <= dd * bb == (dd - 1) * bb + bb && (kk + ll > 0 ==> (dd - 1) * bb < kk + ll)
  {
    CeilingOf(kk, bb);
    CeilingOf(ll, bb);
    var dd := BlockTotal(bb, kk, ll);
    MulDistributes(bb, Ceiling(kk, bb), Ceiling(ll, bb));
    MulDistributes(bb, dd, 1);
  }

  lemma {:induction false} LastStartIsMultiple(bb: nat, length: nat, k: nat)
    requires bb > 0 && k * bb <= length <= k * bb + bb && (length > 0 ==> k * bb < length) && (length == 0 ==> k == 0)
    ensures LastStart(bb, length) == k * bb
  {
    if k > 0 {
      MulDistributes(bb, k, 1);
      MulMonotone(bb, 1, k);
      LastStartIsMultiple(bb, length - bb, k - 1);
    }
  }

  lemma {:induction false} ChainIsRfcState<H>(v: Variant<H>, h0: H, m: seq<byte>, i: nat)
    requires IsVariant(v) && 0 <= i * v.blockSize <= |m|
    ensures Chain(v, h0, 0, m, i * v.blockSize) == RfcState(v, h0, m, i)
  {
    if i > 0 {
      MulDistributes(v.blockSize, i, 1);
      MulMonotone(v.blockSize, 1, i);
      ChainIsRfcState(v, h0, m, i - 1);
    }
  }
}
