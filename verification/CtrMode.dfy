/** CTR_ModePolicy (modes.cpp): a 128-bit counter kept by drivers that only count in its last byte. */
module CtrMode {
  import opened Arithmetic
  import opened ByteStrings
  import opened CbcMac
  import opened BlockDrivers

  // ---- the counter as a number ----

  /** Adding to a number that was written and read back: only the bytes kept matter. */
  lemma {:induction false} AddThenRewrite(v: nat, b: nat, k: nat)
    ensures BigEndian(Value(0, BigEndian(v, k)) + b, k) == BigEndian(v + b, k)
  {
    hide BigEndian, Value;
    if k == 0 {
      NoBytes(Value(0, BigEndian(v, k)) + b, v + b);
    } else {
      var q, r := v / 256, v % 256;
      var x := Value(0, BigEndian(q, k - 1));
      ValueOfWritten(v, k);
      SumHalves(x, r, b);
      SumHalves(q, r, b);
      AddThenRewrite(q, (r + b) / 256, k - 1);
      LastWritten(x * 256 + r + b, k);
      LastWritten(v + b, k);
    }
  }

  lemma {:induction false} NoBytes(v: nat, w: nat)
    ensures BigEndian(v, 0) == BigEndian(w, 0)
  {
  }

  lemma {:induction false} LastWritten(v: nat, k: nat)
    requires k > 0
    ensures BigEndian(v, k) == BigEndian(v / 256, k - 1) + [v % 256]
  {
  }

  lemma {:induction false} ValueOfWritten(v: nat, k: nat)
    requires k > 0
    ensures Value(0, BigEndian(v, k)) == Value(0, BigEndian(v / 256, k - 1)) * 256 + v % 256
  {
    var s := BigEndian(v, k);
    assert s[..k - 1] == BigEndian(v / 256, k - 1) && s[k - 1] == v % 256;
  }

  lemma {:induction false} SumHalves(x: nat, r: nat, b: nat)
    ensures (x * 256 + r + b) / 256 == x + (r + b) / 256 && (x * 256 + r + b) % 256 == (r + b) % 256
  {
  }

  lemma {:induction false} CounterAdd(iv: Block, a: nat, b: nat)
    ensures CounterBlock(CounterBlock(iv, a), b) == CounterBlock(iv, a + b)
  {
    AddThenRewrite(Value(0, iv) + a, b, 16);
  }

  /** The last byte counts alone until it is full, and then the bytes before it count one on. */
  lemma {:induction false} LastByteCounts(c: Block, k: nat)
    requires c[15] + k <= 256
    ensures c[15] + k < 256 ==> CounterBlock(c, k) == Bump(c, k)
    ensures c[15] + k == 256 ==> CounterBlock(c, k) == BigEndian(Value(0, c[..15]) + 1, 15) + [0]
  {
    hide Value, BigEndian;
    ValueOfLast(c);
    LastWritten(Value(0, c) + k, 16);
    if c[15] + k < 256 {
      BigEndianOfNumber(c[..15]);
      assert Bump(c, k) == c[..15] + [c[15] + k];
    }
  }

  lemma {:induction false} ValueOfLast(c: Block)
    ensures Value(0, c) == Value(0, c[..15]) * 256 + c[15]
  {
  }

  // ---- the policy ----

  /** The keystream block at a counter, or its exclusive or with an input block. */
  function KeyBlock(E: Cipher, start: Block, i: nat): Block {
    E(CounterBlock(start, i))
  }

  ghost function Wanted(E: Cipher, start: Block, input: seq<byte>, hasInput: bool, i: nat): Block
    requires hasInput ==> 16 * (i + 1) <= |input|
  {
    if hasInput then XorBlock(KeyBlock(E, start, i), input[16 * i..16 * i + 16]) else KeyBlock(E, start, i)
  }

  /** The first n blocks of out are keystream from start on. */
  ghost predicate Emitted(E: Cipher, start: Block, input: seq<byte>, hasInput: bool, out: seq<byte>, n: nat)
    requires 16 * n <= |out| && (hasInput ==> 16 * n <= |input|)
  {
    forall i: nat :: i < n ==> out[16 * i..16 * i + 16] == Wanted(E, start, input, hasInput, i)
  }

  lemma {:induction false} NothingEmitted(E: Cipher, start: Block, input: seq<byte>, hasInput: bool, out: seq<byte>)
    ensures Emitted(E, start, input, hasInput, out, 0)
  {
  }

  lemma {:induction false} WholeBlock(c: Block, n: nat)
    ensures Put(c, 0, Bump(c[0..16], n)) == Bump(c, n)
  {
  }

  /** What the driver adds to the output. */
  lemma {:induction false} BatchEmitted(E: Cipher, start: Block, from: seq<byte>, hasInput: bool, job: Job, c: Block,
      done: nat, blocks: nat, out: seq<byte>)
    requires job.F == E && job.flags == Flags(true, false, false, true, false) && job.hasXor == hasInput
    requires job.length == 16 * blocks && job.from == Origin(0, 16 * done, 16 * done) && job.input == c && job.Fits()
    requires 0 < blocks && c[15] + blocks <= 256 && c == CounterBlock(start, done)
    requires |from| == |job.mask| && (hasInput ==> 16 * (done + blocks) <= |from| && job.mask[16 * done..] == from[16 * done..])
    requires Emitted(E, start, from, hasInput, job.output, done) && out == job.Result(blocks)
    ensures |out| == |job.output| && Emitted(E, start, from, hasInput, out, done + blocks)
    ensures out[16 * (done + blocks)..] == job.output[16 * done..][16 * blocks..]
  {
    hide CounterBlock, Job.Result, Job.OutBlock, Job.InBlock, Job.Before, Job.MaskBlock, XorBlock, Bump, Wanted;
    ResultOutside(job, blocks);
    assert job.output[16 * done..][16 * blocks..] == job.output[16 * (done + blocks)..];
    forall i: nat | i < done + blocks ensures out[16 * i..16 * i + 16] == Wanted(E, start, from, hasInput, i) {
      if i < done {
        SliceOfFront(out, 16 * done, 16 * i);
        SliceOfFront(job.output, 16 * done, 16 * i);
      } else {
        ResultAt(job, blocks, i - done);
        BlockWanted(E, start, from, hasInput, job, c, done, i - done);
      }
    }
  }

  lemma {:induction false} SliceOfFront(s: seq<byte>, n: nat, at: nat)
    requires at + 16 <= n <= |s|
    ensures s[..n][at..at + 16] == s[at..at + 16]
  {
  }

  lemma {:induction false} BlockWanted(E: Cipher, start: Block, from: seq<byte>, hasInput: bool, job: Job, c: Block,
      done: nat, j: nat)
    requires job.F == E && job.flags == Flags(true, false, false, true, false) && job.hasXor == hasInput
    requires job.from == Origin(0, 16 * done, 16 * done) && job.input == c && job.Fits() && j < job.Count()
    requires c[15] + j < 256 && c == CounterBlock(start, done)
    requires |from| == |job.mask| && (hasInput ==> 16 * (done + j + 1) <= |from| && job.mask[16 * done..] == from[16 * done..])
    ensures job.OutOffset(j) == 16 * (done + j) && job.OutBlock(j) == Wanted(E, start, from, hasInput, done + j)
  {
    hide CounterBlock, BigEndian, Value, XorBlock, Bump;
    assert c[0..16] == c;
    LastByteCounts(c, j);
    CounterAdd(start, done, j);
    assert job.InBlock(j) == Bump(c, j);
    assert job.Before(j) == job.InBlock(j);
    if hasInput {
      var p := 16 * (done + j);
      assert job.mask[16 * done..][16 * j..16 * j + 16] == job.mask[p..p + 16];
      assert from[16 * done..][16 * j..16 * j + 16] == from[p..p + 16];
    }
  }

  class CtrPolicy {
    const E: Cipher
    const register: array<byte>        // the initial counter
    const counterArray: array<byte>    // the current one

    ghost predicate Valid() {
      register.Length == 16 == counterArray.Length && register != counterArray
    }

    constructor (E: Cipher)
      ensures Valid() && fresh(register) && fresh(counterArray) && this.E == E
    {
      this.E := E;
      register := new byte[16](_ => 0);
      counterArray := new byte[16](_ => 0);
    }

    method CipherResynchronize(iv: Block)
      requires Valid()
      modifies register, counterArray
      ensures register[..] == iv == counterArray[..]
    {
      forall i | 0 <= i < 16 { register[i] := iv[i]; }
      forall i | 0 <= i < 16 { counterArray[i] := iv[i]; }
    }

    /** The byte-wise addition lands on the counter that many blocks after the first. */
    method SeekToIteration(iterationCount: nat)
      requires Valid() && iterationCount < TWO64
      modifies counterArray
      ensures register[..] == old(register[..])
      ensures counterArray[..] == CounterBlock(register[..], iterationCount)
    {
      hide BigEndian, Value;
      var carry: nat, rest: nat, i: nat := 0, iterationCount, 16;
      ghost var iv: Block := register[..];
      EmptyEnd(iv, iterationCount);
      while i > 0
        invariant i <= 16 && carry <= 1 && register[..] == iv
        invariant CounterBlock(iv, iterationCount) == BigEndian(Value(0, iv[..i]) + rest + carry, i) + counterArray[i..]
      {
        i := i - 1;
        var sum := (register[i] as nat) + rest % 256 + carry;
        ByteAdded(iv, i, rest, carry);
        ghost var tail := counterArray[i + 1..];
        counterArray[i] := sum % 256;
        assert counterArray[i..] == [sum % 256] + tail;
        carry := sum / 256;
        rest := rest / 256;
      }
      NothingBefore(Value(0, iv[..0]) + rest + carry);
      assert counterArray[0..] == counterArray[..];
    }

    /** IncrementCounterByOne over all but the last byte. */
    method IncrementCounterBy256()
      requires Valid()
      modifies counterArray
      ensures register[..] == old(register[..])
      ensures counterArray[..] == BigEndian(Value(0, old(counterArray[..15])) + 1, 15) + [old(counterArray[15])]
    {
      hide BigEndian, Value;
      ghost var c: Block := counterArray[..];
      var i: nat, carry: nat := 15, 1;
      AllAhead(c);
      while i > 0 && carry == 1
        invariant i <= 15 && carry <= 1 && counterArray[..i] == c[..i] && register[..] == old(register[..])
        invariant BigEndian(Value(0, c[..15]) + 1, 15) + [c[15]] == BigEndian(Value(0, c[..i]) + carry, i) + counterArray[i..]
      {
        i := i - 1;
        OneByteOn(c, i);
        assert counterArray[..i + 1][i] == c[i] && counterArray[..i] == counterArray[..i + 1][..i];
        ghost var tail := counterArray[i + 1..];
        counterArray[i] := NextByte(counterArray[i]);
        assert counterArray[i..] == [counterArray[i]] + tail;
        carry := if counterArray[i] == 0 then 1 else 0;
      }
      BigEndianOfNumber(c[..i]);
      if i == 0 { NothingBefore(Value(0, c[..0]) + carry); }
      assert counterArray[..] == counterArray[..i] + counterArray[i..];
    }

    /** iterationCount blocks of keystream, exclusive-or'd with the input if there is one, which may be the output
        itself: block i is for the counter i after the present one, modulo 2^128. */
    method OperateKeystream(sixWide: bool, output: array<byte>, input: array<byte>, hasInput: bool, iterationCount: nat)
      requires Valid() && 16 * iterationCount <= output.Length && (hasInput ==> 16 * iterationCount <= input.Length)
      requires output != counterArray && input != counterArray && output != register
      modifies counterArray, output
      ensures counterArray[..] == CounterBlock(old(counterArray[..]), iterationCount)
      ensures Emitted(E, old(counterArray[..]), old(input[..]), hasInput, output[..], iterationCount)
      ensures output[16 * iterationCount..] == old(output[16 * iterationCount..])
    {
      hide CounterBlock, Emitted;
      ghost var start: Block, from := counterArray[..], input[..];
      var done: nat, left: nat := 0, iterationCount;
      CounterZero(start);
      NothingEmitted(E, start, from, hasInput, output[..]);
      while left > 0
        invariant done + left == iterationCount
        invariant counterArray[..] == CounterBlock(start, done)
        invariant Emitted(E, start, from, hasInput, output[..], done)
        invariant output[16 * done..] == old(output[16 * done..])
        invariant input != output ==> input[..] == from
      {
        var lsb: nat := counterArray[15];
        var blocks: nat := if left <= 256 - lsb then left else 256 - lsb;
        Batch(sixWide, output, input, hasInput, done, blocks, start, from);
        assert old(output[16 * done..])[16 * blocks..] == old(output[16 * (done + blocks)..]);
        done, left := done + blocks, left - blocks;
      }
    }

    /** One turn of the loop: the driver for as many blocks as the last byte has room for, then the carry. */
    method Batch(sixWide: bool, output: array<byte>, input: array<byte>, hasInput: bool, done: nat, blocks: nat,
        ghost start: Block, ghost from: seq<byte>)
      requires Valid() && 16 * (done + blocks) <= output.Length && (hasInput ==> 16 * (done + blocks) <= input.Length)
      requires output != counterArray && input != counterArray && output != register
      requires 0 < blocks && counterArray[15] + blocks <= 256 && counterArray[..] == CounterBlock(start, done)
      requires |from| == input.Length && Emitted(E, start, from, hasInput, output[..], done)
      requires hasInput ==> input[16 * done..] == from[16 * done..]
      modifies counterArray, output
      ensures counterArray[..] == CounterBlock(start, done + blocks)
      ensures Emitted(E, start, from, hasInput, output[..], done + blocks)
      ensures output[16 * (done + blocks)..] == old(output[16 * done..])[16 * blocks..]
    {
      hide CounterBlock, Emitted, BigEndian, Value, Bump;
      ghost var c: Block := counterArray[..];
      var lsb: nat := counterArray[15];
      Drive(sixWide, output, input, hasInput, done, blocks, start, from);
      BumpIsLast(c, blocks);
      counterArray[15] := (lsb + blocks) % 256;
      assert counterArray[..] == Bump(c, blocks);
      LastByteCounts(c, blocks);
      if counterArray[15] == 0 {
        assert counterArray[..15] == c[..15];
        IncrementCounterBy256();
      }
      CounterAdd(start, done, blocks);
    }

    /** The driver call: only the last byte of the counter moves. */
    method Drive(sixWide: bool, output: array<byte>, input: array<byte>, hasInput: bool, done: nat, blocks: nat,
        ghost start: Block, ghost from: seq<byte>)
      requires Valid() && 16 * (done + blocks) <= output.Length && (hasInput ==> 16 * (done + blocks) <= input.Length)
      requires output != counterArray && input != counterArray && output != register
      requires 0 < blocks && counterArray[15] + blocks <= 256 && counterArray[..] == CounterBlock(start, done)
      requires |from| == input.Length && Emitted(E, start, from, hasInput, output[..], done)
      requires hasInput ==> input[16 * done..] == from[16 * done..]
      modifies counterArray, output
      ensures counterArray[..] == Bump(old(counterArray[..]), blocks)
      ensures Emitted(E, start, from, hasInput, output[..], done + blocks)
      ensures output[16 * (done + blocks)..] == old(output[16 * done..])[16 * blocks..]
    {
      hide CounterBlock, Emitted, Job.Result, Job.OutBlock, Job.InBlock, Job.Before, Job.MaskBlock, Bump, XorBlock;
      ghost var c: Block := counterArray[..];
      var flags := Flags(true, false, false, true, false);
      var place := Origin(0, 16 * done, 16 * done);
      ghost var job := JobOf(E, flags, hasInput, 16 * blocks, place, counterArray, input, output);
      var left;
      if sixWide {
        left := AdvancedProcessBlocks6x2(E, counterArray, input, hasInput, output, place, 16 * blocks, flags);
      } else {
        left := AdvancedProcessBlocks4x1(E, counterArray, input, hasInput, output, place, 16 * blocks, flags);
      }
      BatchEmitted(E, start, from, hasInput, job, c, done, blocks, output[..]);
      WholeBlock(c, blocks);
    }
  }

  lemma {:induction false} BumpIsLast(c: Block, n: nat)
    ensures Bump(c, n) == c[15 := ((c[15] as nat) + n) % 256]
  {
  }

  lemma {:induction false} EmptyEnd(iv: Block, n: nat)
    ensures iv[..16] == iv && CounterBlock(iv, n) == BigEndian(Value(0, iv[..16]) + n + 0, 16) + []
  {
  }

  lemma {:induction false} NothingBefore(v: nat)
    ensures BigEndian(v, 0) == []
  {
  }

  /** One turn of the addition. */
  lemma {:induction false} ByteAdded(iv: Block, i: nat, rest: nat, carry: nat)
    requires i < 16 && carry <= 1
    ensures var sum := (iv[i] as nat) + rest % 256 + carry;
            && sum / 256 <= 1
            && BigEndian(Value(0, iv[..i + 1]) + rest + carry, i + 1)
               == BigEndian(Value(0, iv[..i]) + rest / 256 + sum / 256, i) + [sum % 256]
  {
    var sum, x := (iv[i] as nat) + rest % 256 + carry, Value(0, iv[..i]);
    assert iv[..i + 1][..i] == iv[..i] && iv[..i + 1][i] == iv[i];
    assert Value(0, iv[..i + 1]) == x * 256 + iv[i];
    var v := x * 256 + iv[i] + rest + carry;
    assert v == (x + rest / 256) * 256 + sum + 0;
    SumHalves(x + rest / 256, sum, 0);
  }

  lemma {:induction false} AllAhead(c: Block)
    ensures BigEndian(Value(0, c[..15]) + 1, 15) + [c[15]] == BigEndian(Value(0, c[..15]) + 1, 15) + c[15..]
  {
  }

  lemma {:induction false} OneByteOn(c: Block, i: nat)
    requires i < 15
    ensures BigEndian(Value(0, c[..i + 1]) + 1, i + 1)
      == BigEndian(Value(0, c[..i]) + (if NextByte(c[i]) == 0 then 1 else 0), i) + [NextByte(c[i])]
  {
    var x := Value(0, c[..i]);
    assert c[..i + 1][..i] == c[..i] && c[..i + 1][i] == c[i];
    SumHalves(x, c[i], 1);
  }

  /** From block k on, what OperateKeystream writes over an input is the byte stream XorStream from position 16k. */
  lemma {:induction false} EmittedIsStream(E: Cipher, iv: Block, k: nat, input: seq<byte>, out: seq<byte>, n: nat)
    requires 16 * n <= |out| && 16 * n <= |input| && Emitted(E, CounterBlock(iv, k), input, true, out, n)
    ensures out[..16 * n] == XorStream(E, iv, 16 * k, input[..16 * n])
  {
    hide CounterBlock, Emitted, Xor;
    forall p: nat | p < 16 * n ensures out[p] == XorStream(E, iv, 16 * k, input[..16 * n])[p] {
      var i, j := p / 16, p % 16;
      EmittedAt(E, CounterBlock(iv, k), input, out, n, i);
      assert out[p] == out[16 * i..16 * i + 16][j] && input[p] == input[16 * i..16 * i + 16][j];
      CounterAdd(iv, k, i);
      assert (16 * k + p) / 16 == k + i && (16 * k + p) % 16 == j;
      XorCommutes(input[p], E(CounterBlock(iv, k + i))[j]);
    }
  }

  /** Set to a counter, moved to block k and run over n blocks, the cipher gives bytes 16 * k on of the stream. */
  method ProcessFrom(E: Cipher, iv: Block, k: nat, sixWide: bool, input: array<byte>, output: array<byte>, n: nat)
    requires k < TWO64 && 16 * n <= input.Length && 16 * n <= output.Length
    modifies output
    ensures output[..16 * n] == XorStream(E, iv, 16 * k, old(input[..])[..16 * n])
    ensures output[16 * n..] == old(output[16 * n..])
  {
    hide CounterBlock, Emitted;
    var policy := new CtrPolicy(E);
    policy.CipherResynchronize(iv);
    policy.SeekToIteration(k);
    policy.OperateKeystream(sixWide, output, input, true, n);
    EmittedIsStream(E, iv, k, old(input[..]), output[..], n);
    assert output[..][..16 * n] == output[..16 * n];
  }

  lemma {:induction false} EmittedAt(E: Cipher, start: Block, input: seq<byte>, out: seq<byte>, n: nat, i: nat)
    requires 16 * n <= |out| && 16 * n <= |input| && Emitted(E, start, input, true, out, n) && i < n
    ensures out[16 * i..16 * i + 16] == XorBlock(E(CounterBlock(start, i)), input[16 * i..16 * i + 16])
  {
    hide CounterBlock, XorBlock;
    assert Wanted(E, start, input, true, i) == XorBlock(KeyBlock(E, start, i), input[16 * i..16 * i + 16]);
  }
}
