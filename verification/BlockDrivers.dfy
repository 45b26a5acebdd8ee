/** The six/two/one and four/one block drivers of adv_simd.h, proved to write what a loop over single blocks writes.
    The kernels act on each block separately: F is the cipher they apply. */
module BlockDrivers {
  import opened Arithmetic
  import opened CbcMac

  datatype Flags = Flags(inBlockIsCounter: bool, dontIncrement: bool, reverse: bool, allowParallel: bool, xorInput: bool)

  /** Byte 15 counted on, without carry: _mm_add_epi32 of 1 << 24 in the last lane, times n. */
  function Bump(b: Block, n: nat): Block {
    b[15 := (b[15] + n) % 256]
  }

  /** The increment of a byte. */
  function NextByte(v: byte): byte {
    ((v as nat) + 1) % 256
  }

  lemma {:induction false} BumpTwice(b: Block, m: nat, n: nat)
    ensures Bump(Bump(b, m), n) == Bump(b, m + n)
  {
  }

  function Put(s: seq<byte>, at: nat, b: Block): (r: seq<byte>)
    requires at + 16 <= |s|
    ensures |r| == |s|
  {
    s[..at] + b + s[at + 16..]
  }

  /** Where block i lies: pointers that do not move stay where they start. */
  function Offset(fixed: bool, reverse: bool, length: nat, i: nat): (p: nat)
    requires i < length / 16
    ensures p + 16 <= length
  {
    if reverse then (if fixed then length - 16 else length - 16 - 16 * i) else if fixed then 0 else 16 * i
  }

  function Increment(fixed: bool, reverse: bool): int {
    if fixed then 0 else if reverse then -16 else 16
  }

  lemma {:induction false} NextOffset(fixed: bool, reverse: bool, length: nat, i: nat)
    requires i + 1 < length / 16
    ensures Offset(fixed, reverse, length, i + 1) == Offset(fixed, reverse, length, i) + Increment(fixed, reverse)
  {
  }

  /** Where the pointers of a call point: the place in each array. */
  datatype Origin = Origin(input: nat, mask: nat, output: nat)

  /** One call: the cipher, the flags, and what the three arrays hold before it. `chained` says that input and output
      are one block that stays in place, so that every block takes in the one before. */
  datatype Job = Job(F: Cipher, flags: Flags, hasXor: bool, length: nat, from: Origin,
                     input: seq<byte>, mask: seq<byte>, output: seq<byte>, chained: bool)
  {
    function Count(): nat { length / 16 }

    predicate InFixed() { flags.inBlockIsCounter || flags.dontIncrement }

    /** The regions are as long as the flags make the pointers reach. */
    ghost predicate Fits() {
      && !(flags.inBlockIsCounter && flags.reverse)
      && (Count() > 0 ==>
           && from.input + (if InFixed() && !flags.reverse then 16 else length) <= |input|
           && (hasXor ==> from.mask + length <= |mask|)
           && from.output + (if flags.dontIncrement && !flags.reverse then 16 else length) <= |output|)
    }

    function InOffset(i: nat): nat
      requires i < Count()
    {
      from.input + Offset(InFixed(), flags.reverse, length, i)
    }

    function MaskOffset(i: nat): nat
      requires i < Count()
    {
      from.mask + Offset(false, flags.reverse, length, i)
    }

    function OutOffset(i: nat): nat
      requires i < Count()
    {
      from.output + Offset(flags.dontIncrement, flags.reverse, length, i)
    }

    ghost function InBlock(i: nat): Block
      requires Fits() && i < Count()
      decreases i, 0
    {
      var b := input[InOffset(i)..InOffset(i) + 16];
      if flags.inBlockIsCounter then Bump(b, i) else if chained && i > 0 then OutBlock(i - 1) else b
    }

    ghost function MaskBlock(i: nat): Block
      requires Fits() && hasXor && i < Count()
    {
      mask[MaskOffset(i)..MaskOffset(i) + 16]
    }

    /** The cipher's argument and result for block i. */
    ghost function Before(i: nat): Block
      requires Fits() && i < Count()
      decreases i, 1
    {
      if hasXor && flags.xorInput then XorBlock(InBlock(i), MaskBlock(i)) else InBlock(i)
    }

    ghost function OutBlock(i: nat): Block
      requires Fits() && i < Count()
      decreases i, 2
    {
      if hasXor && !flags.xorInput then XorBlock(F(Before(i)), MaskBlock(i)) else F(Before(i))
    }

    /** The output region after the first k blocks, one at a time. */
    ghost function Result(k: nat): (r: seq<byte>)
      requires Fits() && k <= Count()
      ensures |r| == |output|
    {
      if k == 0 then output else Put(Result(k - 1), OutOffset(k - 1), OutBlock(k - 1))
    }

    /** The input region after them: only a counter changes. */
    ghost function InputAfter(k: nat): (r: seq<byte>)
      requires Fits() && k <= Count()
      ensures |r| == |input|
    {
      if flags.inBlockIsCounter && Count() > 0 then
        Put(input, from.input, Bump(input[from.input..from.input + 16], k))
      else input
    }
  }

  /** Blocks not reached yet are as they were. */
  lemma {:induction false} Untouched(job: Job, k: nat, i: nat)
    requires job.Fits() && !job.flags.dontIncrement && k <= i < job.Count()
    ensures job.Result(k)[job.OutOffset(i)..job.OutOffset(i) + 16] == job.output[job.OutOffset(i)..job.OutOffset(i) + 16]
  {
    hide Job.OutBlock;
    if k > 0 {
      Untouched(job, k - 1, i);
      PutElsewhere(job.Result(k - 1), job.OutOffset(k - 1), job.OutBlock(k - 1), job.OutOffset(i));
    }
  }

  lemma {:induction false} PutElsewhere(s: seq<byte>, at: nat, b: Block, other: nat)
    requires at + 16 <= |s| && other + 16 <= |s| && (other + 16 <= at || at + 16 <= other)
    ensures Put(s, at, b)[other..other + 16] == s[other..other + 16]
  {
  }

  lemma {:induction false} PutHere(s: seq<byte>, at: nat, b: Block)
    requires at + 16 <= |s|
    ensures Put(s, at, b)[at..at + 16] == b
  {
  }

  /** Block by block: every block of the output is the one for its input, and the rest is as it was; if the pointers
      do not move, the last block is left. */
  lemma {:induction false} ResultAt(job: Job, k: nat, i: nat)
    requires job.Fits() && i < k <= job.Count() && (job.flags.dontIncrement ==> i == k - 1)
    ensures job.Result(k)[job.OutOffset(i)..job.OutOffset(i) + 16] == job.OutBlock(i)
  {
    hide Job.OutBlock;
    var b := job.OutBlock(k - 1);
    if i == k - 1 {
      PutHere(job.Result(k - 1), job.OutOffset(i), b);
    } else {
      ResultAt(job, k - 1, i);
      PutElsewhere(job.Result(k - 1), job.OutOffset(k - 1), b, job.OutOffset(i));
    }
  }

  /** Outside the blocks the output is as it was, if the pointers move forwards. */
  lemma {:induction false} ResultOutside(job: Job, k: nat)
    requires job.Fits() && !job.flags.dontIncrement && !job.flags.reverse && 0 < k <= job.Count()
    ensures job.Result(k)[..job.from.output] == job.output[..job.from.output]
    ensures job.Result(k)[job.from.output + 16 * k..] == job.output[job.from.output + 16 * k..]
  {
    hide Job.OutBlock;
    if k > 1 { ResultOutside(job, k - 1); }
    PutOutside(job.Result(k - 1), job.OutOffset(k - 1), job.OutBlock(k - 1), job.from.output);
    if k > 1 {
      assert job.Result(k - 1)[job.from.output + 16 * (k - 1)..][16..] == job.output[job.from.output + 16 * (k - 1)..][16..];
    }
  }

  lemma {:induction false} PutOutside(s: seq<byte>, at: nat, b: Block, from: nat)
    requires from <= at && at + 16 <= |s|
    ensures Put(s, at, b)[..from] == s[..from] && Put(s, at, b)[at + 16..] == s[at + 16..]
  {
  }

  /** If the pointers do not move, nothing but one block changes. */
  lemma {:induction false} ResultOutsideFixed(job: Job, k: nat)
    requires job.Fits() && job.flags.dontIncrement && !job.flags.reverse && k <= job.Count() && 0 < job.Count()
    ensures job.Result(k)[..job.from.output] == job.output[..job.from.output]
    ensures job.Result(k)[job.from.output + 16..] == job.output[job.from.output + 16..]
  {
    hide Job.OutBlock;
    if k > 0 {
      ResultOutsideFixed(job, k - 1);
      PutOutside(job.Result(k - 1), job.OutOffset(k - 1), job.OutBlock(k - 1), job.from.output);
    }
  }

  /** The counter advances by the number of blocks modulo 256, in byte 15 alone. */
  lemma {:induction false} CounterAdvances(job: Job, k: nat, i: nat)
    requires job.Fits() && job.flags.inBlockIsCounter && job.Count() > 0 && k <= job.Count() && i < |job.input|
    ensures job.InputAfter(k)[i] == if i == job.from.input + 15 then (job.input[i] + k) % 256 else job.input[i]
  {
  }

  // ---- what the regions hold between steps ----

  /** outS is the output so far, inS the input, maskS the mask; a region that is the output region shares its changes. */
  ghost predicate Reached(job: Job, done: nat, inS: seq<byte>, maskS: seq<byte>, outS: seq<byte>, inIsOut: bool,
      maskIsOut: bool)
    requires job.Fits() && done <= job.Count()
  {
    && outS == job.Result(done)
    && (if inIsOut then inS == outS else inS == job.InputAfter(done))
    && (job.hasXor ==> if maskIsOut then maskS == outS else maskS == job.mask)
  }

  /** Regions may be shared exactly: block by block, each read before it is written, or as one block that stays in
      place and is chained, which a wide turn does not do. A mask in the array of the output may also lie apart. */
  ghost predicate Separate(job: Job, inIsOut: bool, maskIsOut: bool) {
    && (inIsOut ==> !job.flags.inBlockIsCounter && job.input == job.output && job.from.input == job.from.output)
    && job.chained == (inIsOut && job.flags.dontIncrement) && (job.chained ==> !job.flags.allowParallel)
    && (job.hasXor && maskIsOut ==>
         job.mask == job.output && (Apart(job) || (!job.flags.dontIncrement && job.from.mask == job.from.output)))
  }

  /** The mask region and the output region do not meet. */
  ghost predicate Apart(job: Job) {
    || job.from.mask + job.length <= job.from.output
    || job.from.output + (if job.flags.dontIncrement && !job.flags.reverse then 16 else job.length) <= job.from.mask
  }

  lemma {:induction false} UntouchedMask(job: Job, k: nat, i: nat)
    requires job.Fits() && job.hasXor && job.mask == job.output && Apart(job) && k <= job.Count() && i < job.Count()
    ensures job.Result(k)[job.MaskOffset(i)..job.MaskOffset(i) + 16] == job.MaskBlock(i)
  {
    hide Job.OutBlock;
    if k > 0 {
      UntouchedMask(job, k - 1, i);
      PutElsewhere(job.Result(k - 1), job.OutOffset(k - 1), job.OutBlock(k - 1), job.MaskOffset(i));
    }
  }

  /** The chained block so far is the last one put out. */
  lemma {:induction false} ChainedBlock(job: Job, k: nat)
    requires job.Fits() && job.chained && job.flags.dontIncrement && !job.flags.inBlockIsCounter && k < job.Count()
    requires job.input == job.output && job.from.input == job.from.output
    ensures job.Result(k)[job.InOffset(k)..job.InOffset(k) + 16] == job.InBlock(k)
  {
  }

  /** Chained with the mask mixed into the input, the block that is left is the CBC-MAC of the mask. */
  lemma {:induction false} ChainIsCbc(job: Job, k: nat)
    requires job.Fits() && job.chained && job.flags.dontIncrement && !job.flags.inBlockIsCounter && k <= job.Count()
    requires job.input == job.output && job.from.input == job.from.output && 0 < job.Count()
    requires job.hasXor && job.flags.xorInput && !job.flags.reverse
    ensures var at := job.from.output;
            job.Result(k)[at..at + 16]
              == Cbc(job.F, job.input[at..at + 16], job.mask[job.from.mask..job.from.mask + 16 * k])
  {
    hide XorBlock, Cbc, Job.Result, Job.OutBlock, Job.InBlock, Job.MaskBlock, Job.Before;
    var at, m := job.from.output, job.from.mask;
    NothingChained(job);
    if k > 0 {
      ChainIsCbc(job, k - 1);
      ChainedBlock(job, k - 1);
      ResultAt(job, k, k - 1);
      ChainStep(job, k - 1);
      CbcOneMore(job.F, job.input[at..at + 16], job.mask[m..m + 16 * k]);
      SlicesOfMask(job, k);
    }
  }

  lemma {:induction false} NothingChained(job: Job)
    requires job.Fits() && job.input == job.output && job.from.output + 16 <= |job.output|
    ensures job.Result(0) == job.output
    ensures Cbc(job.F, job.input[job.from.output..job.from.output + 16], []) == job.input[job.from.output..job.from.output + 16]
  {
  }

  lemma {:induction false} ChainStep(job: Job, i: nat)
    requires job.Fits() && job.hasXor && job.flags.xorInput && i < job.Count()
    ensures job.OutBlock(i) == job.F(XorBlock(job.InBlock(i), job.MaskBlock(i)))
  {
  }

  lemma {:induction false} CbcOneMore(E: Cipher, start: Block, d: seq<byte>)
    requires |d| % 16 == 0 && |d| >= 16
    ensures Cbc(E, start, d) == E(XorBlock(Cbc(E, start, d[..|d| - 16]), d[|d| - 16..]))
  {
  }

  lemma {:induction false} SlicesOfMask(job: Job, k: nat)
    requires job.Fits() && job.hasXor && !job.flags.reverse && 0 < k <= job.Count()
    ensures var m := job.from.mask;
            var d := job.mask[m..m + 16 * k];
            d[..|d| - 16] == job.mask[m..m + 16 * (k - 1)] && d[|d| - 16..] == job.MaskBlock(k - 1)
  {
  }

  ghost predicate InputReady(job: Job, done: nat, inS: seq<byte>)
    requires job.Fits() && |inS| == |job.input|
  {
    forall i :: done <= i < job.Count() ==>
      inS[job.InOffset(i)..job.InOffset(i) + 16]
        == job.InBlock(if job.flags.inBlockIsCounter || job.chained then done else i)
  }

  ghost predicate MaskReady(job: Job, done: nat, maskS: seq<byte>)
    requires job.Fits() && |maskS| == |job.mask|
  {
    job.hasXor ==> forall i :: done <= i < job.Count() ==> maskS[job.MaskOffset(i)..job.MaskOffset(i) + 16] == job.MaskBlock(i)
  }

  lemma {:induction false} RegionsReady(job: Job, done: nat, inS: seq<byte>, maskS: seq<byte>, outS: seq<byte>,
      inIsOut: bool, maskIsOut: bool)
    requires job.Fits() && done <= job.Count() && Reached(job, done, inS, maskS, outS, inIsOut, maskIsOut)
    requires Separate(job, inIsOut, maskIsOut)
    requires |inS| == |job.input| && |maskS| == |job.mask|
    ensures InputReady(job, done, inS) && MaskReady(job, done, maskS)
  {
    hide Job.Result, Job.InputAfter, Job.InBlock, Job.MaskBlock, Apart;
    forall i | done <= i < job.Count()
      ensures inS[job.InOffset(i)..job.InOffset(i) + 16]
        == job.InBlock(if job.flags.inBlockIsCounter || job.chained then done else i)
    {
      InputBlockNow(job, done, i, inIsOut, maskIsOut);
    }
    forall i | job.hasXor && done <= i < job.Count()
      ensures maskS[job.MaskOffset(i)..job.MaskOffset(i) + 16] == job.MaskBlock(i)
    {
      MaskBlockNow(job, done, i, inIsOut, maskIsOut);
    }
  }

  lemma {:induction false} InputBlockNow(job: Job, done: nat, i: nat, inIsOut: bool, maskIsOut: bool)
    requires job.Fits() && done <= i < job.Count() && Separate(job, inIsOut, maskIsOut)
    ensures var inS := if inIsOut then job.Result(done) else job.InputAfter(done);
            inS[job.InOffset(i)..job.InOffset(i) + 16]
              == job.InBlock(if job.flags.inBlockIsCounter || job.chained then done else i)
  {
    hide Job.Result, Job.InputAfter;
    if job.chained {
      ChainedBlock(job, done);
    } else if inIsOut {
      Untouched(job, done, i);
    } else {
      CounterBlockNow(job, done, i);
    }
  }

  lemma {:induction false} MaskBlockNow(job: Job, done: nat, i: nat, inIsOut: bool, maskIsOut: bool)
    requires job.Fits() && done <= i < job.Count() && Separate(job, inIsOut, maskIsOut) && job.hasXor
    ensures var maskS := if maskIsOut then job.Result(done) else job.mask;
            job.MaskOffset(i) + 16 <= |maskS| && maskS[job.MaskOffset(i)..job.MaskOffset(i) + 16] == job.MaskBlock(i)
  {
    hide Job.Result, Apart;
    if maskIsOut {
      if Apart(job) { UntouchedMask(job, done, i); } else { Untouched(job, done, i); }
    }
  }

  lemma {:induction false} CounterBlockNow(job: Job, done: nat, i: nat)
    requires job.Fits() && done <= i < job.Count() && (job.chained ==> job.flags.inBlockIsCounter)
    ensures job.InputAfter(done)[job.InOffset(i)..job.InOffset(i) + 16]
      == job.InBlock(if job.flags.inBlockIsCounter then done else i)
  {
  }

  // ---- the steps of a wide turn: load, exclusive or, kernel, exclusive or, store ----

  /** Loads count blocks from count places. */
  method LoadBlocks(ghost job: Job, ghost done: nat, inBlocks: array<byte>, inPos: int, inIncrement: int, count: nat)
    returns (blocks: seq<Block>, inPos': int)
    requires job.Fits() && 0 < count && done + count <= job.Count()
    requires !job.flags.inBlockIsCounter && !job.chained
    requires inBlocks.Length == |job.input| && InputReady(job, done, inBlocks[..])
    requires inPos == job.InOffset(done) && inIncrement == Increment(job.InFixed(), job.flags.reverse)
    ensures |blocks| == count && forall j :: 0 <= j < count ==> blocks[j] == job.InBlock(done + j)
    ensures done + count < job.Count() ==> inPos' == job.InOffset(done + count)
  {
    hide Offset, Increment, Job.InBlock, InputReady;
    blocks, inPos' := [], inPos;
    while |blocks| < count
      invariant |blocks| <= count
      invariant forall j :: 0 <= j < |blocks| ==> blocks[j] == job.InBlock(done + j)
      invariant done + |blocks| < job.Count() ==> inPos' == job.InOffset(done + |blocks|)
    {
      ghost var i := done + |blocks|;
      ReadyAt(job, done, inBlocks[..], i);
      blocks := blocks + [inBlocks[..][inPos'..inPos' + 16]];
      inPos' := inPos' + inIncrement;
      if i + 1 < job.Count() { NextOffset(job.InFixed(), job.flags.reverse, job.length, i); }
    }
  }

  lemma {:induction false} ReadyAt(job: Job, done: nat, inS: seq<byte>, i: nat)
    requires job.Fits() && |inS| == |job.input| && InputReady(job, done, inS)
    requires done <= i < job.Count() && !job.flags.inBlockIsCounter && !job.chained
    ensures job.InOffset(i) + 16 <= |inS| && inS[job.InOffset(i)..job.InOffset(i) + 16] == job.InBlock(i)
  {
  }

  /** Reads the counter block once, counts on in the registers and writes the next counter back. */
  method LoadCounters(ghost job: Job, ghost done: nat, inBlocks: array<byte>, inPos: int,
      count: nat) returns (blocks: seq<Block>)
    requires job.Fits() && 0 < count && done + count <= job.Count() && job.flags.inBlockIsCounter
    requires inBlocks[..] == job.InputAfter(done) && inPos == job.InOffset(done)
    modifies inBlocks
    ensures |blocks| == count && forall j :: 0 <= j < count ==> blocks[j] == job.InBlock(done + j)
    ensures inBlocks[..] == job.InputAfter(done + count)
    ensures done + count < job.Count() ==> inPos == job.InOffset(done + count)
  {
    hide Offset, Bump, Job.InBlock, Job.InputAfter, Put;
    CounterPlace(job, done);
    assert inBlocks[..][inPos..inPos + 16] == inBlocks[inPos..inPos + 16];
    blocks := [inBlocks[inPos..inPos + 16]];
    while |blocks| < count
      invariant 0 < |blocks| <= count
      invariant forall j :: 0 <= j < |blocks| ==> blocks[j] == job.InBlock(done + j)
      invariant inBlocks[..] == job.InputAfter(done)
    {
      CountedOn(job, done, |blocks|);
      assert blocks[|blocks| - 1] == job.InBlock(done + (|blocks| - 1));
      blocks := blocks + [Bump(blocks[|blocks| - 1], 1)];
    }
    CounterStored(job, done, count);
    assert blocks[count - 1] == job.InBlock(done + (count - 1));
    StoreBlock(inBlocks, inPos, Bump(blocks[count - 1], 1));
    if done + count < job.Count() { CounterPlace(job, done + count); }
  }

  /** _mm_storeu_si128. */
  method StoreBlock(region: array<byte>, at: int, b: Block)
    requires 0 <= at && at + 16 <= region.Length
    modifies region
    ensures region[..] == Put(old(region[..]), at, b)
  {
    for i := 0 to 16
      invariant forall k :: 0 <= k < region.Length ==> region[k] == if at <= k < at + i then b[k - at] else old(region[k])
    {
      region[at + i] := b[i];
    }
  }

  /** The exclusive or with count mask blocks. */
  method XorBlocks(ghost job: Job, ghost done: nat, mask: array<byte>, maskPos: int, maskIncrement: int,
      blocks: seq<Block>)
    returns (blocks': seq<Block>, maskPos': int)
    requires job.Fits() && job.hasXor && 0 < |blocks| && done + |blocks| <= job.Count()
    requires mask.Length == |job.mask| && MaskReady(job, done, mask[..])
    requires maskPos == job.MaskOffset(done) && maskIncrement == Increment(false, job.flags.reverse)
    ensures |blocks'| == |blocks|
    ensures forall j :: 0 <= j < |blocks| ==> blocks'[j] == XorBlock(blocks[j], job.MaskBlock(done + j))
    ensures done + |blocks| < job.Count() ==> maskPos' == job.MaskOffset(done + |blocks|)
  {
    hide Offset, XorBlock;
    blocks', maskPos' := [], maskPos;
    while |blocks'| < |blocks|
      invariant |blocks'| <= |blocks|
      invariant forall j :: 0 <= j < |blocks'| ==> blocks'[j] == XorBlock(blocks[j], job.MaskBlock(done + j))
      invariant done + |blocks'| < job.Count() ==> maskPos' == job.MaskOffset(done + |blocks'|)
    {
      ghost var i := done + |blocks'|;
      assert mask[..][maskPos'..maskPos' + 16] == job.MaskBlock(i);
      blocks' := blocks' + [XorBlock(blocks[|blocks'|], mask[maskPos'..maskPos' + 16])];
      maskPos' := maskPos' + maskIncrement;
      if i + 1 < job.Count() { NextOffset(false, job.flags.reverse, job.length, i); }
    }
  }

  /** Stores count blocks, one after the other. */
  method StoreBlocks(ghost job: Job, ghost done: nat, outBlocks: array<byte>, outPos: int, outIncrement: int,
      blocks: seq<Block>)
    returns (outPos': int)
    requires job.Fits() && 0 < |blocks| && done + |blocks| <= job.Count()
    requires outBlocks[..] == job.Result(done)
    requires outPos == job.OutOffset(done) && outIncrement == Increment(job.flags.dontIncrement, job.flags.reverse)
    requires forall j :: 0 <= j < |blocks| ==> blocks[j] == job.OutBlock(done + j)
    modifies outBlocks
    ensures outBlocks[..] == job.Result(done + |blocks|)
    ensures done + |blocks| < job.Count() ==> outPos' == job.OutOffset(done + |blocks|)
  {
    hide Offset, Job.OutBlock, Put;
    outPos' := outPos;
    var j: nat := 0;
    while j < |blocks|
      invariant j <= |blocks| && outBlocks[..] == job.Result(done + j)
      invariant done + j < job.Count() ==> outPos' == job.OutOffset(done + j)
    {
      ghost var i := done + j;
      OutRange(job, i);
      StoreBlock(outBlocks, outPos', blocks[j]);
      outPos' := outPos' + outIncrement;
      j := j + 1;
      if i + 1 < job.Count() { NextOffset(job.flags.dontIncrement, job.flags.reverse, job.length, i); }
    }
  }

  lemma {:induction false} CounterPlace(job: Job, i: nat)
    requires job.Fits() && job.flags.inBlockIsCounter && i < job.Count()
    ensures job.InOffset(i) == job.from.input && job.from.input + 16 <= |job.input|
    ensures job.InputAfter(i)[job.from.input..job.from.input + 16] == job.InBlock(i)
  {
  }

  lemma {:induction false} CountedOn(job: Job, done: nat, j: nat)
    requires job.Fits() && job.flags.inBlockIsCounter && done + j < job.Count()
    ensures j > 0 ==> Bump(job.InBlock(done + j - 1), 1) == job.InBlock(done + j)
  {
    hide Bump;
    if j > 0 { BumpTwice(job.input[job.from.input..job.from.input + 16], done + j - 1, 1); }
  }

  lemma {:induction false} CounterStored(job: Job, done: nat, count: nat)
    requires job.Fits() && job.flags.inBlockIsCounter && 0 < count && done + count <= job.Count()
    ensures Put(job.InputAfter(done), job.from.input, Bump(job.InBlock(done + count - 1), 1)) == job.InputAfter(done + count)
  {
    hide Bump;
    BumpTwice(job.input[job.from.input..job.from.input + 16], done + count - 1, 1);
  }

  lemma {:induction false} OutRange(job: Job, i: nat)
    requires job.Fits() && i < job.Count()
    ensures job.OutOffset(i) + 16 <= |job.output|
  {
  }

  // ---- whole turns ----

  /** The three pointers. */
  datatype Places = Places(inPos: int, maskPos: int, outPos: int)

  ghost predicate PlacesAt(job: Job, done: nat, p: Places) {
    done < job.Count() ==>
      && p.inPos == job.InOffset(done) && p.outPos == job.OutOffset(done)
      && (job.hasXor ==> p.maskPos == job.MaskOffset(done))
  }

  /** A call's regions: what may be shared, and that they are the job's. */
  ghost predicate Regions(job: Job, inBlocks: array<byte>, mask: array<byte>, outBlocks: array<byte>) {
    && job.Fits() && Separate(job, inBlocks == outBlocks, mask == outBlocks)
    && (job.flags.inBlockIsCounter && job.hasXor ==> mask != inBlocks)
    && inBlocks.Length == |job.input| && mask.Length == |job.mask| && outBlocks.Length == |job.output|
  }

  ghost predicate Standing(job: Job, done: nat, inBlocks: array<byte>, mask: array<byte>, outBlocks: array<byte>)
    requires job.Fits() && done <= job.Count()
    reads inBlocks, mask, outBlocks
  {
    Reached(job, done, inBlocks[..], mask[..], outBlocks[..], inBlocks == outBlocks, mask == outBlocks)
  }

  /** The kernel on each block of the group. */
  function Kernel(F: Cipher, blocks: seq<Block>): (r: seq<Block>)
    ensures |r| == |blocks| && forall j :: 0 <= j < |blocks| ==> r[j] == F(blocks[j])
  {
    seq(|blocks|, j requires 0 <= j < |blocks| => F(blocks[j]))
  }

  /** The body of a wide loop, for a group of `width` blocks. */
  method WideTurn(ghost job: Job, ghost done: nat, F: Cipher, flags: Flags, hasXor: bool, inBlocks: array<byte>,
      mask: array<byte>, outBlocks: array<byte>, p: Places, width: nat) returns (p': Places)
    requires Regions(job, inBlocks, mask, outBlocks) && flags.allowParallel && 0 < width && done + width <= job.Count()
    requires job.F == F && job.flags == flags && job.hasXor == hasXor
    requires PlacesAt(job, done, p) && Standing(job, done, inBlocks, mask, outBlocks)
    modifies inBlocks, outBlocks
    ensures PlacesAt(job, done + width, p') && Standing(job, done + width, inBlocks, mask, outBlocks)
  {
    hide Offset, Increment, Job.InBlock, Job.MaskBlock, Job.Result, Job.InputAfter, InputReady, MaskReady, XorBlock,
      Job.Fits;
    RegionsReady(job, done, inBlocks[..], mask[..], outBlocks[..], inBlocks == outBlocks, mask == outBlocks);
    var blocks, inPos', maskPos' := [], p.inPos, p.maskPos;
    if flags.inBlockIsCounter {
      blocks := LoadCounters(job, done, inBlocks, p.inPos, width);
    } else {
      SameIncrement(job);
      blocks, inPos' := LoadBlocks(job, done, inBlocks, p.inPos, InStep(flags), width);
    }
    if hasXor && flags.xorInput {
      blocks, maskPos' := XorBlocks(job, done, mask, p.maskPos, Increment(false, flags.reverse), blocks);
    }
    blocks := Kernel(F, blocks);
    if hasXor && !flags.xorInput {
      blocks, maskPos' := XorBlocks(job, done, mask, p.maskPos, Increment(false, flags.reverse), blocks);
    }
    var outPos' := StoreBlocks(job, done, outBlocks, p.outPos, Increment(flags.dontIncrement, flags.reverse), blocks);
    InputStays(job, done, width);
    p' := Places(inPos', maskPos', outPos');
  }

  /** inIncrement. */
  function InStep(flags: Flags): int {
    Increment(flags.inBlockIsCounter || flags.dontIncrement, flags.reverse)
  }

  lemma {:induction false} SameIncrement(job: Job)
    ensures InStep(job.flags) == Increment(job.InFixed(), job.flags.reverse)
  {
  }

  lemma {:induction false} InputStays(job: Job, done: nat, width: nat)
    requires job.Fits() && done + width <= job.Count()
    ensures !job.flags.inBlockIsCounter ==> job.InputAfter(done + width) == job.InputAfter(done)
  {
  }

  /** The body of the last loop: one block, all three pointers moved at the end. */
  method NarrowTurn(ghost job: Job, ghost done: nat, F: Cipher, flags: Flags, hasXor: bool, inBlocks: array<byte>,
      mask: array<byte>, outBlocks: array<byte>, p: Places) returns (p': Places)
    requires Regions(job, inBlocks, mask, outBlocks) && done < job.Count()
    requires job.F == F && job.flags == flags && job.hasXor == hasXor
    requires PlacesAt(job, done, p) && Standing(job, done, inBlocks, mask, outBlocks)
    modifies inBlocks, outBlocks
    ensures PlacesAt(job, done + 1, p') && Standing(job, done + 1, inBlocks, mask, outBlocks)
  {
    hide Offset, Job.InBlock, Job.MaskBlock, Job.InputAfter, XorBlock, InputReady, MaskReady, Job.Fits, Put;
    RegionsReady(job, done, inBlocks[..], mask[..], outBlocks[..], inBlocks == outBlocks, mask == outBlocks);
    BlocksReady(job, done, inBlocks[..], mask[..]);
    var block: Block := inBlocks[..][p.inPos..p.inPos + 16];
    if hasXor && flags.xorInput {
      block := XorBlock(block, mask[..][p.maskPos..p.maskPos + 16]);
    }
    assert block == job.Before(done);
    if flags.inBlockIsCounter {
      OneMoreCounter(job, done);
      ghost var before := inBlocks[..];
      inBlocks[p.inPos + 15] := NextByte(inBlocks[p.inPos + 15]);
      assert inBlocks[..] == before[p.inPos + 15 := NextByte(before[p.inPos + 15])];
    }
    block := F(block);
    if hasXor && !flags.xorInput {
      block := XorBlock(block, mask[..][p.maskPos..p.maskPos + 16]);
    }
    OutRange(job, done);
    StoreBlock(outBlocks, p.outPos, block);
    InputStays(job, done, 1);
    p' := Places(p.inPos + InStep(flags), p.maskPos + (if hasXor then Increment(false, flags.reverse) else 0),
                 p.outPos + Increment(flags.dontIncrement, flags.reverse));
    NextPlaces(job, done);
  }

  lemma {:induction false} BlocksReady(job: Job, done: nat, inS: seq<byte>, maskS: seq<byte>)
    requires job.Fits() && done < job.Count() && |inS| == |job.input| && |maskS| == |job.mask|
    requires InputReady(job, done, inS) && MaskReady(job, done, maskS)
    ensures job.InOffset(done) + 16 <= |inS| && inS[job.InOffset(done)..job.InOffset(done) + 16] == job.InBlock(done)
    ensures job.hasXor ==> job.MaskOffset(done) + 16 <= |maskS|
    ensures job.hasXor ==> maskS[job.MaskOffset(done)..job.MaskOffset(done) + 16] == job.MaskBlock(done)
  {
  }

  lemma {:induction false} OneMoreCounter(job: Job, done: nat)
    requires job.Fits() && job.flags.inBlockIsCounter && done < job.Count()
    ensures job.InOffset(done) == job.from.input && job.from.input + 16 <= |job.input|
    ensures var s, p := job.InputAfter(done), job.from.input + 15; s[p := NextByte(s[p])] == job.InputAfter(done + 1)
  {
  }

  lemma {:induction false} NextPlaces(job: Job, done: nat)
    requires done + 1 < job.Count() || done + 1 == job.Count()
    ensures done + 1 < job.Count() ==>
      && job.InOffset(done + 1) == job.InOffset(done) + InStep(job.flags)
      && job.MaskOffset(done + 1) == job.MaskOffset(done) + Increment(false, job.flags.reverse)
      && job.OutOffset(done + 1) == job.OutOffset(done) + Increment(job.flags.dontIncrement, job.flags.reverse)
  {
  }

  // ---- the drivers ----

  ghost function JobOf(F: Cipher, flags: Flags, hasXor: bool, length: nat, from: Origin, inBlocks: array<byte>,
      mask: array<byte>, outBlocks: array<byte>): Job
    reads inBlocks, mask, outBlocks
  {
    Job(F, flags, hasXor, length, from, inBlocks[..], mask[..], outBlocks[..],
        inBlocks == outBlocks && flags.dontIncrement)
  }

  /** AdvancedProcessBlocks128_6x2_SSE. hasXor says whether xorBlocks is given. */
  method AdvancedProcessBlocks6x2(F: Cipher, inBlocks: array<byte>, xorBlocks: array<byte>, hasXor: bool,
      outBlocks: array<byte>, from: Origin, length: nat, flags: Flags) returns (left: nat)
    requires Regions(JobOf(F, flags, hasXor, length, from, inBlocks, xorBlocks, outBlocks), inBlocks, xorBlocks, outBlocks)
    modifies inBlocks, outBlocks
    ensures left == length % 16
    ensures var job := old(JobOf(F, flags, hasXor, length, from, inBlocks, xorBlocks, outBlocks));
            && outBlocks[..] == job.Result(job.Count())
            && (inBlocks != outBlocks ==> inBlocks[..] == job.InputAfter(job.Count()))
  {
    hide Regions, Standing, Reached, PlacesAt, Job.Result, Job.InputAfter, Offset;
    ghost var job, done: nat := JobOf(F, flags, hasXor, length, from, inBlocks, xorBlocks, outBlocks), 0;
    var start := if flags.reverse then length - 16 else 0;
    var p := Places(from.input + start, from.mask + start, from.output + start);
    AtStart(job, inBlocks, xorBlocks, outBlocks, p);
    left := length;
    if flags.allowParallel {
      while left >= 96
        invariant job.Fits() && left == length - 16 * done && done <= job.Count()
        invariant PlacesAt(job, done, p) && Standing(job, done, inBlocks, xorBlocks, outBlocks)
      {
        p := WideTurn(job, done, F, flags, hasXor, inBlocks, xorBlocks, outBlocks, p, 6);
        left, done := left - 96, done + 6;
      }
      while left >= 32
        invariant job.Fits() && left == length - 16 * done && done <= job.Count()
        invariant PlacesAt(job, done, p) && Standing(job, done, inBlocks, xorBlocks, outBlocks)
      {
        p := WideTurn(job, done, F, flags, hasXor, inBlocks, xorBlocks, outBlocks, p, 2);
        left, done := left - 32, done + 2;
      }
    }
    while left >= 16
      invariant job.Fits() && left == length - 16 * done && done <= job.Count()
      invariant PlacesAt(job, done, p) && Standing(job, done, inBlocks, xorBlocks, outBlocks)
    {
      p := NarrowTurn(job, done, F, flags, hasXor, inBlocks, xorBlocks, outBlocks, p);
      left, done := left - 16, done + 1;
    }
    AtEnd(job, inBlocks, xorBlocks, outBlocks);
  }

  /** AdvancedProcessBlocks128_4x1_SSE. */
  method AdvancedProcessBlocks4x1(F: Cipher, inBlocks: array<byte>, xorBlocks: array<byte>, hasXor: bool,
      outBlocks: array<byte>, from: Origin, length: nat, flags: Flags) returns (left: nat)
    requires Regions(JobOf(F, flags, hasXor, length, from, inBlocks, xorBlocks, outBlocks), inBlocks, xorBlocks, outBlocks)
    modifies inBlocks, outBlocks
    ensures left == length % 16
    ensures var job := old(JobOf(F, flags, hasXor, length, from, inBlocks, xorBlocks, outBlocks));
            && outBlocks[..] == job.Result(job.Count())
            && (inBlocks != outBlocks ==> inBlocks[..] == job.InputAfter(job.Count()))
  {
    hide Regions, Standing, Reached, PlacesAt, Job.Result, Job.InputAfter, Offset;
    ghost var job, done: nat := JobOf(F, flags, hasXor, length, from, inBlocks, xorBlocks, outBlocks), 0;
    var start := if flags.reverse then length - 16 else 0;
    var p := Places(from.input + start, from.mask + start, from.output + start);
    AtStart(job, inBlocks, xorBlocks, outBlocks, p);
    left := length;
    if flags.allowParallel {
      while left >= 64
        invariant job.Fits() && left == length - 16 * done && done <= job.Count()
        invariant PlacesAt(job, done, p) && Standing(job, done, inBlocks, xorBlocks, outBlocks)
      {
        p := WideTurn(job, done, F, flags, hasXor, inBlocks, xorBlocks, outBlocks, p, 4);
        left, done := left - 64, done + 4;
      }
    }
    while left >= 16
      invariant job.Fits() && left == length - 16 * done && done <= job.Count()
      invariant PlacesAt(job, done, p) && Standing(job, done, inBlocks, xorBlocks, outBlocks)
    {
      p := NarrowTurn(job, done, F, flags, hasXor, inBlocks, xorBlocks, outBlocks, p);
      left, done := left - 16, done + 1;
    }
    AtEnd(job, inBlocks, xorBlocks, outBlocks);
  }

  lemma {:induction false} AtStart(job: Job, inBlocks: array<byte>, mask: array<byte>, outBlocks: array<byte>, p: Places)
    requires Regions(job, inBlocks, mask, outBlocks)
    requires job.input == inBlocks[..] && job.mask == mask[..] && job.output == outBlocks[..]
    requires var start := if job.flags.reverse then job.length - 16 else 0;
             p == Places(job.from.input + start, job.from.mask + start, job.from.output + start)
    ensures job.Fits() && PlacesAt(job, 0, p) && Standing(job, 0, inBlocks, mask, outBlocks)
  {
  }

  lemma {:induction false} AtEnd(job: Job, inBlocks: array<byte>, mask: array<byte>, outBlocks: array<byte>)
    requires job.Fits() && Standing(job, job.Count(), inBlocks, mask, outBlocks)
    ensures outBlocks[..] == job.Result(job.Count())
    ensures inBlocks != outBlocks ==> inBlocks[..] == job.InputAfter(job.Count())
  {
  }
}
