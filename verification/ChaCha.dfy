/** ChaCha keystream batching and seeking (chacha.cpp). The block function is a parameter. */
module ChaChaKeystream {
  import opened Arithmetic

  const BYTES_PER_ITERATION: nat := 64

  type Words = s: seq<nat> | |s| == 16 witness seq(16, _ => 0)
  type Block = s: seq<byte> | |s| == 64 witness seq(64, _ => 0)

  ghost predicate WellFormed(s: Words) {
    forall i :: 0 <= i < 16 ==> s[i] < TWO32
  }

  /** The state k blocks later. ChaCha counts in words 12 and 13, modulo 2^64; in ChaChaTLS word 13 belongs
      to the nonce, and only word 12 counts, modulo 2^32. */
  function Later(s: Words, tls: bool, k: nat): Words {
    if tls then s[12 := (s[12] + k) % TWO32]
    else
      var c := (s[13] * TWO32 + s[12] + k) % TWO64;
      s[12 := c % TWO32][13 := c / TWO32]
  }

  lemma {:induction false} LaterZero(s: Words, tls: bool)
    requires WellFormed(s)
    ensures Later(s, tls, 0) == s
  {
    CounterWords(s[13], s[12]);
    Unchanged(s);
  }

  lemma {:induction false} CounterWords(high: nat, low: nat)
    requires high < TWO32 && low < TWO32
    ensures high * TWO32 + low < TWO64
    ensures (high * TWO32 + low) / TWO32 == high && (high * TWO32 + low) % TWO32 == low
  {
    DivModUnique(high * TWO32 + low, TWO32, high, low);
  }

  lemma {:induction false} Unchanged(s: Words)
    ensures s[12 := s[12]] == s == s[13 := s[13]]
  {
  }

  lemma {:induction false} LaterAdd(s: Words, tls: bool, j: nat, k: nat)
    requires WellFormed(s)
    ensures Later(Later(s, tls, j), tls, k) == Later(s, tls, j + k)
    ensures WellFormed(Later(s, tls, j))
  {
    if tls {
      ModThenAdd(s[12] + j, k, TWO32);
    } else {
      var x := s[13] * TWO32 + s[12];
      var c := (x + j) % TWO64;
      ModThenAdd(x + j, k, TWO64);
      assert Later(s, tls, j)[13] * TWO32 + Later(s, tls, j)[12] == c;
    }
  }

  function MultiBlockSafe(ctrLow: nat, blocks: nat): bool {
    0xffff_ffff - ctrLow > blocks
  }

  /** While the guard holds, the low word alone carries the count. */
  lemma {:induction false} NoCarry(s: Words, tls: bool, blocks: nat, k: nat)
    requires WellFormed(s) && MultiBlockSafe(s[12], blocks) && k <= blocks
    ensures Later(s, tls, k) == s[12 := s[12] + k]
    ensures s[12] + k < TWO32
  {
    CounterWords(s[13], s[12] + k);
    Unchanged(s[12 := s[12] + k]);
    SmallRemainders(s[13] * TWO32 + s[12] + k, s[12] + k);
  }

  lemma {:induction false} SmallRemainders(c: nat, low: nat)
    requires c < TWO64 && low < TWO32
    ensures c % TWO64 == c && low % TWO32 == low
  {
  }

  /** One step of the scalar code: increment the low word and carry into the high word, if there is one. */
  lemma {:induction false} CarryStep(s: Words, tls: bool)
    requires WellFormed(s)
    ensures Later(s, tls, 1) ==
            var low := (s[12] + 1) % TWO32;
            if low == 0 && !tls then s[12 := low][13 := (s[13] + 1) % TWO32] else s[12 := low]
  {
  }

  /** Byte i of the output: keystream, combined with the message when there is one. */
  function OutputByte(core: Words -> Block, s: Words, tls: bool, input: seq<byte>, xorInput: bool, i: nat): byte
    requires xorInput ==> i < |input|
  {
    var key := core(Later(s, tls, i / 64))[i % 64];
    if xorInput then Xor(input[i], key) else key
  }

  /** Byte j of block b is byte j of the keystream block for the b-th counter from the start. */
  lemma {:induction false} OutputByteAt(core: Words -> Block, s: Words, tls: bool, input: seq<byte>, xorInput: bool,
      b: nat, j: nat)
    requires j < 64 && (xorInput ==> 64 * b + j < |input|)
    ensures OutputByte(core, s, tls, input, xorInput, 64 * b + j) ==
            if xorInput then Xor(input[64 * b + j], core(Later(s, tls, b))[j]) else core(Later(s, tls, b))[j]
  {
    hide Later, Xor;
  }

  /** Output positions [from, to) hold what the stream started at s says. */
  ghost predicate Emitted(core: Words -> Block, s: Words, tls: bool, input: seq<byte>, xorInput: bool,
      output: seq<byte>, from: nat, to: nat)
    requires to <= |output| && (xorInput ==> to <= |input|)
  {
    forall i :: from <= i < to ==> output[i] == OutputByte(core, s, tls, input, xorInput, i)
  }

  /** Writes one block at `pos`, as the output macro does for the state in use. */
  method WriteBlock(core: Words -> Block, state: Words, input: seq<byte>, xorInput: bool, output: array<byte>, pos: nat)
    requires pos + 64 <= output.Length && (xorInput ==> pos + 64 <= |input|)
    modifies output
    ensures forall i :: 0 <= i < 64 ==>
              output[pos + i] == if xorInput then Xor(input[pos + i], core(state)[i]) else core(state)[i]
    ensures output[..pos] == old(output[..pos]) && output[pos + 64..] == old(output[pos + 64..])
  {
    hide Xor;
    var key := core(state);
    for i := 0 to 64
      invariant forall k :: 0 <= k < i ==>
                  output[pos + k] == if xorInput then Xor(input[pos + k], key[k]) else key[k]
      invariant output[..pos] == old(output[..pos]) && output[pos + 64..] == old(output[pos + 64..])
    {
      output[pos + i] := if xorInput then Xor(input[pos + i], key[i]) else key[i];
    }
  }

  /** A block of the stream lands in its place. */
  lemma {:induction false} BlockEmitted(core: Words -> Block, s: Words, tls: bool, input: seq<byte>, xorInput: bool,
      output: seq<byte>, output': seq<byte>, n: nat)
    requires |output'| == |output| && 64 * n + 64 <= |output| && (xorInput ==> |output| <= |input|)
    requires Emitted(core, s, tls, input, xorInput, output, 0, 64 * n)
    requires output'[..64 * n] == output[..64 * n]
    requires forall i :: 0 <= i < 64 ==>
               output'[64 * n + i] == (var key := core(Later(s, tls, n))[i]; if xorInput then Xor(input[64 * n + i], key) else key)
    ensures Emitted(core, s, tls, input, xorInput, output', 0, 64 * (n + 1))
  {
    hide Xor, Later;
    forall i | 0 <= i < 64 * (n + 1)
      ensures output'[i] == OutputByte(core, s, tls, input, xorInput, i)
    {
      if i < 64 * n {
        assert output'[i] == output'[..64 * n][i] == output[..64 * n][i] == output[i];
      } else {
        assert i == 64 * n + (i - 64 * n);
      }
    }
  }

  /** A SIMD kernel: `width` blocks for consecutive values of the low counter word. */
  method WideKernel(core: Words -> Block, state: Words, width: nat, input: seq<byte>, xorInput: bool,
      output: array<byte>, n: nat,
      ghost s: Words, ghost tls: bool)
    requires WellFormed(s) && state == Later(s, tls, n) && MultiBlockSafe(state[12], width)
    requires 64 * (n + width) <= output.Length && (xorInput ==> output.Length <= |input|)
    requires Emitted(core, s, tls, input, xorInput, output[..], 0, 64 * n)
    modifies output
    ensures Emitted(core, s, tls, input, xorInput, output[..], 0, 64 * (n + width))
    ensures output[64 * (n + width)..] == old(output[64 * (n + width)..])
  {
    hide Emitted, Later, Xor, MultiBlockSafe;
    for k := 0 to width
      invariant Emitted(core, s, tls, input, xorInput, output[..], 0, 64 * (n + k))
      invariant output[64 * (n + width)..] == old(output[64 * (n + width)..])
    {
      LaterAdd(s, tls, n, k);
      NoCarry(state, tls, width, k);
      ghost var before := output[..];
      WriteBlock(core, state[12 := state[12] + k], input, xorInput, output, 64 * (n + k));
      BlockEmitted(core, s, tls, input, xorInput, before, output[..], n + k);
      assert output[64 * (n + width)..] == output[64 * (n + k) + 64..][64 * (width - k - 1)..];
    }
  }

  /** The SIMD code paths compiled in and available at run time. */
  datatype Features = Features(avx2: bool, sse2: bool, neon: bool, altivec: bool)

  /** One `while (iterationCount >= width && MultiBlockSafe(...))` loop. */
  method WideLoop(core: Words -> Block, state: array<nat>, available: bool, width: nat, input: seq<byte>, xorInput: bool,
      output: array<byte>, done: nat, count: nat, ghost s: Words, ghost tls: bool) returns (done': nat, count': nat)
    requires state.Length == 16 && width > 0
    requires WellFormed(s) && state[..] == Later(s, tls, done)
    requires 64 * (done + count) == output.Length && (xorInput ==> output.Length <= |input|)
    requires Emitted(core, s, tls, input, xorInput, output[..], 0, 64 * done)
    modifies state, output
    ensures done' + count' == done + count && done' >= done
    ensures state[..] == Later(s, tls, done')
    ensures Emitted(core, s, tls, input, xorInput, output[..], 0, 64 * done')
  {
    hide Emitted, Later, MultiBlockSafe;
    done', count' := done, count;
    if available {
      while count' >= width && MultiBlockSafe(state[12], width)
        invariant done' + count' == done + count && done' >= done
        invariant state[..] == Later(s, tls, done')
        invariant Emitted(core, s, tls, input, xorInput, output[..], 0, 64 * done')
        decreases count'
      {
        ghost var now := state[..];
        LaterAdd(s, tls, done', width);
        NoCarry(now, tls, width, width);
        WideKernel(core, state[..], width, input, xorInput, output, done', s, tls);
        state[12] := state[12] + width;
        assert state[..] == now[12 := now[12] + width];
        done', count' := done' + width, count' - width;
      }
    }
  }

  /** The scalar step: one block, then the counter increment with its carry. */
  method ScalarStep(core: Words -> Block, state: array<nat>, tls: bool, input: seq<byte>, xorInput: bool,
      output: array<byte>, ghost done: nat, pos: nat, ghost s: Words)
    requires state.Length == 16 && pos == 64 * done
    requires WellFormed(s) && state[..] == Later(s, tls, done)
    requires pos + 64 <= output.Length && (xorInput ==> output.Length <= |input|)
    requires Emitted(core, s, tls, input, xorInput, output[..], 0, 64 * done)
    modifies state, output
    ensures state[..] == Later(s, tls, done + 1)
    ensures Emitted(core, s, tls, input, xorInput, output[..], 0, 64 * (done + 1))
  {
    hide Emitted, Later;
    ghost var before, now := output[..], state[..];
    LaterAdd(s, tls, done, 1);
    CarryStep(now, tls);
    WriteBlock(core, state[..], input, xorInput, output, pos);
    BlockEmitted(core, s, tls, input, xorInput, before, output[..], done);
    state[12] := (state[12] + 1) % TWO32;
    if state[12] == 0 && !tls {
      state[13] := (state[13] + 1) % TWO32;
      assert state[..] == now[12 := 0][13 := (now[13] + 1) % TWO32];
    } else {
      assert state[..] == now[12 := (now[12] + 1) % TWO32];
    }
  }

  /** ChaCha_OperateKeystream: whatever mix of wide and single steps the features give, the output is exactly
      the requested blocks of the stream, and the counter has advanced by their number. */
  method OperateKeystream(core: Words -> Block, features: Features, state: array<nat>, tls: bool, input: seq<byte>,
      xorInput: bool,
      output: array<byte>, iterationCount: nat)
    requires state.Length == 16 && iterationCount < TWO64 && WellFormed(state[..])
    requires output.Length == 64 * iterationCount && (xorInput ==> output.Length <= |input|)
    modifies state, output
    ensures state[..] == Later(old(state[..]), tls, iterationCount)
    ensures forall i :: 0 <= i < output.Length ==> output[i] == OutputByte(core, old(state[..]), tls, input, xorInput, i)
  {
    hide Later;
    ghost var s: Words := state[..];
    var done: nat, count: nat, more := 0, iterationCount, true;
    LaterZero(s, tls);
    while more
      invariant done <= iterationCount && state[..] == Later(s, tls, done)
      invariant if more then done + count == iterationCount else done == iterationCount
      invariant Emitted(core, s, tls, input, xorInput, output[..], 0, 64 * done)
      decreases more, count
    {
      done, count := WideLoop(core, state, features.avx2, 8, input, xorInput, output, done, count, s, tls);
      done, count := WideLoop(core, state, features.sse2, 4, input, xorInput, output, done, count, s, tls);
      done, count := WideLoop(core, state, features.neon, 4, input, xorInput, output, done, count, s, tls);
      done, count := WideLoop(core, state, features.altivec, 4, input, xorInput, output, done, count, s, tls);
      if count > 0 {
        ScalarStep(core, state, tls, input, xorInput, output, done, 64 * done, s);
        done := done + 1;
      }
      // while (iterationCount--): the size_t wraps on leaving the loop
      more := count != 0;
      count := (count - 1) % TWO64;
    }
  }

  // ---- the policies' counters ----

  class Policy {
    const tls: bool
    const initialCounter: nat  // ChaChaTLS's m_counter; ChaCha always starts at block 0
    var state: array<nat>

    ghost predicate Valid()
      reads this, state
    {
      state.Length == 16 && WellFormed(state[..]) && initialCounter < TWO32 && (!tls ==> initialCounter == 0)
    }

    /** CipherSetKey: the constants and the key fill the first twelve words. */
    constructor (tls: bool, initialCounter: nat, keyWords: seq<nat>)
      requires initialCounter < TWO32 && (!tls ==> initialCounter == 0)
      requires |keyWords| == 12 && forall i :: 0 <= i < 12 ==> keyWords[i] < TWO32
      ensures Valid() && this.tls == tls && this.initialCounter == initialCounter && fresh(state)
      ensures state[..12] == keyWords
    {
      this.tls, this.initialCounter := tls, initialCounter;
      state := new nat[16](i requires 0 <= i => if i < 12 then keyWords[i] else 0);
    }

    /** CipherResynchronize: constants and key words are in place, the nonce words follow the counter. */
    method Resynchronize(iv: seq<nat>)
      requires Valid() && |iv| == (if tls then 3 else 2) && forall i :: 0 <= i < |iv| ==> iv[i] < TWO32
      modifies state
      ensures Valid() && state[..12] == old(state[..12])
      ensures state[12] == initialCounter && (if tls then state[13..] == iv else state[13] == 0 && state[14..] == iv)
    {
      state[12] := initialCounter;
      if tls {
        state[13], state[14], state[15] := iv[0], iv[1], iv[2];
      } else {
        state[13], state[14], state[15] := 0, iv[0], iv[1];
      }
    }

    method SeekToIteration(iterationCount: nat)
      requires Valid() && iterationCount < TWO64
      modifies state
      ensures Valid() && state[..12] == old(state[..12]) && state[14..] == old(state[14..])
      ensures state[12] == iterationCount % TWO32
      ensures state[13] == if tls then old(state[13]) else iterationCount / TWO32
    {
      state[12] := iterationCount % TWO32;
      if !tls {
        state[13] := iterationCount / TWO32;
      }
    }
  }

  /** The state SeekToIteration leaves. */
  function Sought(s: Words, tls: bool, n: nat): Words {
    if tls then s[12 := n % TWO32] else s[12 := n % TWO32][13 := n / TWO32]
  }

  /** Seeking to block n from a fresh start (counter words holding the initial counter) reaches the stream's
      n-th state exactly when the initial counter is zero: SeekToIteration ignores ChaChaTLS's InitialBlock. */
  lemma {:induction false} SeekIsOnStreamIff(s: Words, tls: bool, initialCounter: nat, n: nat)
    requires WellFormed(s) && n < TWO64
    requires s[12] == initialCounter && (!tls ==> initialCounter == 0 && s[13] == 0)
    ensures Sought(s, tls, n) == Later(s, tls, n) <==> initialCounter == 0
  {
    if tls {
      assert Sought(s, tls, n)[12] == n % TWO32 && Later(s, tls, n)[12] == (initialCounter + n) % TWO32;
      if (initialCounter + n) % TWO32 == n % TWO32 {
        ModThenAdd(n, initialCounter, TWO32);
      }
    }
  }

  /** The state Resynchronize leaves. */
  function StartState(tls: bool, initialCounter: nat, keyWords: seq<nat>, iv: seq<nat>): (s: Words)
    requires |keyWords| == 12 && |iv| == (if tls then 3 else 2)
    ensures s[..12] == keyWords && s[12] == initialCounter
    ensures if tls then s[13..] == iv else s[13] == 0 && s[14..] == iv
  {
    keyWords + [initialCounter] + (if tls then iv else [0] + iv)
  }

  /** The same bytes are the same blocks. */
  lemma {:induction false} BlocksDecide(core: Words -> Block, s: Words, t: Words, tls: bool, count: nat, a: seq<byte>,
      b: seq<byte>)
    requires WellFormed(s) && WellFormed(t) && |a| == |b| == 64 * count
    requires forall i :: 0 <= i < |a| ==> a[i] == OutputByte(core, s, tls, [], false, i)
    requires forall i :: 0 <= i < |b| ==> b[i] == OutputByte(core, t, tls, [], false, i)
    ensures a == b <==> forall i: nat :: i < count ==> core(Later(s, tls, i)) == core(Later(t, tls, i))
  {
    hide Later;
    if a == b {
      forall i: nat | i < count ensures core(Later(s, tls, i)) == core(Later(t, tls, i)) {
        var x, y := core(Later(s, tls, i)), core(Later(t, tls, i));
        forall j | 0 <= j < 64 ensures x[j] == y[j] {
          assert a[64 * i + j] == b[64 * i + j];
        }
      }
    } else if forall i: nat :: i < count ==> core(Later(s, tls, i)) == core(Later(t, tls, i)) {
      forall i | 0 <= i < |a| ensures a[i] == b[i] {
        assert core(Later(s, tls, i / 64)) == core(Later(t, tls, i / 64));
      }
    }
  }

  method SeekAndGenerate(core: Words -> Block, features: Features, tls: bool, initialCounter: nat, keyWords: seq<nat>,
      iv: seq<nat>, n: nat, count: nat) returns (output: array<byte>)
    requires |keyWords| == 12 && forall i :: 0 <= i < 12 ==> keyWords[i] < TWO32
    requires |iv| == (if tls then 3 else 2) && forall i :: 0 <= i < |iv| ==> iv[i] < TWO32
    requires initialCounter < TWO32 && (!tls ==> initialCounter == 0) && n < TWO64 && count < TWO64
    ensures var start := StartState(tls, initialCounter, keyWords, iv);
            && WellFormed(start) && WellFormed(Sought(start, tls, n)) && output.Length == 64 * count
            && forall i :: 0 <= i < output.Length ==>
                 output[i] == OutputByte(core, Sought(start, tls, n), tls, [], false, i)
  {
    hide Later, OutputByte, StartState, Sought;
    ghost var start := StartState(tls, initialCounter, keyWords, iv);
    var a := new Policy(tls, initialCounter, keyWords);
    a.Resynchronize(iv);
    StartIs(a.state[..], start, tls, initialCounter, keyWords, iv);
    a.SeekToIteration(n);
    SoughtIs(a.state[..], start, tls, n);
    output := new byte[64 * count];
    OperateKeystream(core, features, a.state, tls, [], false, output, count);
  }

  method SkipAndGenerate(core: Words -> Block, features: Features, tls: bool, initialCounter: nat, keyWords: seq<nat>,
      iv: seq<nat>, n: nat, count: nat) returns (output: array<byte>)
    requires |keyWords| == 12 && forall i :: 0 <= i < 12 ==> keyWords[i] < TWO32
    requires |iv| == (if tls then 3 else 2) && forall i :: 0 <= i < |iv| ==> iv[i] < TWO32
    requires initialCounter < TWO32 && (!tls ==> initialCounter == 0) && n < TWO64 && count < TWO64
    ensures var start := StartState(tls, initialCounter, keyWords, iv);
            && WellFormed(Later(start, tls, n)) && output.Length == 64 * count
            && forall i :: 0 <= i < output.Length ==>
                 output[i] == OutputByte(core, Later(start, tls, n), tls, [], false, i)
  {
    hide Later, OutputByte, StartState;
    ghost var start := StartState(tls, initialCounter, keyWords, iv);
    var b := new Policy(tls, initialCounter, keyWords);
    b.Resynchronize(iv);
    StartIs(b.state[..], start, tls, initialCounter, keyWords, iv);
    var skipped := new byte[64 * n];
    OperateKeystream(core, features, b.state, tls, [], false, skipped, n);
    LaterAdd(start, tls, n, 0);
    output := new byte[64 * count];
    OperateKeystream(core, features, b.state, tls, [], false, output, count);
  }

  /** Seek and generate, or generate from the start and drop n blocks. The bytes agree for an initial counter of zero, and
      for another one exactly if the block function takes the two runs of counters to the same blocks. */
  method SeekAgreesWithGeneration(core: Words -> Block, features: Features, tls: bool, initialCounter: nat,
      keyWords: seq<nat>, iv: seq<nat>, n: nat, count: nat) returns (sought: array<byte>, sequential: array<byte>)
    requires |keyWords| == 12 && forall i :: 0 <= i < 12 ==> keyWords[i] < TWO32
    requires |iv| == (if tls then 3 else 2) && forall i :: 0 <= i < |iv| ==> iv[i] < TWO32
    requires initialCounter < TWO32 && (!tls ==> initialCounter == 0) && n + count < TWO64
    ensures sought.Length == sequential.Length == 64 * count
    ensures initialCounter == 0 ==> sought[..] == sequential[..]
    ensures var start := StartState(tls, initialCounter, keyWords, iv);
            sought[..] == sequential[..] <==>
            forall i: nat :: i < count ==> core(Later(Sought(start, tls, n), tls, i)) == core(Later(start, tls, n + i))
  {
    hide Later, OutputByte, StartState, Sought;
    ghost var start := StartState(tls, initialCounter, keyWords, iv);
    SeekIsOnStreamIff(start, tls, initialCounter, n);
    sought := SeekAndGenerate(core, features, tls, initialCounter, keyWords, iv, n, count);
    sequential := SkipAndGenerate(core, features, tls, initialCounter, keyWords, iv, n, count);
    BlocksDecide(core, Sought(start, tls, n), Later(start, tls, n), tls, count, sought[..], sequential[..]);
    forall i: nat ensures Later(Later(start, tls, n), tls, i) == Later(start, tls, n + i) { LaterAdd(start, tls, n, i); }
  }

  /** ChaChaTLS with initial counter 1, at byte 0: seeking gives the block for counter 0, generating the one for 1. */
  method TlsSeekLeavesStream(core: Words -> Block, features: Features, keyWords: seq<nat>, iv: seq<nat>)
    returns (sought: array<byte>, sequential: array<byte>)
    requires |keyWords| == 12 && forall i :: 0 <= i < 12 ==> keyWords[i] < TWO32
    requires |iv| == 3 && forall i :: 0 <= i < |iv| ==> iv[i] < TWO32
    ensures sought[..] == sequential[..]
      <==> core(StartState(true, 0, keyWords, iv)) == core(StartState(true, 1, keyWords, iv))
  {
    hide StartState;
    ghost var start := StartState(true, 1, keyWords, iv);
    sought, sequential := SeekAgreesWithGeneration(core, features, true, 1, keyWords, iv, 0, 1);
    assert Sought(start, true, 0) == StartState(true, 0, keyWords, iv) by {
      StartIs(Sought(start, true, 0), StartState(true, 0, keyWords, iv), true, 0, keyWords, iv);
    }
    assert Later(Sought(start, true, 0), true, 0) == Sought(start, true, 0) && Later(start, true, 0) == start;
  }

  lemma {:induction false} StartIs(s: Words, start: Words, tls: bool, initialCounter: nat, keyWords: seq<nat>, iv: seq<nat>)
    requires |keyWords| == 12 && |iv| == (if tls then 3 else 2) && start == StartState(tls, initialCounter, keyWords, iv)
    requires s[..12] == keyWords && s[12] == initialCounter
    requires if tls then s[13..] == iv else s[13] == 0 && s[14..] == iv
    ensures s == start
  {
    hide StartState;
    assert s == s[..12] + [s[12]] + (if tls then s[13..] else [s[13]] + s[14..]);
    assert start == start[..12] + [start[12]] + (if tls then start[13..] else [start[13]] + start[14..]);
  }

  lemma {:induction false} SoughtIs(s: Words, start: Words, tls: bool, n: nat)
    requires s[..12] == start[..12] && s[14..] == start[14..] && s[12] == n % TWO32
    requires s[13] == if tls then start[13] else n / TWO32
    ensures s == Sought(start, tls, n)
  {
    var t := Sought(start, tls, n);
    assert t[..12] == start[..12] && t[14..] == start[14..];
    SamePrefixSuffix(s, t);
  }

  lemma {:induction false} SamePrefixSuffix(a: Words, b: Words)
    requires a[..12] == b[..12] && a[12] == b[12] && a[13] == b[13] && a[14..] == b[14..]
    ensures a == b
  {
  }
}
