/** CCM (ccm.cpp) on the buffering and state machine of AuthenticatedSymmetricCipherBase (authenc.cpp). */
module CcmMode {
  import opened Arithmetic
  import opened ByteStrings
  import opened CbcMac
  import opened BlockDrivers

  datatype State = Start | KeySet | IVSet | AuthUntransformed | AuthTransformed | AuthFooter

  /** How a call ends: Done, or the exception thrown. */
  datatype Outcome = Done | BadState | InvalidArgument

  ghost function Fresh(): Auth {
    Auth(Zeros(16), [])
  }

  /** The tag of sections 2.2 and 2.3 of RFC 3610, before truncation. */
  ghost function Tag(E: Cipher, tagLength: nat, nonce: seq<byte>, header: seq<byte>, message: seq<byte>): Block
    requires 7 <= |nonce| <= 13 && 4 <= tagLength <= 16
  {
    XorStream(E, CounterStart(nonce), 0, Cbc(E, Zeros(16), AuthenticatedInput(tagLength, nonce, header, message)))
  }

  /** Byte i of the tag is that of the CBC-MAC exclusive or that of E(A_0); byte i of the message is encrypted with its
      byte of E(A_1), E(A_2) and so on, as long as the block numbers fit L bytes. */
  lemma {:induction false} EncryptionIsRfc(E: Cipher, tagLength: nat, nonce: seq<byte>, header: seq<byte>,
      message: seq<byte>, i: nat)
    requires 7 <= |nonce| <= 13 && 4 <= tagLength <= 16
    ensures i < 16 ==>
      Tag(E, tagLength, nonce, header, message)[i]
      == Xor(Cbc(E, Zeros(16), AuthenticatedInput(tagLength, nonce, header, message))[i],
             E([14 - |nonce|] + nonce + Zeros(15 - |nonce|))[i])
    ensures i < |message| && i / 16 + 1 < ShiftBytes(1, 15 - |nonce|) ==>
      XorStream(E, CounterStart(nonce), 16, message)[i]
      == Xor(message[i], E([14 - |nonce|] + nonce + BigEndian(i / 16 + 1, 15 - |nonce|))[i % 16])
  {
    hide Cbc, Xor, AuthenticatedInput, CounterBlock, BigEndian, ShiftBytes, Value;
    CounterZero(CounterStart(nonce));
    if i / 16 + 1 < ShiftBytes(1, 15 - |nonce|) { CounterBlockIsRfc(nonce, i / 16 + 1); }
  }

  predicate ValidDigestSize(n: int) {
    n % 2 == 0 && 4 <= n <= 16
  }

  // ---- the CBC-MAC state at each stage ----

  lemma {:induction false} FirstBlock(E: Cipher, block0: Block)
    ensures Feed(E, Fresh(), block0) == Auth(E(block0), [])
  {
    hide Cbc, Xor;
    FeedFirstBlock(E, Fresh(), block0);
    assert [] + block0 == block0;
    forall i | 0 <= i < 16 ensures XorBlock(Zeros(16), block0)[i] == block0[i] { XorWithZero(block0[i]); }
    assert XorBlock(Zeros(16), block0) == block0;
  }

  lemma {:induction false} LengthPending(E: Cipher, block0: Block, prefix: seq<byte>, header: seq<byte>)
    requires |prefix| < 16 && header == []
    ensures Auth(E(block0), prefix) == Feed(E, Fresh(), block0 + (prefix + header))
  {
    assert prefix + header == prefix;
    FirstBlock(E, block0);
    FeedInPieces(E, Fresh(), block0, prefix);
    ShortFeed(E, E(block0), prefix);
  }

  lemma {:induction false} ShortFeed(E: Cipher, cbc: Block, prefix: seq<byte>)
    requires |prefix| < 16
    ensures Feed(E, Auth(cbc, []), prefix) == Auth(cbc, prefix)
  {
  }

  lemma {:induction false} HeaderDone(E: Cipher, block0: Block, data: seq<byte>, s: Auth)
    requires s == Feed(E, Fresh(), block0 + data)
    ensures Flush(E, s) == Feed(E, Fresh(), block0 + Padded(data) + [])
  {
    hide Feed, Flush, Padded;
    FlushPads(E, block0 + data, s, Fresh());
    BlocksInARow(block0, data);
    assert block0 + Padded(data) + [] == block0 + Padded(data);
  }

  lemma {:induction false} MessageDone(E: Cipher, front: seq<byte>, message: seq<byte>, s: Auth)
    requires |front| % 16 == 0 && s == Feed(E, Fresh(), front + message)
    ensures |front + Padded(message)| % 16 == 0
    ensures Flush(E, s).cbc == Cbc(E, Zeros(16), front + Padded(message))
  {
    hide Cbc, Flush, Padded;
    FlushPads(E, front + message, s, Fresh());
    BlocksInARow(front, message);
    var whole := front + Padded(message);
    assert [] + whole == whole && whole[..|whole|] == whole;
  }

  lemma {:induction false} FlushTwice(E: Cipher, s: Auth)
    requires |s.pending| < 16
    ensures |Flush(E, s).pending| == 0 && Flush(E, Flush(E, s)) == Flush(E, s)
  {
  }

  lemma {:induction false} TagInput(E: Cipher, tagLength: nat, nonce: seq<byte>, header: seq<byte>,
      message: seq<byte>, s: Auth)
    requires 7 <= |nonce| <= 13 && 4 <= tagLength <= 16 && |s.pending| < 16
    requires s == Feed(E, Fresh(), Block0(tagLength, nonce, |header| > 0, |message|)
      + Padded(HeaderLength(|header|) + header) + message)
    ensures Flush(E, s).cbc == Cbc(E, Zeros(16), AuthenticatedInput(tagLength, nonce, header, message))
  {
    hide Feed, Flush, Cbc, Block0, Padded, HeaderLength;
    FrontIsWhole(Block0(tagLength, nonce, |header| > 0, |message|), HeaderLength(|header|) + header);
    MessageDone(E, Block0(tagLength, nonce, |header| > 0, |message|) + Padded(HeaderLength(|header|) + header), message, s);
  }

  lemma {:induction false} AppendFed(E: Cipher, front: seq<byte>, data: seq<byte>, more: seq<byte>)
    ensures Feed(E, Feed(E, Fresh(), front + data), more) == Feed(E, Fresh(), front + (data + more))
  {
    hide Feed;
    FeedInPieces(E, Fresh(), front + data, more);
    assert front + data + more == front + (data + more);
  }

  lemma {:induction false} AppendHeader(E: Cipher, block0: Block, prefix: seq<byte>, header: seq<byte>, more: seq<byte>)
    ensures Feed(E, Feed(E, Fresh(), block0 + (prefix + header)), more) == Feed(E, Fresh(), block0 + (prefix + (header + more)))
  {
    hide Feed;
    AppendFed(E, block0, prefix + header, more);
    assert prefix + header + more == prefix + (header + more);
  }

  lemma {:induction false} FrontIsWhole(block0: Block, data: seq<byte>)
    ensures |block0 + Padded(data)| % 16 == 0
  {
  }

  class Ccm {
    const forEncryption: bool
    const simd: bool                 // the block cipher processes chained blocks with the four/one driver
    const buffer: array<byte>        // 16 bytes of buffered data, then the CBC buffer
    var E: Cipher
    var state: State
    var digestSize: int
    var L: nat
    var totalHeaderLength: nat
    var totalMessageLength: nat
    var totalFooterLength: nat
    var bufferedDataLength: nat
    var aadLength: nat
    var messageLength: nat
    var ctrIv: Block
    var ctrPosition: nat
    ghost var nonce: seq<byte>
    ghost var header: seq<byte>      // header bytes since Resynchronize
    ghost var message: seq<byte>     // plaintext bytes since Resynchronize
    ghost var untouched: bool        // the nonce still stands in the buffer and nothing has been authenticated
    ghost var inSync: bool           // lengths were specified before any data, and no call failed half-way

    predicate IvIsSet()
      reads this`state
    {
      state != Start && state != KeySet
    }

    function AuthState(): Auth
      requires buffer.Length == 32 && bufferedDataLength <= 16
      reads this`bufferedDataLength, buffer
    {
      Auth(buffer[16..], buffer[..bufferedDataLength])
    }

    /** DigestSize(): m_digestSize converted to unsigned int. */
    function DigestSize(): nat
      reads this`digestSize
    {
      digestSize % TWO32
    }

    function MaxMessageLength(): nat
      requires L <= 8
      reads this`L
    {
      MaxMessage(L)
    }

    ghost predicate Shape()
      reads this, buffer
    {
      && buffer.Length == 32 && bufferedDataLength < 16 && L <= 8
      && (state != Start ==> ValidDigestSize(digestSize))
      && (IvIsSet() ==> 7 <= |nonce| <= 13 && L == 15 - |nonce| && ctrIv == CounterStart(nonce))
      && (IvIsSet() ==> totalHeaderLength < TWO64 && totalMessageLength <= MaxMessageLength())
    }

    /** The first block as the fields describe it. */
    ghost function SpecifiedBlock0(): Block
      requires Shape() && IvIsSet()
      reads this, buffer
    {
      Block0(digestSize, nonce, aadLength > 0, messageLength)
    }

    ghost predicate Untouched()
      requires Shape() && IvIsSet()
      reads this, buffer
    {
      bufferedDataLength == 0 && buffer[1..1 + |nonce|] == nonce && header == [] && totalHeaderLength == 0
    }

    /** What the CBC-MAC state covers while the header comes in. */
    ghost predicate HeaderStage()
      requires Shape() && IvIsSet()
      reads this, buffer
    {
      && AuthState() == Feed(E, Fresh(), SpecifiedBlock0() + (HeaderLength(aadLength) + header))
      && totalHeaderLength == |header| % TWO64 && totalMessageLength == 0
    }

    /** And while the message does. */
    ghost predicate MessageStage()
      requires Shape() && IvIsSet()
      reads this, buffer
    {
      && AuthState() == Feed(E, Fresh(), SpecifiedBlock0() + Padded(HeaderLength(aadLength) + header) + message)
      && aadLength == |header| % TWO64
    }

    predicate Transforming()
      reads this`state
    {
      state == AuthUntransformed || state == AuthTransformed
    }

    ghost predicate Valid()
      reads this, buffer
    {
      && Shape()
      && (state == IVSet ==> message == [] && ctrPosition == 16)
      && (state == IVSet && untouched ==> Untouched() && totalMessageLength == 0)
      && (state == IVSet && inSync ==> HeaderStage())
      && (Transforming() ==> ctrPosition == 16 + |message|)
      && (Transforming() && inSync ==> MessageStage() && totalMessageLength == |message|)
      && (state == AuthUntransformed ==> forEncryption) && (state == AuthTransformed ==> !forEncryption)
      && (state == AuthFooter ==> !inSync)
    }

    /** The buffer is allocated without being initialised: it holds what the memory held. */
    constructor (forEncryption: bool, simd: bool, memory: seq<byte>)
      requires |memory| == 32
      ensures Valid() && fresh(buffer) && state == Start && this.forEncryption == forEncryption && this.simd == simd
      ensures buffer[..] == memory
    {
      this.forEncryption, this.simd := forEncryption, simd;
      buffer := new byte[32](i requires 0 <= i < 32 => memory[i]);
      state, digestSize, L, bufferedDataLength := Start, 0, 0, 0;
      totalHeaderLength, totalMessageLength, totalFooterLength, aadLength, messageLength := 0, 0, 0, 0, 0;
      ctrPosition := 0;
      untouched, inSync := false, false;
    }

    // ---- writing to the buffer ----

    method CopyIn(at: nat, d: seq<byte>)
      requires buffer.Length == 32 && at + |d| <= 32
      modifies buffer
      ensures buffer[..] == old(buffer[..])[..at] + d + old(buffer[..])[at + |d|..]
    {
      for i := 0 to |d|
        invariant buffer[..at] == old(buffer[..at])
        invariant buffer[at..at + i] == d[..i]
        invariant buffer[at + i..] == old(buffer[at + i..])
      {
        buffer[at + i] := d[i];
        assert buffer[at..at + i + 1] == buffer[at..at + i] + [d[i]];
        assert buffer[at + i + 1..] == old(buffer[at + i..])[1..];
      }
      assert buffer[..] == buffer[..at] + buffer[at..at + |d|] + buffer[at + |d|..];
    }

    method SetCbc(b: Block)
      requires buffer.Length == 32
      modifies buffer
      ensures buffer[16..] == b && buffer[..16] == old(buffer[..16])
    {
      CopyIn(16, b);
      assert buffer[..16] == buffer[..][..16] && buffer[16..] == buffer[..][16..];
    }

    /** Bytes copied behind the buffered ones. */
    method AppendPending(d: seq<byte>)
      requires buffer.Length == 32 && bufferedDataLength + |d| <= 16
      modifies buffer, this`bufferedDataLength
      ensures bufferedDataLength == old(bufferedDataLength) + |d|
      ensures buffer[..bufferedDataLength] == old(buffer[..bufferedDataLength]) + d && buffer[16..] == old(buffer[16..])
      ensures buffer[..16] == Over(old(buffer[..16]), old(bufferedDataLength), d)
    {
      ghost var start := buffer[..];
      CopyIn(bufferedDataLength, d);
      AppendLayout(start, bufferedDataLength, d);
      bufferedDataLength := bufferedDataLength + |d|;
      assert buffer[..bufferedDataLength] == buffer[..][..bufferedDataLength] && buffer[16..] == buffer[..][16..];
      assert buffer[..16] == buffer[..][..16];
    }

    // ---- AuthenticatedSymmetricCipherBase::AuthenticateData over CCM_Base::AuthenticateBlocks ----

    /** AdvancedProcessBlocks with BT_XorInput into the CBC buffer, in place and with pointers that do not move: whole
        blocks are chained, the length left over is returned. */
    method AuthenticateBlocks(data: array<byte>, at: nat, length: nat) returns (leftOver: nat)
      requires buffer.Length == 32 && at + length <= data.Length && (data == buffer ==> at + length <= 16)
      modifies buffer
      ensures leftOver == length % 16
      ensures buffer[16..] == Cbc(E, old(buffer[16..]), old(data[at..at + length - leftOver]))
      ensures buffer[..16] == old(buffer[..16])
    {
      hide Cbc, XorBlock;
      if simd {
        leftOver := ChainDriver(data, at, length);
      } else {
        leftOver := ChainLoop(data, at, length);
      }
    }

    /** Through the four/one driver. */
    method ChainDriver(data: array<byte>, at: nat, length: nat) returns (leftOver: nat)
      requires buffer.Length == 32 && at + length <= data.Length && (data == buffer ==> at + length <= 16)
      modifies buffer
      ensures leftOver == length % 16
      ensures buffer[16..] == Cbc(E, old(buffer[16..]), old(data[at..at + length - leftOver]))
      ensures buffer[..16] == old(buffer[..16])
    {
      hide Cbc, XorBlock, Job.Result, Job.OutBlock, Job.InBlock, Job.MaskBlock, Job.Before;
      var flags := Flags(false, true, false, false, true);
      var place := Origin(16, at, 16);
      ghost var job := JobOf(E, flags, true, length, place, buffer, data, buffer);
      leftOver := AdvancedProcessBlocks4x1(E, buffer, data, true, buffer, place, length, flags);
      NoBlocks(E, job.input[16..], job.mask[at..]);
      if job.Count() > 0 {
        ChainIsCbc(job, job.Count());
        ResultOutsideFixed(job, job.Count());
        assert job.input[16..32] == job.input[16..] && buffer[..][16..32] == buffer[16..];
      } else {
        NothingPut(job);
        assert job.mask[at..at + 0] == job.mask[at..][..0];
      }
      assert buffer[..][..16] == buffer[..16] && job.output[..16] == old(buffer[..16]);
    }

    /** The base class loop: exclusive or into the output block, then the cipher on it. */
    method ChainLoop(data: array<byte>, at: nat, length: nat) returns (leftOver: nat)
      requires buffer.Length == 32 && at + length <= data.Length && (data == buffer ==> at + length <= 16)
      modifies buffer
      ensures leftOver == length % 16
      ensures buffer[16..] == Cbc(E, old(buffer[16..]), old(data[at..at + length - leftOver]))
      ensures buffer[..16] == old(buffer[..16])
    {
      hide Cbc, CbcFront;
      ghost var start: Block, all, blocks := buffer[16..], data[at..at + length], 0;
      leftOver := length;
      NoBlocks(E, start, all);
      while leftOver >= 16
        invariant leftOver + 16 * blocks == length && blocks >= 0
        invariant buffer[..16] == old(buffer[..16]) && data[at..at + length] == all
        invariant buffer[16..] == CbcFront(E, start, all, blocks)
      {
        ChainBlock(data, at, length, length - leftOver, blocks, start);
        leftOver, blocks := leftOver - 16, blocks + 1;
      }
      FrontOfSlice(E, start, old(data[..]), at, length, blocks);
    }

    method ChainBlock(data: array<byte>, at: nat, length: nat, done: nat, ghost blocks: nat, ghost start: Block)
      requires buffer.Length == 32 && at + length <= data.Length && (data == buffer ==> at + length <= 16)
      requires done == 16 * blocks && done + 16 <= length
      requires buffer[16..] == CbcFront(E, start, data[at..at + length], blocks)
      modifies buffer
      ensures buffer[16..] == CbcFront(E, start, data[at..at + length], blocks + 1)
      ensures buffer[..16] == old(buffer[..16]) && data[at..at + length] == old(data[at..at + length])
    {
      hide XorBlock, Cbc, CbcFront;
      ghost var before, all := data[..], data[at..at + length];
      OneMoreBlock(E, start, all, blocks);
      SliceOfSlice(before, at, length, done, done + 16);
      SetCbc(E(XorBlock(buffer[16..], data[at + done..at + done + 16])));
      if data == buffer {
        assert buffer[..][..16] == buffer[..16] && before[..16] == old(buffer[..16]);
        SliceOfSlice(buffer[..], 0, 16, at, at + length);
        SliceOfSlice(before, 0, 16, at, at + length);
      }
    }

    method AuthenticateData(input: array<byte>)
      requires buffer.Length == 32 && bufferedDataLength < 16 && input != buffer
      modifies buffer, this`bufferedDataLength
      ensures bufferedDataLength < 16
      ensures AuthState() == Feed(E, old(AuthState()), input[..])
      ensures buffer[..16] == Spread(old(buffer[..16]), old(bufferedDataLength), input[..])
    {
      hide Cbc, XorBlock, Feed, Over, SpreadRest;
      if input.Length == 0 {
        FeedNothing(E, AuthState());
        SpreadNothing(buffer[..16], bufferedDataLength);
        assert input[..] == [];
        return;
      }
      var at := 0;
      if bufferedDataLength > 0 {
        if bufferedDataLength + input.Length >= 16 {
          at := 16 - bufferedDataLength;
          CompleteBlock(input[..at]);
        } else {
          ShortInput(E, AuthState(), input[..]);
          AppendPending(input[..]);
          return;
        }
      }
      ghost var s, first := AuthState(), buffer[..16];
      AuthenticateRest(input, at);
      FeedInPieces(E, old(AuthState()), input[..at], input[at..]);
      assert input[..at] + input[at..] == input[..];
      if at == 0 {
        assert input[..0] == [] && input[0..] == input[..];
        FeedNothing(E, s);
      }
      assert input[..][..at] == input[..at] && input[..][at..] == input[at..];
    }

    /** The bytes that fill the buffered block, which is then processed. */
    method CompleteBlock(d: seq<byte>)
      requires buffer.Length == 32 && 0 < bufferedDataLength < 16 && bufferedDataLength + |d| == 16
      modifies buffer, this`bufferedDataLength
      ensures bufferedDataLength == 0
      ensures AuthState() == Feed(E, old(AuthState()), d)
      ensures buffer[..16] == Over(old(buffer[..16]), 16 - |d|, d)
    {
      hide Cbc, XorBlock, Feed, Over;
      ghost var s := AuthState();
      AppendPending(d);
      ghost var whole: Block := buffer[..16];
      assert whole == s.pending + d;
      var leftOver := AuthenticateBlocks(buffer, 0, 16);
      assert whole[..16] == whole;
      CbcOne(E, s.cbc, s.pending + d);
      FeedFirstBlock(E, s, d);
      bufferedDataLength := 0;
    }

    /** The second half, with nothing buffered: whole blocks, then the leftovers into the buffer. */
    method AuthenticateRest(input: array<byte>, at: nat)
      requires buffer.Length == 32 && bufferedDataLength == 0 && at <= input.Length && input != buffer
      modifies buffer, this`bufferedDataLength
      ensures bufferedDataLength < 16
      ensures AuthState() == Feed(E, old(AuthState()), input[at..])
      ensures buffer[..16] == SpreadRest(old(buffer[..16]), input[at..])
    {
      hide Cbc, XorBlock, Over, Feed, SpreadRest;
      ghost var s, first := AuthState(), buffer[..16];
      var length := AuthenticateWhole(input, at);
      AppendPending(input[input.Length - length..]);
      FeedRest(E, s, first, input[..], at, length);
    }

    /** The whole blocks, if there are any. */
    method AuthenticateWhole(input: array<byte>, at: nat) returns (length: nat)
      requires buffer.Length == 32 && at <= input.Length && input != buffer
      modifies buffer
      ensures length == (input.Length - at) % 16
      ensures buffer[16..] == Cbc(E, old(buffer[16..]), input[at..input.Length - length])
      ensures buffer[..16] == old(buffer[..16])
    {
      hide Cbc, XorBlock;
      length := input.Length - at;
      if length >= 16 {
        length := AuthenticateBlocks(input, at, length);
      } else {
        NoBlocks(E, buffer[16..], input[..]);
        assert input[at..at] == input[..][..0];
      }
    }

    // ---- the hooks of CCM_Base ----

    method FlushBuffer()
      requires buffer.Length == 32 && bufferedDataLength <= 16
      modifies buffer, this`bufferedDataLength
      ensures bufferedDataLength == 0 && AuthState() == Flush(E, old(AuthState())) && buffer[..16] == old(buffer[..16])
    {
      hide XorBlock;
      if bufferedDataLength > 0 {
        SetCbc(E(XorBlock(buffer[16..], buffer[..bufferedDataLength])));
        bufferedDataLength := 0;
      }
    }

    method AuthenticateLastHeaderBlock() returns (outcome: Outcome)
      requires buffer.Length == 32 && bufferedDataLength <= 16
      modifies buffer, this`bufferedDataLength
      ensures outcome == if aadLength == totalHeaderLength then Done else InvalidArgument
      ensures outcome.Done? ==> bufferedDataLength == 0 && AuthState() == Flush(E, old(AuthState()))
      ensures !outcome.Done? ==> unchanged(buffer) && unchanged(this)
    {
      if aadLength != totalHeaderLength {
        return InvalidArgument;
      }
      FlushBuffer();
      return Done;
    }

    method AuthenticateLastConfidentialBlock() returns (outcome: Outcome)
      requires buffer.Length == 32 && bufferedDataLength <= 16
      modifies buffer, this`bufferedDataLength
      ensures outcome == if messageLength == totalMessageLength then Done else InvalidArgument
      ensures outcome.Done? ==> bufferedDataLength == 0 && AuthState() == Flush(E, old(AuthState()))
      ensures !outcome.Done? ==> unchanged(buffer) && unchanged(this)
    {
      if messageLength != totalMessageLength {
        return InvalidArgument;
      }
      FlushBuffer();
      return Done;
    }

    // ---- the public operations ----

    method SetKey(cipher: Cipher, blockSize: nat, digest: int, iv: seq<byte>, hasIv: bool) returns (outcome: Outcome)
      requires Valid()
      modifies this, buffer
      ensures Valid()
      ensures outcome.Done? <==> blockSize == 16 && ValidDigestSize(digest) && (hasIv ==> 7 <= |iv| <= 13)
      ensures outcome.Done? ==> E == cipher && digestSize == digest && IvIsSet() == hasIv
      ensures outcome.Done? && hasIv ==> state == IVSet && nonce == iv && untouched && header == []
      ensures outcome.Done? && hasIv ==> aadLength == 0 == messageLength && totalHeaderLength == 0 == totalMessageLength
      ensures outcome.Done? && hasIv ==> totalFooterLength == 0 && bufferedDataLength == 0
      ensures buffer[16..] == old(buffer[16..])
      ensures outcome.Done? && !hasIv ==> state == KeySet && L == 8 && bufferedDataLength == 0
      ensures !outcome.Done? ==>
        outcome == InvalidArgument && state == if blockSize == 16 && ValidDigestSize(digest) then KeySet else Start
      ensures E == cipher && digestSize == if blockSize == 16 then digest else old(digestSize)
    {
      bufferedDataLength, state := 0, Start;
      E := cipher;
      if blockSize != 16 {
        return InvalidArgument;
      }
      // stored before it is refused; a negative odd digest size has remainder -1 in the source and is caught by < 4
      digestSize := digest;
      if digest % 2 > 0 || digest < 4 || digest > 16 {
        return InvalidArgument;
      }
      L := 8;
      state := KeySet;
      if hasIv {
        if |iv| < 7 || |iv| > 13 {
          return InvalidArgument;
        }
        outcome := Resynchronize(iv);
      } else {
        outcome := Done;
      }
    }

    method Restart()
      requires Valid()
      modifies this`state
      ensures Valid() && state == if old(state) == Start then Start else KeySet
    {
      if state != Start {
        state := KeySet;
      }
    }

    method Resynchronize(iv: seq<byte>) returns (outcome: Outcome)
      requires Valid()
      modifies this`state, this`bufferedDataLength, this`totalHeaderLength, this`totalMessageLength, this`totalFooterLength,
        this`L, this`ctrIv, this`ctrPosition, this`aadLength, this`messageLength,
        this`nonce, this`header, this`message, this`untouched, this`inSync, buffer
      ensures Valid()
      ensures outcome == if old(state) == Start then BadState else if |iv| < 7 || |iv| > 13 then InvalidArgument else Done
      ensures outcome.Done? ==> state == IVSet && nonce == iv && untouched && !inSync && header == []
      ensures outcome.Done? ==> aadLength == 0 == messageLength && totalMessageLength == 0 && message == []
      ensures outcome.Done? ==> totalHeaderLength == 0 == totalFooterLength && bufferedDataLength == 0
      ensures outcome.Done? ==> L == 15 - |iv| && ctrIv == CounterStart(iv) == buffer[..16]
      ensures buffer[16..] == old(buffer[16..])
      ensures outcome.InvalidArgument? ==> state == KeySet
    {
      hide HeaderStage, MessageStage, SpecifiedBlock0, AuthState, CounterStart, MaxMessage, Feed, Untouched, ValidDigestSize;
      if state == Start {
        return BadState;
      }
      bufferedDataLength, state := 0, KeySet;
      totalHeaderLength, totalMessageLength, totalFooterLength := 0, 0, 0;
      if |iv| < 7 || |iv| > 13 {
        return InvalidArgument;
      }
      BeginMessage(iv);
      outcome := Done;
    }

    method BeginMessage(iv: seq<byte>)
      requires buffer.Length == 32 && bufferedDataLength == 0 && 7 <= |iv| <= 13 && ValidDigestSize(digestSize)
      requires totalHeaderLength == 0 && totalMessageLength == 0
      modifies this`state, this`L, this`ctrIv, this`ctrPosition, this`aadLength, this`messageLength,
        this`nonce, this`header, this`message, this`untouched, this`inSync, buffer
      ensures Valid() && state == IVSet && nonce == iv && untouched && !inSync && header == []
      ensures aadLength == 0 == messageLength && buffer[16..] == old(buffer[16..])
      ensures L == 15 - |iv| && ctrIv == CounterStart(iv) == buffer[..16]
    {
      hide HeaderStage, MessageStage, SpecifiedBlock0, AuthState, CounterStart, MaxMessage, Feed, Untouched, ValidDigestSize;
      Resync(iv);
      state := IVSet;
      nonce, header, message, untouched, inSync := iv, [], [], true, false;
      NowUntouched();
    }

    lemma {:induction false} NowUntouched()
      requires Shape() && IvIsSet() && bufferedDataLength == 0 && buffer[1..1 + |nonce|] == nonce && header == []
      requires totalHeaderLength == 0
      ensures Untouched()
    {
    }

    method Resync(iv: seq<byte>)
      requires buffer.Length == 32 && 7 <= |iv| <= 13
      modifies this`L, this`ctrIv, this`ctrPosition, this`aadLength, this`messageLength, buffer
      ensures L == 15 - |iv| && ctrIv == CounterStart(iv) && ctrPosition == 16 && aadLength == 0 == messageLength
      ensures buffer[1..1 + |iv|] == iv && buffer[16..] == old(buffer[16..]) && buffer[..16] == CounterStart(iv)
    {
      L := Capped(15 - |iv|, 8);
      ghost var start := buffer[..];
      CopyIn(0, [L - 1]);
      CopyIn(1, iv);
      CopyIn(1 + |iv|, Zeros(15 - |iv|));
      IvLayout(start, L - 1, iv);
      ctrIv := buffer[..16];
      ctrPosition := 16;
      aadLength, messageLength := 0, 0;
    }

    /** AuthenticatedSymmetricCipher::SpecifyDataLengths: the length check comes first. */
    method SpecifyDataLengths(headerLength: nat, messageLen: nat, footerLength: nat) returns (outcome: Outcome)
      requires Valid() && headerLength < TWO64 && messageLen < TWO64 && footerLength < TWO64
      modifies this`aadLength, this`messageLength, this`bufferedDataLength, this`untouched, this`inSync, buffer
      ensures Valid()
      ensures outcome == if messageLen > MaxMessageLength() || footerLength > 0 then InvalidArgument
                         else if state != IVSet then BadState else Done
      ensures !outcome.Done? ==> unchanged(this) && unchanged(buffer)
      ensures outcome.Done? ==> aadLength == headerLength && messageLength == messageLen && inSync == old(untouched)
      ensures outcome.Done? ==> SpecifiedState(old(buffer[..16]), old(bufferedDataLength))
    {
      hide HeaderStage, MessageStage, CounterStart, MaxMessage, Untouched, ValidDigestSize;
      // every header length is within MaxHeaderLength(); MaxFooterLength() is 0
      if messageLen > MaxMessageLength() {
        return InvalidArgument;
      }
      if footerLength > 0 {
        return InvalidArgument;
      }
      outcome := UncheckedSpecifyDataLengths(headerLength, messageLen);
    }

    /** What the lengths leave behind, whatever was there before: the CBC buffer holds a first block made from the bytes
        that stand where the nonce was put, all data authenticated so far is forgotten, and the length prefix replaces
        what was buffered; without a header, what was buffered stays. */
    ghost predicate SpecifiedState(first: seq<byte>, pending: nat)
      requires Shape() && IvIsSet() && |first| == 16 && pending < 16
      reads this, buffer
    {
      && buffer[16..] == E(Block0(digestSize, first[1..1 + |nonce|], aadLength > 0, messageLength))
      && bufferedDataLength == (if aadLength > 0 then |HeaderLength(aadLength)| else pending)
      && buffer[..16] == (if aadLength > 0 then Over(first, 0, HeaderLength(aadLength)) else first)
    }

    method UncheckedSpecifyDataLengths(headerLength: nat, messageLen: nat) returns (outcome: Outcome)
      requires Valid() && headerLength < TWO64 && messageLen < TWO64
      modifies this`aadLength, this`messageLength, this`bufferedDataLength, this`untouched, this`inSync, buffer
      ensures Valid()
      ensures outcome == if state != IVSet then BadState else Done
      ensures !outcome.Done? ==> unchanged(this) && unchanged(buffer)
      ensures outcome.Done? ==> aadLength == headerLength && messageLength == messageLen && inSync == old(untouched)
      ensures outcome.Done? ==> SpecifiedState(old(buffer[..16]), old(bufferedDataLength))
    {
      hide HeaderStage, MessageStage, CounterStart, MaxMessage, Feed, ValidDigestSize, Untouched, SpecifiedState;
      if state != IVSet {
        return BadState;
      }
      ghost var first: Block := buffer[..16];
      if untouched { NonceStands(); }
      aadLength, messageLength := headerLength, messageLen;
      inSync, untouched := untouched, untouched && headerLength == 0;
      WriteLengths();
      if inSync { LengthsInStep(first); }
      outcome := Done;
    }

    lemma {:induction false} NonceStands()
      requires Shape() && IvIsSet() && Untouched()
      ensures bufferedDataLength == 0 && buffer[..16][1..1 + |nonce|] == nonce && header == [] && totalHeaderLength == 0
    {
    }

    lemma {:induction false} LengthsInStep(first: Block)
      requires Shape() && IvIsSet() && SpecifiedState(first, 0) && header == []
      requires totalHeaderLength == 0 == totalMessageLength
      requires first[1..1 + |nonce|] == nonce
      ensures HeaderStage() && (aadLength == 0 ==> Untouched())
    {
      hide Feed, BigEndian, HeaderLength, Block0, ValidDigestSize, MaxMessage, Over;
      PrefixPending(first, aadLength);
      assert buffer[..16][..bufferedDataLength] == buffer[..bufferedDataLength];
      LengthPending(E, SpecifiedBlock0(), HeaderLength(aadLength), header);
      if aadLength == 0 {
        InFirstHalf(buffer[..], |nonce|);
        assert buffer[..][..16] == buffer[..16];
      }
    }

    method WriteLengths()
      requires Shape() && state == IVSet && aadLength < TWO64
      modifies this`bufferedDataLength, buffer
      ensures Shape() && SpecifiedState(old(buffer[..16]), old(bufferedDataLength))
    {
      hide CounterStart, MaxMessage, Block0, Over, ValidDigestSize, HeaderLength;
      WriteBlock0();
      if aadLength > 0 {
        WriteHeaderLength(aadLength);
      }
    }

    /** The first block is laid out over the CBC buffer, whatever that held, and encrypted. */
    method WriteBlock0()
      requires Shape() && state == IVSet
      modifies buffer
      ensures buffer[..16] == old(buffer[..16])
      ensures buffer[16..] == E(Block0(digestSize, old(buffer[..16])[1..1 + |nonce|], aadLength > 0, messageLength))
    {
      hide CounterStart, BigEndian;
      var flag: byte := (if aadLength > 0 then 64 else 0) + 8 * ((digestSize - 2) / 2) + (L - 1);
      LayOut(flag, messageLength, L);
      SetCbc(E(buffer[16..]));
    }

    /** Flags, then the length in the last eight bytes, then the nonce over the top of it. */
    method LayOut(flag: byte, length: nat, L: nat)
      requires buffer.Length == 32 && 2 <= L <= 8
      modifies buffer
      ensures buffer[..16] == old(buffer[..16])
      ensures buffer[16..] == [flag] + old(buffer[..16])[1..16 - L] + BigEndian(length, L)
    {
      hide BigEndian;
      ghost var start := buffer[..];
      CopyIn(16, [flag]);
      CopyIn(24, BigEndian(length, 8));
      Overlay(start, flag, 15 - L, length);
      CopyIn(17, buffer[..][1..16 - L]);
      assert buffer[..16] == buffer[..][..16] && buffer[16..] == buffer[..][16..];
      InFirstHalf(start, 15 - L);
      assert start[..16] == old(buffer[..16]);
    }

    method WriteHeaderLength(headerLength: nat)
      requires buffer.Length == 32 && 0 < headerLength < TWO64
      modifies buffer, this`bufferedDataLength
      ensures bufferedDataLength == |HeaderLength(headerLength)| < 16
      ensures buffer[..16] == Over(old(buffer[..16]), 0, HeaderLength(headerLength)) && buffer[16..] == old(buffer[16..])
    {
      hide BigEndian;
      bufferedDataLength := 0;
      ghost var first: Block := buffer[..16];
      if headerLength < 0xff00 {
        AppendPending(BigEndian(headerLength, 2));
      } else if headerLength < 0x1_0000_0000 {
        AppendPending([0xff, 0xfe]);
        AppendPending(BigEndian(headerLength, 4));
        OverTwice(first, [0xff, 0xfe], BigEndian(headerLength, 4));
      } else {
        AppendPending([0xff, 0xff]);
        AppendPending(BigEndian(headerLength, 8));
        OverTwice(first, [0xff, 0xff], BigEndian(headerLength, 8));
      }
    }

    method Update(input: array<byte>) returns (outcome: Outcome)
      requires Valid() && input != buffer
      modifies this`state, this`bufferedDataLength, this`totalHeaderLength, this`totalFooterLength,
        this`header, this`untouched, this`inSync, buffer
      ensures Valid()
      ensures outcome.BadState? <==> input.Length > 0 && !old(IvIsSet())
      ensures outcome.InvalidArgument? <==> input.Length > 0 && old(Transforming()) && messageLength != totalMessageLength
      ensures input.Length == 0 || !outcome.Done? ==> unchanged(this) && unchanged(buffer)
      ensures old(state) == IVSet ==> state == IVSet && header == old(header) + input[..] && inSync == old(inSync)
      ensures old(state) == IVSet ==> totalHeaderLength == (old(totalHeaderLength) + input.Length) % TWO64
      ensures old(state) == IVSet ==> totalFooterLength == old(totalFooterLength)
      ensures old(state) == IVSet ==> buffer[..16] == Spread(old(buffer[..16]), old(bufferedDataLength), input[..])
      ensures outcome.Done? && input.Length > 0 && old(state) != IVSet ==>
        state == AuthFooter && totalFooterLength == (old(totalFooterLength) + input.Length) % TWO64
      ensures outcome.Done? && (input.Length > 0 || old(state) == IVSet) ==>
        AuthState() == Feed(E, if old(Transforming()) then Flush(E, old(AuthState())) else old(AuthState()), input[..])
    {
      hide HeaderStage, MessageStage, CounterStart, MaxMessage, Feed, Untouched, ValidDigestSize, Spread, Flush;
      if input.Length == 0 {
        assert header + input[..] == header;
        if state == IVSet {
          assert input[..] == [];
          SpreadNothing(buffer[..16], bufferedDataLength);
          FeedNothing(E, AuthState());
        }
        return Done;
      }
      if !IvIsSet() {
        return BadState;
      }
      if state == IVSet {
        UpdateHeader(input);
      } else {
        if state != AuthFooter {
          outcome := AuthenticateLastConfidentialBlock();
          if !outcome.Done? {
            return;
          }
          bufferedDataLength, state, inSync := 0, AuthFooter, false;
        }
        UpdateFooter(input);
      }
      outcome := Done;
    }

    method UpdateFooter(input: array<byte>)
      requires Valid() && input != buffer && state == AuthFooter
      modifies this`bufferedDataLength, this`totalFooterLength, buffer
      ensures Valid() && totalFooterLength == (old(totalFooterLength) + input.Length) % TWO64
      ensures AuthState() == Feed(E, old(AuthState()), input[..])
    {
      hide HeaderStage, MessageStage, CounterStart, MaxMessage, Feed, Untouched, ValidDigestSize, Spread;
      AuthenticateData(input);
      totalFooterLength := (totalFooterLength + input.Length) % TWO64;
    }

    method UpdateHeader(input: array<byte>)
      requires Valid() && input != buffer && state == IVSet && input.Length > 0
      modifies this`bufferedDataLength, this`totalHeaderLength, this`header, this`untouched, buffer
      ensures Valid() && header == old(header) + input[..]
      ensures totalHeaderLength == (old(totalHeaderLength) + input.Length) % TWO64
      ensures AuthState() == Feed(E, old(AuthState()), input[..])
      ensures buffer[..16] == Spread(old(buffer[..16]), old(bufferedDataLength), input[..])
    {
      hide MessageStage, CounterStart, MaxMessage, Feed, HeaderLength, Block0, Untouched, ValidDigestSize, Spread;
      AuthenticateData(input);
      AppendHeader(E, SpecifiedBlock0(), HeaderLength(aadLength), header, input[..]);
      ModThenAdd(|header|, input.Length, TWO64);
      totalHeaderLength := (totalHeaderLength + input.Length) % TWO64;
      header, untouched := header + input[..], false;
    }

    /** m_ctr.ProcessData: in place when both are the same array. */
    method Crypt(outString: array<byte>, inString: array<byte>)
      requires outString.Length == inString.Length
      modifies this`ctrPosition, outString
      ensures ctrPosition == old(ctrPosition) + inString.Length
      ensures outString[..] == XorStream(E, ctrIv, old(ctrPosition), old(inString[..]))
    {
      hide Xor, Keystream;
      var length := inString.Length;
      ghost var start := ctrPosition;
      for i := 0 to length
        invariant ctrPosition == start
        invariant inString[i..] == old(inString[i..])
        invariant forall k :: 0 <= k < i ==> outString[k] == Xor(old(inString[..])[k], Keystream(E, ctrIv, ctrPosition + k))
      {
        assert inString[i] == inString[i..][0] == old(inString[..])[i];
        ghost var rest := inString[i + 1..];
        assert rest == inString[i..][1..] == old(inString[i..])[1..] == old(inString[i + 1..]);
        outString[i] := Xor(inString[i], Keystream(E, ctrIv, ctrPosition + i));
      }
      ctrPosition := ctrPosition + length;
    }

    /** The message goes through the cipher; the plaintext side of it is authenticated. */
    method ProcessData(outString: array<byte>, inString: array<byte>) returns (outcome: Outcome)
      requires Valid() && outString.Length == inString.Length < TWO64 && outString != buffer && inString != buffer
      modifies this`state, this`bufferedDataLength, this`totalMessageLength, this`ctrPosition, this`message,
        this`untouched, this`inSync, buffer, outString
      ensures Valid()
      ensures outcome == ProcessOutcome(old(state), inString.Length, L, old(totalMessageLength), aadLength == totalHeaderLength)
      ensures outcome.Done? ==>
        && state == (if forEncryption then AuthUntransformed else AuthTransformed)
        && outString[..] == XorStream(E, ctrIv, 16 + |old(message)|, old(inString[..]))
        && message == old(message) + (if forEncryption then old(inString[..]) else outString[..])
        && inSync == old(inSync) && totalMessageLength == old(totalMessageLength) + inString.Length
        && AuthState() == Feed(E, if old(state) == IVSet then Flush(E, old(AuthState())) else old(AuthState()),
                               if forEncryption then old(inString[..]) else outString[..])
      ensures !outcome.Done? ==> outString[..] == old(outString[..]) && state == old(state) && message == old(message)
      ensures !outcome.Done? ==>
        totalMessageLength == (if old(IvIsSet()) && old(totalMessageLength) + inString.Length > MaxMessageLength()
                               then old(totalMessageLength)
                               else if state == IVSet then old(totalMessageLength) + inString.Length
                               else (old(totalMessageLength) + inString.Length) % TWO64)
    {
      hide HeaderStage, MessageStage, CounterStart, MaxMessage, Feed, Untouched, ValidDigestSize, Flush, XorStream,
        AuthState;
      var length := inString.Length;
      if IvIsSet() && length > MaxMessageLength() - totalMessageLength {
        return InvalidArgument;
      }
      if !IvIsSet() || state == AuthFooter {
        totalMessageLength := (totalMessageLength + length) % TWO64;
        return BadState;
      }
      if state == IVSet {
        outcome := FinishHeader();
        if !outcome.Done? {
          totalMessageLength := totalMessageLength + length;
          untouched, inSync := false, false;
          return;
        }
      }
      Transform(outString, inString);
      outcome := Done;
    }

    /** The IVSet case of the switch. */
    method FinishHeader() returns (outcome: Outcome)
      requires Valid() && state == IVSet
      modifies this`state, this`bufferedDataLength, buffer
      ensures outcome == if aadLength == totalHeaderLength then Done else InvalidArgument
      ensures Valid()
      ensures state == if !outcome.Done? then IVSet else if forEncryption then AuthUntransformed else AuthTransformed
      ensures AuthState() == if outcome.Done? then Flush(E, old(AuthState())) else old(AuthState())
    {
      hide CounterStart, MaxMessage, Feed, Untouched, ValidDigestSize, Flush, Block0, Padded, HeaderLength;
      ghost var s, block0 := AuthState(), SpecifiedBlock0();
      outcome := AuthenticateLastHeaderBlock();
      if outcome.Done? {
        if inSync {
          HeaderDone(E, block0, HeaderLength(aadLength) + header, s);
        }
        bufferedDataLength := 0;
        state := if forEncryption then AuthUntransformed else AuthTransformed;
      }
    }

    /** The two transforming cases: authentication before encryption, after decryption. */
    method Transform(outString: array<byte>, inString: array<byte>)
      requires Valid() && outString.Length == inString.Length && outString != buffer && inString != buffer
      requires Transforming() && inString.Length <= MaxMessageLength() - totalMessageLength
      modifies this`bufferedDataLength, this`totalMessageLength, this`ctrPosition, this`message, buffer, outString
      ensures Valid()
      ensures outString[..] == XorStream(E, ctrIv, 16 + |old(message)|, old(inString[..]))
      ensures message == old(message) + (if forEncryption then old(inString[..]) else outString[..])
      ensures totalMessageLength == old(totalMessageLength) + inString.Length
      ensures AuthState() == Feed(E, old(AuthState()), if forEncryption then old(inString[..]) else outString[..])
    {
      hide CounterStart, MaxMessage, Feed, Untouched, ValidDigestSize, Block0, Padded, HeaderLength, XorStream;
      totalMessageLength := totalMessageLength + inString.Length;
      ghost var s, front := AuthState(), SpecifiedBlock0() + Padded(HeaderLength(aadLength) + header);
      ghost var plain: seq<byte>;
      if state == AuthUntransformed {
        plain := inString[..];
        AuthenticateData(inString);
        Crypt(outString, inString);
      } else {
        Crypt(outString, inString);
        plain := outString[..];
        AuthenticateData(outString);
      }
      AppendFed(E, front, message, plain);
      message := message + plain;
    }

    method TruncatedFinal(mac: array<byte>, macSize: nat) returns (outcome: Outcome)
      requires Valid() && macSize <= mac.Length && mac != buffer
      modifies this`state, this`bufferedDataLength, this`ctrPosition, this`untouched, this`inSync, mac, buffer
      ensures Valid()
      ensures outcome == FinalOutcome(old(state), macSize <= DigestSize(), totalFooterLength,
        aadLength == totalHeaderLength, messageLength == totalMessageLength)
      ensures outcome.Done? ==> state == KeySet && mac[macSize..] == old(mac[macSize..])
      ensures outcome.Done? ==> macSize <= 16 && mac[..macSize] == XorStream(E, ctrIv, 0, old(FinalCbc()))[..macSize]
      ensures outcome.Done? && old(inSync) && |header| < TWO64 ==>
        ValidDigestSize(digestSize) && 7 <= |nonce| <= 13 && macSize <= 16
        && mac[..macSize] == Tag(E, digestSize, nonce, header, message)[..macSize]
      ensures !outcome.Done? ==> mac[..] == old(mac[..])
    {
      hide HeaderStage, MessageStage, CounterStart, MaxMessage, Feed, Untouched, Flush, XorStream, Tag, SpecifiedBlock0,
        FinalCbc;
      if macSize > DigestSize() || totalFooterLength > 0 {
        return InvalidArgument;
      }
      if !IvIsSet() {
        return BadState;
      }
      if inSync && |header| < TWO64 && messageLength == totalMessageLength && (state == IVSet ==> aadLength == totalHeaderLength) {
        FinishedInSync();
      }
      outcome := FinishRun(mac, macSize);
    }

    /** The switch and what follows it. */
    method FinishRun(mac: array<byte>, macSize: nat) returns (outcome: Outcome)
      requires Valid() && IvIsSet() && macSize <= mac.Length && macSize <= DigestSize() && mac != buffer
      modifies this`state, this`bufferedDataLength, this`ctrPosition, this`untouched, this`inSync, mac, buffer
      ensures Valid()
      ensures outcome == FinalOutcome(old(state), true, 0, aadLength == totalHeaderLength, messageLength == totalMessageLength)
      ensures outcome.Done? ==> state == KeySet && mac[macSize..] == old(mac[macSize..])
      ensures outcome.Done? ==> macSize <= 16 && mac[..macSize] == XorStream(E, ctrIv, 0, old(FinalCbc()))[..macSize]
      ensures !outcome.Done? ==> mac[..] == old(mac[..])
    {
      hide HeaderStage, MessageStage, CounterStart, MaxMessage, Feed, Untouched, Flush, XorStream, SpecifiedBlock0, FinalCbc;
      outcome := FinishData();
      if !outcome.Done? {
        return;
      }
      AuthenticateLastFooterBlock(mac, macSize);
      bufferedDataLength, state, outcome := 0, KeySet, Done;
    }

    /** The cases of the switch before AuthenticateLastFooterBlock, which fall through. */
    method FinishData() returns (outcome: Outcome)
      requires Valid() && IvIsSet()
      modifies this`bufferedDataLength, this`untouched, this`inSync, buffer
      ensures Valid()
      ensures outcome == FinalOutcome(state, true, 0, aadLength == totalHeaderLength, messageLength == totalMessageLength)
      ensures outcome.Done? ==> bufferedDataLength == 0 && buffer[16..] == old(FinalCbc())
    {
      hide HeaderStage, MessageStage, CounterStart, MaxMessage, Feed, Untouched, Flush, XorStream, Cbc, ValidDigestSize;
      outcome := Done;
      FlushTwice(E, AuthState());
      if state == IVSet {
        outcome := AuthenticateLastHeaderBlock();
        if !outcome.Done? {
          return;
        }
        bufferedDataLength := 0;
      }
      if state != AuthFooter {
        outcome := AuthenticateLastConfidentialBlock();
        untouched, inSync := false, false;
        if !outcome.Done? {
          return;
        }
        bufferedDataLength := 0;
      }
      bufferedDataLength := 0;
    }

    ghost function FinalCbc(): Block
      requires buffer.Length == 32 && bufferedDataLength < 16
      reads this`state, this`E, this`bufferedDataLength, buffer
    {
      if state == AuthFooter then AuthState().cbc else Flush(E, AuthState()).cbc
    }

    lemma {:induction false} FinishedInSync()
      requires Valid() && IvIsSet() && inSync && |header| < TWO64 && messageLength == totalMessageLength
      requires state == IVSet ==> aadLength == totalHeaderLength
      ensures XorStream(E, ctrIv, 0, FinalCbc()) == Tag(E, digestSize, nonce, header, message)
    {
      hide MaxMessage, Feed, Untouched, Flush, Cbc, AuthenticatedInput, HeaderLength, Block0, Padded, XorStream,
        CounterStart;
      var block0, data := SpecifiedBlock0(), HeaderLength(aadLength) + header;
      if state == IVSet {
        HeaderDone(E, block0, data, AuthState());
        FlushTwice(E, AuthState());
        TagInput(E, digestSize, nonce, header, message, Flush(E, AuthState()));
      } else {
        TagInput(E, digestSize, nonce, header, message, AuthState());
      }
    }

    /** CTR from position 0 over the CBC buffer. */
    method AuthenticateLastFooterBlock(mac: array<byte>, macSize: nat)
      requires buffer.Length == 32 && macSize <= 16 && macSize <= mac.Length && mac != buffer
      modifies this`ctrPosition, mac
      ensures mac[..macSize] == XorStream(E, ctrIv, 0, buffer[16..])[..macSize] && mac[macSize..] == old(mac[macSize..])
    {
      hide Xor, Keystream;
      ctrPosition := 0;
      for i := 0 to macSize
        invariant forall k :: 0 <= k < i ==> mac[k] == Xor(buffer[16 + k], Keystream(E, ctrIv, k))
        invariant mac[macSize..] == old(mac[macSize..])
      {
        mac[i] := Xor(buffer[16 + i], Keystream(E, ctrIv, i));
      }
      ctrPosition := macSize;
    }

    /** Resynchronize, SpecifyDataLengths and Update, as both one-call operations begin. */
    method Prepare(iv: seq<byte>, headerBytes: array<byte>, length: nat) returns (outcome: Outcome)
      requires Valid() && headerBytes != buffer && headerBytes.Length < TWO64 && length < TWO64
      modifies this, buffer
      ensures Valid() && E == old(E) && digestSize == old(digestSize)
      ensures outcome.Done? <==> old(state) != Start && 7 <= |iv| <= 13 && length <= MaxMessage(15 - |iv|)
      ensures outcome.Done? ==> ValidDigestSize(digestSize)
      ensures outcome.Done? ==> state == IVSet && inSync && nonce == iv && header == headerBytes[..] && message == []
      ensures outcome.Done? ==> aadLength == totalHeaderLength && messageLength == length
      ensures outcome.Done? ==> totalMessageLength == 0 == totalFooterLength && L == 15 - |iv| && ctrIv == CounterStart(iv)
    {
      hide Valid(), SpecifiedState, MaxMessage, Feed, Flush, AuthState, CounterStart, Spread, ValidDigestSize;
      outcome := Resynchronize(iv);
      if !outcome.Done? {
        return;
      }
      outcome := SpecifyDataLengths(headerBytes.Length, length, 0);
      if !outcome.Done? {
        return;
      }
      outcome := Update(headerBytes);
      InShape();
    }

    /** ProcessData on the whole message and TruncatedFinal, as both one-call operations end. */
    method ProcessMessage(outString: array<byte>, inString: array<byte>, mac: array<byte>,
        macSize: nat) returns (outcome: Outcome)
      requires Valid() && state == IVSet && inSync && message == [] && |header| < TWO64 && totalFooterLength == 0
      requires aadLength == totalHeaderLength && totalMessageLength == 0
      requires messageLength == inString.Length == outString.Length < TWO64 && inString.Length <= MaxMessageLength()
      requires mac != outString && mac != buffer && outString != buffer && inString != buffer && macSize <= mac.Length
      modifies this`state, this`bufferedDataLength, this`totalMessageLength, this`ctrPosition, this`message,
        this`untouched, this`inSync, buffer, outString, mac
      ensures Valid() && outcome == if macSize <= DigestSize() then Done else InvalidArgument
      ensures ValidDigestSize(digestSize) && 7 <= |nonce| <= 13 && L == 15 - |nonce|
      ensures outString[..] == XorStream(E, ctrIv, 16, old(inString[..]))
      ensures outcome.Done? ==>
        && macSize <= 16
        && mac[..macSize] == Tag(E, digestSize, nonce, header, if forEncryption then old(inString[..]) else outString[..])[..macSize]
    {
      hide Valid(), CounterStart, MaxMessage, XorStream, Tag, FinalCbc, Keystream, Feed, Flush, AuthState, ValidDigestSize,
        ProcessOutcome, FinalOutcome;
      InShape();
      MessageOutcomes(inString.Length, L, forEncryption, macSize <= DigestSize());
      outcome := ProcessData(outString, inString);
      assert message == if forEncryption then old(inString[..]) else outString[..];
      outcome := TruncatedFinal(mac, macSize);
    }

    lemma {:induction false} BufferSize()
      requires Valid()
      ensures buffer.Length == 32 && bufferedDataLength < 16 && L <= 8 && (state != Start ==> ValidDigestSize(digestSize))
    {
    }

    lemma {:induction false} InShape()
      requires Valid() && IvIsSet()
      ensures ValidDigestSize(digestSize) && 7 <= |nonce| <= 13 && L == 15 - |nonce| && ctrIv == CounterStart(nonce)
      ensures buffer.Length == 32 && bufferedDataLength < 16 && (state == IVSet ==> message == [])
    {
    }

    /** AuthenticatedSymmetricCipher::EncryptAndAuthenticate: ciphertext and tag of RFC 3610. */
    method EncryptAndAuthenticate(ciphertext: array<byte>, mac: array<byte>, iv: seq<byte>, headerBytes: array<byte>,
        plaintext: array<byte>) returns (outcome: Outcome)
      requires Valid() && forEncryption && headerBytes.Length < TWO64 && headerBytes != buffer
      requires ciphertext.Length == plaintext.Length < TWO64 && mac != ciphertext
      requires ciphertext != buffer && plaintext != buffer && mac != buffer
      modifies this, buffer, ciphertext, mac
      ensures Valid() && E == old(E) && digestSize == old(digestSize)
      ensures outcome.Done? <==>
        && old(state) != Start && 7 <= |iv| <= 13 && plaintext.Length <= MaxMessage(15 - |iv|)
        && mac.Length <= digestSize
      ensures outcome.Done? ==> ValidDigestSize(digestSize)
      ensures outcome.Done? ==> ciphertext[..] == XorStream(E, CounterStart(iv), 16, old(plaintext[..]))
      ensures outcome.Done? ==> mac[..] == Tag(E, digestSize, iv, old(headerBytes[..]), old(plaintext[..]))[..mac.Length]
    {
      hide Valid(), CounterStart, MaxMessage, XorStream, Tag, Feed, Flush, AuthState;
      outcome := Prepare(iv, headerBytes, plaintext.Length);
      if !outcome.Done? {
        return;
      }
      outcome := ProcessMessage(ciphertext, plaintext, mac, mac.Length);
      assert mac[..mac.Length] == mac[..];
      SmallDigestSize(digestSize);
    }

    /** AuthenticatedSymmetricCipher::DecryptAndVerify: accepts exactly the tag of RFC 3610 for what it decrypted. */
    method DecryptAndVerify(plaintext: array<byte>, mac: seq<byte>, iv: seq<byte>, headerBytes: array<byte>,
        ciphertext: array<byte>) returns (outcome: Outcome, verified: bool)
      requires Valid() && !forEncryption && headerBytes.Length < TWO64 && headerBytes != buffer
      requires ciphertext.Length == plaintext.Length < TWO64
      requires ciphertext != buffer && plaintext != buffer
      modifies this, buffer, plaintext
      ensures Valid() && E == old(E) && digestSize == old(digestSize)
      ensures outcome.Done? <==>
        && old(state) != Start && 7 <= |iv| <= 13 && ciphertext.Length <= MaxMessage(15 - |iv|)
        && |mac| <= digestSize
      ensures outcome.Done? ==> ValidDigestSize(digestSize)
      ensures outcome.Done? ==> plaintext[..] == XorStream(E, CounterStart(iv), 16, old(ciphertext[..]))
      ensures outcome.Done? ==>
        (verified <==> mac == Tag(E, digestSize, iv, old(headerBytes[..]), plaintext[..])[..|mac|])
    {
      hide Valid(), CounterStart, MaxMessage, XorStream, Tag, Feed, Flush, AuthState;
      verified := false;
      outcome := Prepare(iv, headerBytes, ciphertext.Length);
      if !outcome.Done? {
        return;
      }
      var calculated := new byte[|mac|](_ => 0);
      outcome := ProcessMessage(plaintext, ciphertext, calculated, |mac|);
      SmallDigestSize(digestSize);
      assert calculated[..|mac|] == calculated[..];
      verified := outcome.Done? && calculated[..] == mac;
    }
  }

  /** What one object encrypts, another with the same key, digest size and nonce decrypts and accepts. */
  method EncryptThenDecrypt(encryptor: Ccm, decryptor: Ccm, iv: seq<byte>, headerBytes: array<byte>, plaintext: array<byte>,
      macSize: nat) returns (outcome: Outcome, recovered: array<byte>, verified: bool)
    requires encryptor.Valid() && decryptor.Valid() && encryptor.forEncryption && !decryptor.forEncryption
    requires encryptor != decryptor && encryptor.buffer != decryptor.buffer
    requires encryptor.E == decryptor.E && encryptor.digestSize == decryptor.digestSize
    requires decryptor.state != Start
    requires headerBytes !in {encryptor.buffer, decryptor.buffer} && plaintext !in {encryptor.buffer, decryptor.buffer}
    requires headerBytes.Length < TWO64 && plaintext.Length < TWO64
    modifies encryptor, encryptor.buffer, decryptor, decryptor.buffer
    ensures outcome.Done? <==>
      && old(encryptor.state) != Start && 7 <= |iv| <= 13 && plaintext.Length <= MaxMessage(15 - |iv|)
      && macSize <= encryptor.digestSize
    ensures outcome.Done? ==> verified && recovered[..] == plaintext[..]
  {
    hide Ccm.Valid, CounterStart, MaxMessage, XorStream, Tag, ValidDigestSize;
    var ciphertext := new byte[plaintext.Length](_ => 0);
    var mac := new byte[macSize](_ => 0);
    recovered, verified := new byte[plaintext.Length](_ => 0), false;
    outcome := encryptor.EncryptAndAuthenticate(ciphertext, mac, iv, headerBytes, plaintext);
    if !outcome.Done? {
      return;
    }
    XorStreamTwice(encryptor.E, CounterStart(iv), 16, plaintext[..]);
    outcome, verified := decryptor.DecryptAndVerify(recovered, mac[..], iv, headerBytes, ciphertext);
    assert recovered[..] == plaintext[..];
  }

  /** A message of the length specified, after a header of the length specified. */
  lemma {:induction false} MessageOutcomes(length: nat, L: nat, forEncryption: bool, sizeFits: bool)
    requires L <= 8 && length <= MaxMessage(L)
    ensures ProcessOutcome(IVSet, length, L, 0, true) == Done
    ensures var state := if forEncryption then AuthUntransformed else AuthTransformed;
            FinalOutcome(state, sizeFits, 0, true, true) == if sizeFits then Done else InvalidArgument
  {
  }

  lemma {:induction false} SmallDigestSize(n: int)
    ensures ValidDigestSize(n) ==> n % TWO32 == n
  {
  }

  /** The longest message is the largest number of L bytes. */
  lemma {:induction false} MaxMessageFits(L: nat)
    requires L <= 8
    ensures MaxMessage(L) + 1 == Pow2(8 * L)
  {
    ByteShift(1, L);
    ShlOne(8 * L);
    BytesHold();
  }

  /** The tag lengths of RFC 3610. */
  lemma {:induction false} TagLengths(n: int)
    ensures ValidDigestSize(n) <==> n in {4, 6, 8, 10, 12, 14, 16}
  {
  }

  /** A final call succeeds exactly for a size that fits and complete lengths, once an IV is set. */
  lemma {:induction false} FinalSucceedsIff(state: State, sizeFits: bool, footer: nat, headerComplete: bool,
      messageComplete: bool)
    ensures FinalOutcome(state, sizeFits, footer, headerComplete, messageComplete).Done? <==>
      && sizeFits && footer == 0
      && match state {
           case Start => false
           case KeySet => false
           case IVSet => headerComplete && messageComplete
           case AuthUntransformed => messageComplete
           case AuthTransformed => messageComplete
           case AuthFooter => true
         }
  {
  }

  /** Data is processed exactly while the message is within its limit, behind a complete header and before a footer. */
  lemma {:induction false} ProcessSucceedsIff(state: State, length: nat, L: nat, total: nat, headerComplete: bool)
    requires L <= 8
    ensures ProcessOutcome(state, length, L, total, headerComplete).Done? <==>
      && length + total < Pow2(8 * L)
      && match state {
           case IVSet => headerComplete
           case AuthUntransformed => true
           case AuthTransformed => true
           case _ => false
         }
  {
    MaxMessageFits(L);
  }

  /** How TruncatedFinal ends. */
  function FinalOutcome(state: State, sizeFits: bool, footer: nat, headerComplete: bool, messageComplete: bool): Outcome {
    if !sizeFits || footer > 0 then InvalidArgument
    else if state == Start || state == KeySet then BadState
    else if state == IVSet && !headerComplete then InvalidArgument
    else if state != AuthFooter && !messageComplete then InvalidArgument
    else Done
  }

  /** How ProcessData ends: the length check comes before the state check, but only once an IV is set. */
  function ProcessOutcome(state: State, length: nat, L: nat, total: nat, headerComplete: bool): Outcome
    requires L <= 8
  {
    if state == Start || state == KeySet then BadState
    else if length + total > MaxMessage(L) then InvalidArgument
    else if state == AuthFooter then BadState
    else if state == IVSet && !headerComplete then InvalidArgument
    else Done
  }

  function Capped(n: nat, limit: nat): nat {
    if n > limit then limit else n
  }

  function MaxMessage(L: nat): nat
    requires L <= 8
  {
    if L < 8 then ShiftBytes(1, L) - 1 else TWO64 - 1
  }

  /** The three writes of Resync. */
  lemma {:induction false} IvLayout(start: seq<byte>, flag: byte, iv: seq<byte>)
    requires |start| == 32 && 7 <= |iv| <= 13
    ensures var first := start[..0] + [flag] + start[1..];
            var second := first[..1] + iv + first[1 + |iv|..];
            var third := second[..1 + |iv|] + Zeros(15 - |iv|) + second[16..];
            third[..16] == [flag] + iv + Zeros(15 - |iv|) && third[1..1 + |iv|] == iv && third[16..] == start[16..]
  {
  }

  lemma {:induction false} UnderOverlay(start: seq<byte>, flag: byte, n: nat, word: seq<byte>)
    requires |start| == 32 && n <= 13 && |word| == 8
    ensures var first := start[..16] + [flag] + start[17..];
            var second := first[..24] + word + first[32..];
            second[1..1 + n] == start[1..1 + n]
  {
    var first := start[..16] + [flag] + start[17..];
    var second := first[..24] + word + first[32..];
    assert first[..16] == start[..16];
    assert second[..16] == first[..16];
    InFirstHalf(second, n);
    InFirstHalf(start, n);
  }

  lemma {:induction false} OverLength(start: seq<byte>, flag: byte, n: nat, word: seq<byte>)
    requires |start| == 32 && 7 <= n <= 13 && |word| == 8
    ensures var second := (start[..16] + [flag] + start[17..])[..24] + word + (start[..16] + [flag] + start[17..])[32..];
            var third := second[..17] + start[1..1 + n] + second[17 + n..];
            third[..16] == start[..16] && third[16..] == [flag] + start[1..1 + n] + word[n - 7..]
  {
    var front, rest, iv := start[..16] + [flag], start[17..], start[1..1 + n];
    var second := (front + rest)[..24] + word + (front + rest)[32..];
    assert (front + rest)[..24] == front + rest[..7] && (front + rest)[32..] == [];
    assert second == front + (rest[..7] + word);
    assert second[..17] == front;
    assert second[17 + n..] == (rest[..7] + word)[n..] == word[n - 7..];
    assert front + iv + word[n - 7..] == start[..16] + ([flag] + iv + word[n - 7..]);
  }

  /** The three writes that lay out the first block: the nonce covers the unused top of the length. */
  lemma {:induction false} Overlay(start: seq<byte>, flag: byte, n: nat, length: nat)
    requires |start| == 32 && 7 <= n <= 13
    ensures var iv := start[1..1 + n];
            var first := start[..16] + [flag] + start[17..];
            var second := first[..24] + BigEndian(length, 8) + first[32..];
            var third := second[..17] + iv + second[17 + n..];
            second[1..1 + n] == iv && third[..16] == start[..16] && third[16..] == [flag] + iv + BigEndian(length, 15 - n)
  {
    hide BigEndian;
    BigEndianEnd(length, 8, 15 - n);
    UnderOverlay(start, flag, n, BigEndian(length, 8));
    OverLength(start, flag, n, BigEndian(length, 8));
  }

  lemma {:induction false} InFirstHalf(b: seq<byte>, n: nat)
    requires |b| == 32 && n < 16
    ensures b[..16][1..1 + n] == b[1..1 + n]
  {
  }

  lemma {:induction false} OverTwice(first: Block, a: seq<byte>, b: seq<byte>)
    requires |a| + |b| <= 16
    ensures Over(Over(first, 0, a), |a|, b) == Over(first, 0, a + b)
  {
  }

  /** The length prefix is what is buffered once it is written over the front. */
  lemma {:induction false} PrefixPending(first: Block, n: nat)
    ensures n > 0 ==> Over(first, 0, HeaderLength(n))[..|HeaderLength(n)|] == HeaderLength(n)
    ensures n == 0 ==> HeaderLength(n) == []
  {
  }

  lemma {:induction false} AppendLayout(start: seq<byte>, at: nat, d: seq<byte>)
    requires |start| == 32 && at + |d| <= 16
    ensures var b := start[..at] + d + start[at + |d|..];
            && b[..at + |d|] == start[..at] + d && b[16..] == start[16..] && b[..16] == Over(start[..16], at, d)
  {
  }

  lemma {:induction false} SliceOfSlice(s: seq<byte>, at: nat, length: nat, i: nat, j: nat)
    requires i <= j <= length && at + length <= |s|
    ensures s[at..at + length][i..j] == s[at + i..at + j]
  {
    var a, b := s[at..at + length][i..j], s[at + i..at + j];
    forall k | 0 <= k < j - i ensures a[k] == b[k] {
      assert a[k] == s[at..at + length][i + k] == s[at + (i + k)];
    }
  }

  lemma {:induction false} NothingPut(job: Job)
    requires job.Fits()
    ensures job.Result(0) == job.output
  {
  }

  /** The chaining value after so many blocks of the data. */
  ghost function CbcFront(E: Cipher, start: Block, data: seq<byte>, blocks: nat): Block
    requires 16 * blocks <= |data|
  {
    Cbc(E, start, data[..16 * blocks])
  }

  lemma {:induction false} NoBlocks(E: Cipher, start: Block, data: seq<byte>)
    ensures Cbc(E, start, data[..0]) == start == CbcFront(E, start, data, 0)
  {
  }

  lemma {:induction false} OneMoreBlock(E: Cipher, start: Block, data: seq<byte>, blocks: nat)
    requires 16 * blocks + 16 <= |data|
    ensures CbcFront(E, start, data, blocks + 1)
      == E(XorBlock(CbcFront(E, start, data, blocks), data[16 * blocks..16 * blocks + 16]))
  {
    hide XorBlock;
    var done := 16 * blocks;
    var d := data[..done + 16];
    assert d[..|d| - 16] == data[..done] && d[|d| - 16..] == data[done..done + 16];
  }

  lemma {:induction false} FrontOfSlice(E: Cipher, start: Block, data: seq<byte>, at: nat, length: nat, blocks: nat)
    requires 16 * blocks <= length && at + length <= |data|
    ensures CbcFront(E, start, data[at..at + length], blocks) == Cbc(E, start, data[at..at + 16 * blocks])
  {
    SliceOfSlice(data, at, length, 0, 16 * blocks);
  }

  lemma {:induction false} FeedRest(E: Cipher, s: Auth, first: Block, input: seq<byte>, at: nat, left: nat)
    requires s.pending == [] && at <= |input| && left == (|input| - at) % 16
    ensures Feed(E, s, input[at..]) == Auth(Cbc(E, s.cbc, input[at..|input| - left]), input[|input| - left..])
    ensures SpreadRest(first, input[at..]) == Over(first, 0, input[|input| - left..])
  {
    hide Cbc, Over;
    var rest := input[at..];
    assert s.pending + rest == rest;
    assert rest[..|rest| - left] == input[at..|input| - left] && rest[|rest| - left..] == input[|input| - left..];
  }

  lemma {:induction false} ShortInput(E: Cipher, s: Auth, input: seq<byte>)
    requires |s.pending| + |input| < 16
    ensures Feed(E, s, input) == Auth(s.cbc, s.pending + input)
  {
  }
}
