/** Which orders of SpecifyDataLengths and Update before the message give the tag of RFC 3610 (ccm.cpp, authenc.cpp). */
module CcmCallOrder {
  import opened Arithmetic
  import opened ByteStrings
  import opened CbcMac
  import opened CcmMode

  /** A call between Resynchronize and the message. */
  datatype Call = Header(data: seq<byte>) | Lengths(headerLength: nat, messageLength: nat)

  function HeaderOf(calls: seq<Call>): seq<byte> {
    if |calls| == 0 then []
    else
      var last := calls[|calls| - 1];
      HeaderOf(calls[..|calls| - 1]) + if last.Header? then last.data else []
  }

  /** The place of the last SpecifyDataLengths, or -1. */
  function LastLengths(calls: seq<Call>): (i: int)
    ensures -1 <= i < |calls| && (i >= 0 ==> calls[i].Lengths?)
    ensures forall j :: i < j < |calls| ==> calls[j].Header?
  {
    if |calls| == 0 then -1
    else if calls[|calls| - 1].Lengths? then |calls| - 1
    else LastLengths(calls[..|calls| - 1])
  }

  function SpecifiedHeader(calls: seq<Call>): nat {
    if LastLengths(calls) < 0 then 0 else calls[LastLengths(calls)].headerLength
  }

  function SpecifiedMessage(calls: seq<Call>): nat {
    if LastLengths(calls) < 0 then 0 else calls[LastLengths(calls)].messageLength
  }

  /** The totals are those specified last, or zero. */
  predicate Accepts(calls: seq<Call>, messageLength: nat) {
    SpecifiedHeader(calls) == |HeaderOf(calls)| % TWO64 && SpecifiedMessage(calls) == messageLength
  }

  /** Leaves the buffer alone. */
  predicate Idle(c: Call) {
    match c
    case Header(data) => data == []
    case Lengths(headerLength, _) => headerLength == 0
  }

  /** The lengths are specified, and before they are for the last time, no header byte is: neither fed nor announced. */
  predicate InOrder(calls: seq<Call>) {
    LastLengths(calls) >= 0 && forall j :: 0 <= j < LastLengths(calls) ==> Idle(calls[j])
  }

  /** The same calls with as many bytes. */
  predicate SameShape(a: seq<Call>, b: seq<Call>) {
    && |a| == |b|
    && forall i :: 0 <= i < |a| ==>
         if a[i].Lengths? then a[i] == b[i] else b[i].Header? && |a[i].data| == |b[i].data|
  }

  // ---- the run as the object makes it ----

  /** The half of the buffer that takes partial blocks, and the CBC-MAC state. */
  datatype Phase = Phase(first: Block, auth: Auth)

  function Begin(cbc: Block, nonce: seq<byte>): Phase
    requires 7 <= |nonce| <= 13
  {
    Phase(CounterStart(nonce), Auth(cbc, []))
  }

  /** One call; the nonce, of n bytes, is read back from the buffer. */
  function Step(E: Cipher, tagLength: nat, n: nat, s: Phase, c: Call): (r: Phase)
    requires 7 <= n <= 13 && 4 <= tagLength <= 16 && |s.auth.pending| < 16
    ensures |r.auth.pending| < 16
  {
    match c
    case Header(data) => Phase(Spread(s.first, |s.auth.pending|, data), Feed(E, s.auth, data))
    case Lengths(header, message) =>
      var cbc := E(Block0(tagLength, s.first[1..1 + n], header > 0, message));
      if header == 0 then Phase(s.first, Auth(cbc, s.auth.pending))
      else Phase(Over(s.first, 0, HeaderLength(header)), Auth(cbc, HeaderLength(header)))
  }

  function Run(E: Cipher, tagLength: nat, n: nat, s: Phase, calls: seq<Call>): (r: Phase)
    requires 7 <= n <= 13 && 4 <= tagLength <= 16 && |s.auth.pending| < 16
    ensures |r.auth.pending| < 16
  {
    if |calls| == 0 then s
    else Step(E, tagLength, n, Run(E, tagLength, n, s, calls[..|calls| - 1]), calls[|calls| - 1])
  }

  /** The chaining value once header and message are closed. */
  function Held(E: Cipher, s: Auth, message: seq<byte>): Block
    requires |s.pending| < 16
  {
    FedPending(E, Flush(E, s), message);
    Flush(E, Feed(E, Flush(E, s), message)).cbc
  }

  lemma {:induction false} FedPending(E: Cipher, s: Auth, d: seq<byte>)
    ensures |Feed(E, s, d).pending| < 16
  {
  }

  ghost function RunTag(E: Cipher, tagLength: nat, cbc: Block, nonce: seq<byte>, calls: seq<Call>, message: seq<byte>): Block
    requires 7 <= |nonce| <= 13 && 4 <= tagLength <= 16
  {
    XorStream(E, CounterStart(nonce), 0, Held(E, Run(E, tagLength, |nonce|, Begin(cbc, nonce), calls).auth, message))
  }

  // ---- in order: the tag of RFC 3610 ----

  lemma {:induction false} IdleRun(E: Cipher, tagLength: nat, n: nat, s: Phase, calls: seq<Call>)
    requires 7 <= n <= 13 && 4 <= tagLength <= 16 && s.auth.pending == []
    requires forall j :: 0 <= j < |calls| ==> Idle(calls[j])
    ensures HeaderOf(calls) == []
    ensures Run(E, tagLength, n, s, calls).first == s.first && Run(E, tagLength, n, s, calls).auth.pending == []
    decreases |calls|
  {
    hide Feed, Spread, Block0, HeaderLength;
    if |calls| > 0 {
      var front := calls[..|calls| - 1];
      IdleRun(E, tagLength, n, s, front);
      var r := Run(E, tagLength, n, s, front);
      SpreadNothing(r.first, 0);
      FeedNothing(E, r.auth);
    }
  }

  lemma {:induction false} NonceInPlace(nonce: seq<byte>)
    requires 7 <= |nonce| <= 13
    ensures CounterStart(nonce)[1..1 + |nonce|] == nonce
  {
  }

  ghost function InStep(E: Cipher, tagLength: nat, nonce: seq<byte>, calls: seq<Call>): Auth
    requires 7 <= |nonce| <= 13 && 4 <= tagLength <= 16
  {
    Feed(E, Fresh(), Block0(tagLength, nonce, SpecifiedHeader(calls) > 0, SpecifiedMessage(calls))
      + (HeaderLength(SpecifiedHeader(calls)) + HeaderOf(calls)))
  }

  lemma {:induction false} InOrderRun(E: Cipher, tagLength: nat, cbc: Block, nonce: seq<byte>, calls: seq<Call>)
    requires 7 <= |nonce| <= 13 && 4 <= tagLength <= 16 && InOrder(calls)
    ensures Run(E, tagLength, |nonce|, Begin(cbc, nonce), calls).auth == InStep(E, tagLength, nonce, calls)
    decreases |calls|
  {
    hide Feed, Spread, Block0, HeaderLength, CounterStart, Over;
    var front, last := calls[..|calls| - 1], calls[|calls| - 1];
    if last.Lengths? {
      IdleRun(E, tagLength, |nonce|, Begin(cbc, nonce), front);
      NonceInPlace(nonce);
      assert HeaderOf(calls) == [];
      NoLengthPrefix();
      LengthPending(E, Block0(tagLength, nonce, last.headerLength > 0, last.messageLength), HeaderLength(last.headerLength),
        HeaderOf(calls));
    } else {
      InOrderRun(E, tagLength, cbc, nonce, front);
      AppendHeader(E, Block0(tagLength, nonce, SpecifiedHeader(front) > 0, SpecifiedMessage(front)),
        HeaderLength(SpecifiedHeader(front)), HeaderOf(front), last.data);
    }
  }

  lemma {:induction false} NoLengthPrefix()
    ensures HeaderLength(0) == []
  {
  }

  lemma {:induction false} InOrderTag(E: Cipher, tagLength: nat, cbc: Block, nonce: seq<byte>, calls: seq<Call>,
      message: seq<byte>)
    requires 7 <= |nonce| <= 13 && 4 <= tagLength <= 16 && InOrder(calls)
    requires Accepts(calls, |message|) && |HeaderOf(calls)| < TWO64
    ensures RunTag(E, tagLength, cbc, nonce, calls, message) == Tag(E, tagLength, nonce, HeaderOf(calls), message)
  {
    hide Feed, Flush, Run, Cbc, Block0, Padded, HeaderLength, XorStream, CounterStart, AuthenticatedInput;
    InOrderRun(E, tagLength, cbc, nonce, calls);
    var s, header := InStep(E, tagLength, nonce, calls), HeaderOf(calls);
    var block0 := Block0(tagLength, nonce, |header| > 0, |message|);
    var front := block0 + Padded(HeaderLength(|header|) + header);
    HeaderDone(E, block0, HeaderLength(|header|) + header, s);
    AppendFed(E, front, [], message);
    assert [] + message == message;
    FedPending(E, Fresh(), front + message);
    TagInput(E, tagLength, nonce, header, message, Feed(E, Fresh(), front + message));
  }

  // ---- without SpecifyDataLengths ----

  lemma {:induction false} NeverSpecified(calls: seq<Call>)
    requires LastLengths(calls) < 0 && HeaderOf(calls) == []
    ensures forall j :: 0 <= j < |calls| ==> Idle(calls[j])
    decreases |calls|
  {
    if |calls| > 0 {
      NeverSpecified(calls[..|calls| - 1]);
    }
  }

  lemma {:induction false} EmptyRfc(E: Cipher, tagLength: nat, nonce: seq<byte>)
    requires 7 <= |nonce| <= 13 && 4 <= tagLength <= 16
    ensures Cbc(E, Zeros(16), AuthenticatedInput(tagLength, nonce, [], [])) == E(Block0(tagLength, nonce, false, 0))
  {
    hide Cbc, Block0;
    var block0 := Block0(tagLength, nonce, false, 0);
    assert AuthenticatedInput(tagLength, nonce, [], []) == block0;
    FirstBlock(E, block0);
    assert [] + block0 == block0 && block0[..16] == block0;
  }

  lemma {:induction false} StreamDecides(E: Cipher, iv: Block, a: Block, b: Block, k: nat)
    requires k <= 16
    ensures XorStream(E, iv, 0, a)[..k] == XorStream(E, iv, 0, b)[..k] <==> a[..k] == b[..k]
  {
    hide Xor, Keystream;
    var x, y := XorStream(E, iv, 0, a), XorStream(E, iv, 0, b);
    if x[..k] == y[..k] {
      forall i | 0 <= i < k ensures a[..k][i] == b[..k][i] {
        assert x[i] == x[..k][i] == y[..k][i] == y[i];
        XorTwice(a[i], Keystream(E, iv, i));
        XorTwice(b[i], Keystream(E, iv, i));
      }
      assert a[..k] == b[..k];
    } else if a[..k] == b[..k] {
      forall i | 0 <= i < k ensures x[..k][i] == y[..k][i] {
        assert a[i] == a[..k][i] == b[..k][i] == b[i];
      }
    }
  }

  lemma {:induction false} HeldEmpty(E: Cipher, s: Auth)
    requires |s.pending| < 16
    ensures Held(E, s, []) == Flush(E, s).cbc
  {
  }

  /** Without lengths a run is accepted exactly if header and message are empty; its tag is then the one of RFC 3610
      exactly as far as the CBC buffer happens to hold the first block encrypted. */
  lemma {:induction false} NoLengthsIff(E: Cipher, tagLength: nat, cbc: Block, nonce: seq<byte>, calls: seq<Call>,
      message: seq<byte>, k: nat)
    requires 7 <= |nonce| <= 13 && 4 <= tagLength <= 16 && k <= 16
    requires LastLengths(calls) < 0 && |HeaderOf(calls)| < TWO64
    ensures Accepts(calls, |message|) <==> HeaderOf(calls) == [] && message == []
    ensures Accepts(calls, |message|) ==>
      (RunTag(E, tagLength, cbc, nonce, calls, message)[..k] == Tag(E, tagLength, nonce, [], message)[..k]
       <==> cbc[..k] == E(Block0(tagLength, nonce, false, 0))[..k])
  {
    hide Run, Cbc, Block0, XorStream, CounterStart, AuthenticatedInput;
    if Accepts(calls, |message|) {
      assert HeaderOf(calls) == [] && message == [];
      NeverSpecified(calls);
      UntouchedHeld(E, tagLength, cbc, nonce, calls);
      EmptyRfc(E, tagLength, nonce);
      StreamDecides(E, CounterStart(nonce), cbc, E(Block0(tagLength, nonce, false, 0)), k);
    }
  }

  lemma {:induction false} UntouchedHeld(E: Cipher, tagLength: nat, cbc: Block, nonce: seq<byte>, calls: seq<Call>)
    requires 7 <= |nonce| <= 13 && 4 <= tagLength <= 16 && LastLengths(calls) < 0
    requires forall j :: 0 <= j < |calls| ==> Idle(calls[j])
    ensures Held(E, Run(E, tagLength, |nonce|, Begin(cbc, nonce), calls).auth, []) == cbc
  {
    hide Feed, Spread, Block0, HeaderLength, CounterStart, Held;
    IdleRun(E, tagLength, |nonce|, Begin(cbc, nonce), calls);
    EmptyHeadersKeep(E, tagLength, |nonce|, Begin(cbc, nonce), calls);
    HeldEmpty(E, Auth(cbc, []));
  }

  lemma {:induction false} EmptyHeadersKeep(E: Cipher, tagLength: nat, n: nat, s: Phase, calls: seq<Call>)
    requires 7 <= n <= 13 && 4 <= tagLength <= 16 && s.auth.pending == [] && LastLengths(calls) < 0
    requires forall j :: 0 <= j < |calls| ==> Idle(calls[j])
    ensures Run(E, tagLength, n, s, calls) == s
    decreases |calls|
  {
    hide Feed, Spread, Block0, HeaderLength;
    if |calls| > 0 {
      EmptyHeadersKeep(E, tagLength, n, s, calls[..|calls| - 1]);
      SpreadNothing(s.first, 0);
      FeedNothing(E, s.auth);
    }
  }

  // ---- what distinguishes inputs ----

  ghost predicate DifferAt(a: seq<byte>, b: seq<byte>, i: nat) {
    |a| == |b| && i < |a| && a[i] != b[i] && forall k :: 0 <= k < |a| && k != i ==> a[k] == b[k]
  }

  /** Inputs that differ in one byte have CBC-MACs that differ in their first k bytes. */
  ghost predicate Shows(E: Cipher, k: nat)
    requires k <= 16
  {
    forall a: seq<byte>, b: seq<byte>, i: nat :: |a| % 16 == 0 && DifferAt(a, b, i) ==>
      Cbc(E, Zeros(16), a)[..k] != Cbc(E, Zeros(16), b)[..k]
  }

  /** What every block cipher is under one key. */
  ghost predicate Injective(E: Cipher) {
    forall a: Block, b: Block :: E(a) == E(b) ==> a == b
  }

  lemma {:induction false} XorBlockInjective(a: Block, b: Block, d: Block)
    requires XorBlock(a, d) == XorBlock(b, d)
    ensures a == b
  {
    hide Xor;
    forall i | 0 <= i < 16 ensures a[i] == b[i] {
      assert XorBlock(a, d)[i] == XorBlock(b, d)[i];
      XorTwice(a[i], d[i]);
      XorTwice(b[i], d[i]);
    }
  }

  lemma {:induction false} XorBlockCommutes(a: Block, b: Block)
    ensures XorBlock(a, b) == XorBlock(b, a)
  {
    hide Xor;
    forall i | 0 <= i < 16 ensures XorBlock(a, b)[i] == XorBlock(b, a)[i] { XorCommutes(a[i], b[i]); }
  }

  /** A single difference goes through the whole chain. */
  lemma {:induction false} InjectiveChain(E: Cipher, start: Block, a: seq<byte>, b: seq<byte>, i: nat)
    requires Injective(E) && |a| % 16 == 0 && DifferAt(a, b, i)
    ensures Cbc(E, start, a) != Cbc(E, start, b)
    decreases |a|
  {
    hide XorBlock;
    var n := |a| - 16;
    var c, d, x, y := Cbc(E, start, a[..n]), Cbc(E, start, b[..n]), a[n..], b[n..];
    if XorBlock(c, x) == XorBlock(d, y) {
      if i < n {
        InjectiveChain(E, start, a[..n], b[..n], i);
        assert x == y;
        XorBlockInjective(c, d, x);
      } else {
        assert a[..n] == b[..n] && x[i - n] != y[i - n];
        XorBlockCommutes(c, x);
        XorBlockCommutes(c, y);
        XorBlockInjective(x, y, c);
      }
    }
  }

  lemma {:induction false} InjectiveShows(E: Cipher)
    requires Injective(E)
    ensures Shows(E, 16)
  {
    hide Cbc, Injective;
    forall a: seq<byte>, b: seq<byte>, i: nat | |a| % 16 == 0 && DifferAt(a, b, i)
      ensures Cbc(E, Zeros(16), a)[..16] != Cbc(E, Zeros(16), b)[..16]
    {
      InjectiveChain(E, Zeros(16), a, b, i);
      WholeBlockCut(Cbc(E, Zeros(16), a));
      WholeBlockCut(Cbc(E, Zeros(16), b));
    }
  }

  lemma {:induction false} WholeBlockCut(b: Block)
    ensures b[..16] == b
  {
  }

  // ---- a function on blocks that shows every byte in the first ----

  function FoldFrom(p: byte, s: seq<byte>): byte {
    if |s| == 0 then p else Xor(FoldFrom(p, s[..|s| - 1]), s[|s| - 1])
  }

  /** All bytes of the block, folded into the first. */
  function Fold(b: Block): Block {
    [FoldFrom(b[0], b[1..])] + Zeros(15)
  }

  lemma {:induction false} FoldSplit(p: byte, a: seq<byte>, b: seq<byte>)
    ensures FoldFrom(p, a + b) == FoldFrom(FoldFrom(p, a), b)
    decreases |b|
  {
    hide Xor;
    if |b| == 0 {
      assert a + b == a;
    } else {
      FoldSplit(p, a, b[..|b| - 1]);
      assert (a + b)[..|a + b| - 1] == a + b[..|b| - 1];
    }
  }

  lemma {:induction false} FoldBlock(p: byte, d: Block)
    ensures Fold(XorBlock([p] + Zeros(15), d)) == [FoldFrom(p, d)] + Zeros(15)
  {
    hide Xor;
    var b := XorBlock([p] + Zeros(15), d);
    forall i | 1 <= i < 16 ensures b[i] == d[i] { XorWithZero(d[i]); }
    assert b[1..] == d[1..] && d == [d[0]] + d[1..];
    FoldSplit(p, [d[0]], d[1..]);
    assert [d[0]][..0] == [];
    assert FoldFrom(p, [d[0]]) == Xor(p, d[0]);
  }

  lemma {:induction false} FoldCbc(p: byte, data: seq<byte>)
    requires |data| % 16 == 0
    ensures Cbc(Fold, [p] + Zeros(15), data) == [FoldFrom(p, data)] + Zeros(15)
    decreases |data|
  {
    hide Xor, XorBlock, Fold;
    if |data| > 0 {
      var front, last := data[..|data| - 16], data[|data| - 16..];
      FoldCbc(p, front);
      FoldBlock(FoldFrom(p, front), last);
      FoldSplit(p, front, last);
      assert data == front + last;
    }
  }

  lemma {:induction false} FoldDiffers(p: byte, a: seq<byte>, b: seq<byte>, i: nat)
    requires DifferAt(a, b, i)
    ensures FoldFrom(p, a) != FoldFrom(p, b)
    decreases |a|
  {
    hide Xor;
    var a', b', x, y := a[..|a| - 1], b[..|a| - 1], a[|a| - 1], b[|a| - 1];
    if i == |a| - 1 {
      assert a' == b';
      XorCommutes(FoldFrom(p, a'), x);
      XorCommutes(FoldFrom(p, a'), y);
      XorTwice(x, FoldFrom(p, a'));
      XorTwice(y, FoldFrom(p, a'));
    } else {
      FoldDiffers(p, a', b', i);
      XorTwice(FoldFrom(p, a'), x);
      XorTwice(FoldFrom(p, b'), x);
    }
  }

  lemma {:induction false} FoldShows(k: nat)
    requires 0 < k <= 16
    ensures Shows(Fold, k)
  {
    hide Cbc, FoldFrom;
    forall a: seq<byte>, b: seq<byte>, i: nat | |a| % 16 == 0 && DifferAt(a, b, i)
      ensures Cbc(Fold, Zeros(16), a)[..k] != Cbc(Fold, Zeros(16), b)[..k]
    {
      FoldDiffers(0, a, b, i);
      assert Zeros(16) == [0] + Zeros(15);
      FoldCbc(0, a);
      FoldCbc(0, b);
      FirstDiffers(Cbc(Fold, Zeros(16), a), Cbc(Fold, Zeros(16), b), k);
    }
  }

  lemma {:induction false} FirstDiffers(a: Block, b: Block, k: nat)
    requires 0 < k <= 16 && a[0] != b[0]
    ensures a[..k] != b[..k]
  {
  }

  lemma {:induction false} DifferInside(p: seq<byte>, a: seq<byte>, b: seq<byte>, q: seq<byte>, i: nat)
    requires DifferAt(a, b, i)
    ensures DifferAt(p + a + q, p + b + q, |p| + i)
  {
  }

  /** The CBC-MAC of RFC 3610. */
  ghost function RfcState(E: Cipher, tagLength: nat, nonce: seq<byte>, header: seq<byte>, message: seq<byte>): Block
    requires 7 <= |nonce| <= 13 && 4 <= tagLength <= 16
  {
    Cbc(E, Zeros(16), AuthenticatedInput(tagLength, nonce, header, message))
  }

  lemma {:induction false} NonceShows(E: Cipher, tagLength: nat, nonce: seq<byte>, other: seq<byte>, header: seq<byte>,
      message: seq<byte>, k: nat)
    requires 7 <= |nonce| <= 13 && 4 <= tagLength <= 16 && DifferAt(nonce, other, 0) && k <= 16 && Shows(E, k)
    ensures RfcState(E, tagLength, nonce, header, message)[..k] != RfcState(E, tagLength, other, header, message)[..k]
  {
    hide Cbc, Padded, HeaderLength, BigEndian;
    var flags := [(if |header| > 0 then 64 else 0) + 8 * ((tagLength - 2) / 2) + (14 - |nonce|)];
    var length := BigEndian(|message|, 15 - |nonce|);
    var end := Padded(HeaderLength(|header|) + header) + Padded(message);
    DifferInside(flags, nonce, other, length + end, 0);
    Reassociate(flags, nonce, length, Padded(HeaderLength(|header|) + header), Padded(message));
    Reassociate(flags, other, length, Padded(HeaderLength(|header|) + header), Padded(message));
    assert DifferAt(AuthenticatedInput(tagLength, nonce, header, message),
      AuthenticatedInput(tagLength, other, header, message), 1);
  }

  lemma {:induction false} Reassociate(a: seq<byte>, b: seq<byte>, c: seq<byte>, d: seq<byte>, e: seq<byte>)
    ensures a + b + c + d + e == a + b + (c + (d + e))
  {
  }

  lemma {:induction false} HeaderShows(E: Cipher, tagLength: nat, nonce: seq<byte>, header: seq<byte>, other: seq<byte>,
      message: seq<byte>, k: nat)
    requires 7 <= |nonce| <= 13 && 4 <= tagLength <= 16 && DifferAt(header, other, 0) && k <= 16 && Shows(E, k)
    ensures RfcState(E, tagLength, nonce, header, message)[..k] != RfcState(E, tagLength, nonce, other, message)[..k]
  {
    hide Cbc, HeaderLength, BigEndian, Block0, PadLength, Padded, AuthenticatedInput, Zeros;
    var front := Block0(tagLength, nonce, true, |message|) + HeaderLength(|header|);
    var rest := Zeros(PadLength(|HeaderLength(|header|)| + |header|)) + Padded(message);
    InputParts(tagLength, nonce, header, message);
    InputParts(tagLength, nonce, other, message);
    DifferInside(front, header, other, rest, 0);
    assert DifferAt(AuthenticatedInput(tagLength, nonce, header, message),
      AuthenticatedInput(tagLength, nonce, other, message), |front|);
  }

  lemma {:induction false} InputParts(tagLength: nat, nonce: seq<byte>, header: seq<byte>, message: seq<byte>)
    requires 7 <= |nonce| <= 13 && 4 <= tagLength <= 16 && header != []
    ensures AuthenticatedInput(tagLength, nonce, header, message)
      == Block0(tagLength, nonce, true, |message|) + HeaderLength(|header|) + header
         + (Zeros(PadLength(|HeaderLength(|header|)| + |header|)) + Padded(message))
  {
  }

  // ---- out of order: what the object forgets ----

  /** The same but for the CBC buffer and the byte at x. */
  ghost predicate SameBut(x: nat, s: Phase, r: Phase) {
    && |s.auth.pending| == |r.auth.pending| < 16
    && (forall k :: 0 <= k < 16 && k != x ==> s.first[k] == r.first[k])
    && (forall k :: 0 <= k < |s.auth.pending| && k != x ==> s.auth.pending[k] == r.auth.pending[k])
  }

  ghost predicate SameBuffer(s: Phase, r: Phase) {
    s.first == r.first && s.auth.pending == r.auth.pending
  }

  lemma {:induction false} SameFeed(E: Cipher, x: nat, s: Auth, r: Auth, d: seq<byte>)
    requires |s.pending| == |r.pending| < 16
    requires forall k :: 0 <= k < |s.pending| && k != x ==> s.pending[k] == r.pending[k]
    ensures var a, b := Feed(E, s, d).pending, Feed(E, r, d).pending;
            |a| == |b| && forall k :: 0 <= k < |a| && k != x ==> a[k] == b[k]
  {
  }

  lemma {:induction false} SameSpread(x: nat, a: Block, b: Block, n: nat, d: seq<byte>)
    requires n < 16 && forall k :: 0 <= k < 16 && k != x ==> a[k] == b[k]
    ensures var s, r := Spread(a, n, d), Spread(b, n, d);
            forall k :: 0 <= k < 16 && k != x ==> s[k] == r[k]
  {
  }

  lemma {:induction false} SameButStep(E: Cipher, tagLength: nat, n: nat, x: nat, s: Phase, r: Phase, c: Call)
    requires 7 <= n <= 13 && 4 <= tagLength <= 16 && x <= 1 && SameBut(x, s, r)
    ensures SameBut(x, Step(E, tagLength, n, s, c), Step(E, tagLength, n, r, c))
    ensures c.Lengths? && c.headerLength > 0 ==> SameBuffer(Step(E, tagLength, n, s, c), Step(E, tagLength, n, r, c))
    ensures c.Lengths? && c.headerLength > 0 && x == 0 ==> Step(E, tagLength, n, s, c) == Step(E, tagLength, n, r, c)
  {
    hide Feed, Spread, Block0, BigEndian;
    match c
    case Header(data) =>
      SameFeed(E, x, s.auth, r.auth, data);
      SameSpread(x, s.first, r.first, |s.auth.pending|, data);
    case Lengths(header, message) =>
      if x == 0 { assert s.first[1..1 + n] == r.first[1..1 + n]; }
      if header > 0 {
        PrefixCovers(header);
        assert Over(s.first, 0, HeaderLength(header)) == Over(r.first, 0, HeaderLength(header));
      }
  }

  lemma {:induction false} PrefixCovers(n: nat)
    requires n > 0
    ensures |HeaderLength(n)| >= 2
  {
  }

  lemma {:induction false} SameBufferStep(E: Cipher, tagLength: nat, n: nat, s: Phase, r: Phase, c: Call)
    requires 7 <= n <= 13 && 4 <= tagLength <= 16 && SameBuffer(s, r) && |s.auth.pending| < 16
    ensures SameBuffer(Step(E, tagLength, n, s, c), Step(E, tagLength, n, r, c))
    ensures c.Lengths? ==> Step(E, tagLength, n, s, c) == Step(E, tagLength, n, r, c)
  {
  }

  /** Lengths with a header overwrite the nonce, and lengths specified again no longer depend on it. */
  lemma {:induction false} NonceForgotten(E: Cipher, tagLength: nat, n: nat, s: Phase, r: Phase, calls: seq<Call>, j: nat)
    requires 7 <= n <= 13 && 4 <= tagLength <= 16 && SameBut(1, s, r)
    requires j < |calls| && calls[j].Lengths? && calls[j].headerLength > 0
    ensures SameBuffer(Run(E, tagLength, n, s, calls), Run(E, tagLength, n, r, calls))
    ensures j < LastLengths(calls) ==> Run(E, tagLength, n, s, calls) == Run(E, tagLength, n, r, calls)
    decreases |calls|
  {
    hide Step, SameBut, SameBuffer;
    SameButShort(1, s, r);
    var front, last := calls[..|calls| - 1], calls[|calls| - 1];
    var a, b := Run(E, tagLength, n, s, front), Run(E, tagLength, n, r, front);
    if j == |calls| - 1 {
      SameButRun(E, tagLength, n, s, r, front);
      SameButStep(E, tagLength, n, 1, a, b, last);
    } else {
      NonceForgotten(E, tagLength, n, s, r, front, j);
      SameBufferStep(E, tagLength, n, a, b, last);
    }
  }

  lemma {:induction false} SameButRun(E: Cipher, tagLength: nat, n: nat, s: Phase, r: Phase, calls: seq<Call>)
    requires 7 <= n <= 13 && 4 <= tagLength <= 16 && SameBut(1, s, r)
    ensures SameBut(1, Run(E, tagLength, n, s, calls), Run(E, tagLength, n, r, calls))
    decreases |calls|
  {
    hide Step, SameBut, SameBuffer;
    SameButShort(1, s, r);
    if |calls| > 0 {
      var front := calls[..|calls| - 1];
      SameButRun(E, tagLength, n, s, r, front);
      SameButStep(E, tagLength, n, 1, Run(E, tagLength, n, s, front), Run(E, tagLength, n, r, front), calls[|calls| - 1]);
    }
  }

  lemma {:induction false} SameButShort(x: nat, s: Phase, r: Phase)
    requires SameBut(x, s, r)
    ensures |s.auth.pending| < 16 && |r.auth.pending| < 16
  {
  }

  /** Two orders of calls that differ in the first byte of the header part at j alone. */
  ghost predicate Twins(a: seq<Call>, b: seq<Call>, j: nat) {
    && |a| == |b| && j < |a| && a[j].Header? && b[j].Header? && DifferAt(a[j].data, b[j].data, 0)
    && forall i :: 0 <= i < |a| && i != j ==> a[i] == b[i]
  }

  /** Lengths with a header specified after that part replace all that depends on the byte. */
  lemma {:induction false} HeaderForgotten(E: Cipher, tagLength: nat, n: nat, s: Phase, a: seq<Call>, b: seq<Call>, j: nat)
    requires 7 <= n <= 13 && 4 <= tagLength <= 16 && s.auth.pending == []
    requires Twins(a, b, j) && forall i :: 0 <= i < j ==> Idle(a[i])
    ensures SameBut(0, Run(E, tagLength, n, s, a), Run(E, tagLength, n, s, b))
    ensures j < LastLengths(a) && SpecifiedHeader(a) > 0 ==> Run(E, tagLength, n, s, a) == Run(E, tagLength, n, s, b)
    decreases |a|
  {
    hide Step, SameBut, SameBuffer;
    var front, other, last := a[..|a| - 1], b[..|a| - 1], a[|a| - 1];
    var r, q := Run(E, tagLength, n, s, front), Run(E, tagLength, n, s, other);
    if j == |a| - 1 {
      assert front == other;
      IdleRun(E, tagLength, n, s, front);
      TwinStep(E, tagLength, n, r, a[j].data, b[j].data);
    } else {
      HeaderForgotten(E, tagLength, n, s, front, other, j);
      SameButStep(E, tagLength, n, 0, r, q, last);
    }
  }

  lemma {:induction false} TwinStep(E: Cipher, tagLength: nat, n: nat, s: Phase, d: seq<byte>, e: seq<byte>)
    requires 7 <= n <= 13 && 4 <= tagLength <= 16 && s.auth.pending == [] && DifferAt(d, e, 0)
    ensures SameBut(0, Step(E, tagLength, n, s, Header(d)), Step(E, tagLength, n, s, Header(e)))
  {
    hide Cbc;
    assert s.auth.pending + d == d && s.auth.pending + e == e;
  }

  lemma {:induction false} TwinHeaders(a: seq<Call>, b: seq<Call>, j: nat)
    requires Twins(a, b, j) && forall i :: 0 <= i < j ==> Idle(a[i])
    ensures DifferAt(HeaderOf(a), HeaderOf(b), 0)
    decreases |a|
  {
    var front, other, last := a[..|a| - 1], b[..|a| - 1], a[|a| - 1];
    if j == |a| - 1 {
      assert front == other;
      IdleHeaders(front);
    } else {
      TwinHeaders(front, other, j);
    }
  }

  lemma {:induction false} IdleHeaders(calls: seq<Call>)
    requires forall i :: 0 <= i < |calls| ==> Idle(calls[i])
    ensures HeaderOf(calls) == []
    decreases |calls|
  {
    if |calls| > 0 { IdleHeaders(calls[..|calls| - 1]); }
  }

  /** What the calls do and announce is the same for the same shape. */
  lemma {:induction false} ShapeDecides(a: seq<Call>, b: seq<Call>)
    requires SameShape(a, b)
    ensures LastLengths(a) == LastLengths(b) && |HeaderOf(a)| == |HeaderOf(b)|
    ensures SpecifiedHeader(a) == SpecifiedHeader(b) && SpecifiedMessage(a) == SpecifiedMessage(b)
    ensures InOrder(a) ==> InOrder(b)
    decreases |a|
  {
    if |a| > 0 {
      ShapeDecides(a[..|a| - 1], b[..|a| - 1]);
      assert SameShape(a[..|a| - 1], b[..|a| - 1]);
    }
  }

  // ---- the exact condition ----

  /** The first k bytes of the tag are those of RFC 3610. */
  ghost predicate Hits(E: Cipher, tagLength: nat, cbc: Block, nonce: seq<byte>, calls: seq<Call>, message: seq<byte>, k: nat)
    requires 7 <= |nonce| <= 13 && 4 <= tagLength <= 16 && k <= 16
  {
    RunTag(E, tagLength, cbc, nonce, calls, message)[..k] == Tag(E, tagLength, nonce, HeaderOf(calls), message)[..k]
  }

  /** With this cipher every nonce and header of these lengths gets the first k bytes of its tag. */
  ghost predicate GivesRfcTag(E: Cipher, tagLength: nat, cbc: Block, n: nat, calls: seq<Call>, message: seq<byte>, k: nat)
    requires 7 <= n <= 13 && 4 <= tagLength <= 16 && k <= 16
  {
    forall nonce: seq<byte>, cs: seq<Call> ::
      |nonce| == n && SameShape(calls, cs) ==> Hits(E, tagLength, cbc, nonce, cs, message, k)
  }

  lemma {:induction false} TagDecides(E: Cipher, tagLength: nat, cbc: Block, nonce: seq<byte>, calls: seq<Call>,
      message: seq<byte>, k: nat)
    requires 7 <= |nonce| <= 13 && 4 <= tagLength <= 16 && k <= 16
    ensures var held := Held(E, Run(E, tagLength, |nonce|, Begin(cbc, nonce), calls).auth, message);
            var rfc := RfcState(E, tagLength, nonce, HeaderOf(calls), message);
            Hits(E, tagLength, cbc, nonce, calls, message, k) <==> held[..k] == rfc[..k]
  {
    hide Run, Held, Cbc, XorStream, AuthenticatedInput, CounterStart;
    StreamDecides(E, CounterStart(nonce), Held(E, Run(E, tagLength, |nonce|, Begin(cbc, nonce), calls).auth, message),
      Cbc(E, Zeros(16), AuthenticatedInput(tagLength, nonce, HeaderOf(calls), message)), k);
  }

  /** One of two runs that end with the same state misses its tag if the two tags differ. */
  lemma {:induction false} OneMisses(E: Cipher, tagLength: nat, cbc: Block, nonce: seq<byte>, other: seq<byte>,
      a: seq<Call>, b: seq<Call>, message: seq<byte>, k: nat)
    requires 7 <= |nonce| == |other| <= 13 && 4 <= tagLength <= 16 && k <= 16
    requires Run(E, tagLength, |nonce|, Begin(cbc, nonce), a) == Run(E, tagLength, |other|, Begin(cbc, other), b)
    requires RfcState(E, tagLength, nonce, HeaderOf(a), message)[..k] != RfcState(E, tagLength, other, HeaderOf(b), message)[..k]
    ensures !(Hits(E, tagLength, cbc, nonce, a, message, k) && Hits(E, tagLength, cbc, other, b, message, k))
  {
    hide Run, Held, Hits, RfcState, Begin, HeaderOf;
    TagDecides(E, tagLength, cbc, nonce, a, message, k);
    TagDecides(E, tagLength, cbc, other, b, message, k);
  }

  lemma {:induction false} SomeBusy(calls: seq<Call>, limit: nat) returns (j: nat)
    requires limit <= |calls| && exists i :: 0 <= i < limit && !Idle(calls[i])
    ensures j < limit && !Idle(calls[j]) && forall i :: 0 <= i < j ==> Idle(calls[i])
  {
    j := 0;
    while Idle(calls[j])
      invariant j < limit && forall i :: 0 <= i < j ==> Idle(calls[i])
      decreases limit - j
    {
      j := j + 1;
    }
  }

  lemma {:induction false} ShapeOfSelf(calls: seq<Call>)
    ensures SameShape(calls, calls)
  {
  }

  /** Announced too early: the header length overwrites the nonce that the last first block is made from. Of two nonces
      that differ in their first byte, one misses its tag. */
  lemma {:induction false} LengthsTwice(E: Cipher, tagLength: nat, cbc: Block, nonce: seq<byte>, other: seq<byte>,
      calls: seq<Call>, message: seq<byte>, k: nat, j: nat)
    requires 7 <= |nonce| <= 13 && 4 <= tagLength <= 16 && DifferAt(nonce, other, 0) && k <= 16 && Shows(E, k)
    requires j < LastLengths(calls) && calls[j].Lengths? && calls[j].headerLength > 0
    ensures !(Hits(E, tagLength, cbc, nonce, calls, message, k) && Hits(E, tagLength, cbc, other, calls, message, k))
  {
    hide Run, Begin, Hits, RfcState, Shows;
    BeginSame(cbc, nonce, other);
    NonceForgotten(E, tagLength, |nonce|, Begin(cbc, nonce), Begin(cbc, other), calls, j);
    NonceShows(E, tagLength, nonce, other, HeaderOf(calls), message, k);
    OneMisses(E, tagLength, cbc, nonce, other, calls, calls, message, k);
  }

  lemma {:induction false} BeginSame(cbc: Block, nonce: seq<byte>, other: seq<byte>)
    requires 7 <= |nonce| <= 13 && DifferAt(nonce, other, 0)
    ensures SameBut(1, Begin(cbc, nonce), Begin(cbc, other))
  {
  }

  /** Fed too early: the CBC buffer that took the header is laid out again. Of two headers that differ in the first byte
      fed early, one misses its tag, under any nonce. */
  lemma {:induction false} HeaderEarly(E: Cipher, tagLength: nat, cbc: Block, nonce: seq<byte>, a: seq<Call>, b: seq<Call>,
      message: seq<byte>, k: nat, j: nat)
    requires 7 <= |nonce| <= 13 && 4 <= tagLength <= 16 && k <= 16 && Shows(E, k)
    requires Accepts(a, |message|) && |HeaderOf(a)| < TWO64
    requires Twins(a, b, j) && j < LastLengths(a) && forall i :: 0 <= i < j ==> Idle(a[i])
    ensures !(Hits(E, tagLength, cbc, nonce, a, message, k) && Hits(E, tagLength, cbc, nonce, b, message, k))
  {
    hide Run, Hits, RfcState, HeaderOf, LastLengths, CounterStart, Shows, Twins;
    TwinHeaders(a, b, j);
    HeaderForgotten(E, tagLength, |nonce|, Begin(cbc, nonce), a, b, j);
    HeaderShows(E, tagLength, nonce, HeaderOf(a), HeaderOf(b), message, k);
    OneMisses(E, tagLength, cbc, nonce, nonce, a, b, message, k);
  }

  /** Never announced: the tag comes from the CBC buffer, whatever the nonce. */
  lemma {:induction false} LengthsNever(E: Cipher, tagLength: nat, cbc: Block, nonce: seq<byte>, other: seq<byte>,
      calls: seq<Call>, message: seq<byte>, k: nat)
    requires 7 <= |nonce| <= 13 && 4 <= tagLength <= 16 && DifferAt(nonce, other, 0) && k <= 16 && Shows(E, k)
    requires Accepts(calls, |message|) && |HeaderOf(calls)| < TWO64 && LastLengths(calls) < 0
    ensures !(Hits(E, tagLength, cbc, nonce, calls, message, k) && Hits(E, tagLength, cbc, other, calls, message, k))
  {
    hide RunTag, Tag, HeaderOf, LastLengths, Block0, Shows, Cbc, AuthenticatedInput;
    NoLengthsIff(E, tagLength, cbc, nonce, calls, message, k);
    NoLengthsIff(E, tagLength, cbc, other, calls, message, k);
    NonceShows(E, tagLength, nonce, other, [], [], k);
    EmptyRfc(E, tagLength, nonce);
    EmptyRfc(E, tagLength, other);
  }

  /** Out of order some nonce or header misses. */
  lemma {:induction false} OutOfOrder(E: Cipher, tagLength: nat, cbc: Block, n: nat, calls: seq<Call>, message: seq<byte>,
      k: nat)
    requires 7 <= n <= 13 && 4 <= tagLength <= 16 && k <= 16 && Shows(E, k)
    requires Accepts(calls, |message|) && |HeaderOf(calls)| < TWO64 && !InOrder(calls)
    ensures !GivesRfcTag(E, tagLength, cbc, n, calls, message, k)
  {
    hide Hits, HeaderOf, LastLengths, Idle, Shows, Accepts;
    var nonce, other := [0] + Zeros(n - 1), [1] + Zeros(n - 1);
    assert DifferAt(nonce, other, 0);
    ShapeOfSelf(calls);
    if LastLengths(calls) < 0 {
      LengthsNever(E, tagLength, cbc, nonce, other, calls, message, k);
    } else {
      var j := SomeBusy(calls, LastLengths(calls));
      if calls[j].Lengths? {
        BusyLengths(calls[j]);
        LengthsTwice(E, tagLength, cbc, nonce, other, calls, message, k, j);
      } else {
        var a, b := EarlyTwins(calls, j);
        ShapeDecides(calls, a);
        SameAccepts(calls, a, |message|);
        HeaderEarly(E, tagLength, cbc, nonce, a, b, message, k, j);
      }
    }
  }

  lemma {:induction false} BusyLengths(c: Call)
    requires c.Lengths? && !Idle(c)
    ensures c.headerLength > 0
  {
  }

  lemma {:induction false} SameAccepts(a: seq<Call>, b: seq<Call>, messageLength: nat)
    requires SameShape(a, b) && Accepts(a, messageLength)
    ensures Accepts(b, messageLength)
  {
    hide SameShape, HeaderOf, LastLengths, SpecifiedHeader, SpecifiedMessage;
    ShapeDecides(a, b);
  }

  /** The calls with 0 and with 1 for the first byte of the header part at j. */
  lemma {:induction false} EarlyTwins(calls: seq<Call>, j: nat) returns (a: seq<Call>, b: seq<Call>)
    requires j < |calls| && calls[j].Header? && !Idle(calls[j]) && forall i :: 0 <= i < j ==> Idle(calls[i])
    ensures SameShape(calls, a) && SameShape(calls, b) && Twins(a, b, j) && forall i :: 0 <= i < j ==> Idle(a[i])
  {
    var d := calls[j].data;
    a, b := calls[j := Header(d[0 := 0])], calls[j := Header(d[0 := 1])];
  }

  lemma {:induction false} InOrderGives(E: Cipher, tagLength: nat, cbc: Block, n: nat, calls: seq<Call>,
      message: seq<byte>, k: nat)
    requires 7 <= n <= 13 && 4 <= tagLength <= 16 && k <= 16 && InOrder(calls)
    requires Accepts(calls, |message|) && |HeaderOf(calls)| < TWO64
    ensures GivesRfcTag(E, tagLength, cbc, n, calls, message, k)
  {
    hide RunTag, Tag, HeaderOf, LastLengths, SameShape, Idle, Accepts, InOrder;
    forall nonce: seq<byte>, cs: seq<Call> | |nonce| == n && SameShape(calls, cs)
      ensures Hits(E, tagLength, cbc, nonce, cs, message, k)
    {
      ShapeDecides(calls, cs);
      SameAccepts(calls, cs, |message|);
      InOrderTag(E, tagLength, cbc, nonce, cs, message);
    }
  }

  lemma {:induction false} OrderDecides(E: Cipher, tagLength: nat, cbc: Block, n: nat, calls: seq<Call>, message: seq<byte>,
      k: nat)
    requires 7 <= n <= 13 && 4 <= tagLength <= 16 && k <= 16 && Shows(E, k)
    requires Accepts(calls, |message|) && |HeaderOf(calls)| < TWO64
    ensures GivesRfcTag(E, tagLength, cbc, n, calls, message, k) <==> InOrder(calls)
  {
    hide GivesRfcTag, HeaderOf, Shows, Accepts, InOrder;
    if InOrder(calls) {
      InOrderGives(E, tagLength, cbc, n, calls, message, k);
    } else {
      OutOfOrder(E, tagLength, cbc, n, calls, message, k);
    }
  }

  /** For every single block cipher: of the orders of calls that are accepted, exactly those in order give the tag of
      RFC 3610 for every nonce and header. */
  lemma {:induction false} CallOrderIff(E: Cipher, tagLength: nat, cbc: Block, n: nat, calls: seq<Call>,
      message: seq<byte>)
    requires 7 <= n <= 13 && 4 <= tagLength <= 16 && Injective(E)
    requires Accepts(calls, |message|) && |HeaderOf(calls)| < TWO64
    ensures GivesRfcTag(E, tagLength, cbc, n, calls, message, 16) <==> InOrder(calls)
  {
    hide Injective, Shows, GivesRfcTag, InOrder, Accepts, HeaderOf;
    InjectiveShows(E);
    OrderDecides(E, tagLength, cbc, n, calls, message, 16);
  }

  /** For any part of the tag: exactly those in order give it for every function on blocks. */
  lemma {:induction false} PrefixOrderIff(tagLength: nat, cbc: Block, n: nat, calls: seq<Call>, message: seq<byte>, k: nat)
    requires 7 <= n <= 13 && 4 <= tagLength <= 16 && 0 < k <= 16
    requires Accepts(calls, |message|) && |HeaderOf(calls)| < TWO64
    ensures (forall E: Cipher :: GivesRfcTag(E, tagLength, cbc, n, calls, message, k)) <==> InOrder(calls)
  {
    hide Shows, InOrder, Accepts, HeaderOf, Hits;
    if InOrder(calls) {
      forall E: Cipher ensures GivesRfcTag(E, tagLength, cbc, n, calls, message, k) {
        InOrderGives(E, tagLength, cbc, n, calls, message, k);
      }
    } else {
      FoldShows(k);
      OutOfOrder(Fold, tagLength, cbc, n, calls, message, k);
    }
  }

  // ---- the object makes these runs ----

  ghost predicate At(ccm: Ccm, s: Phase)
    requires ccm.buffer.Length == 32 && ccm.bufferedDataLength <= 16
    reads ccm, ccm.buffer
  {
    ccm.buffer[..16] == s.first && ccm.AuthState() == s.auth
  }

  /** The object while the calls come in. */
  ghost predicate Coming(ccm: Ccm, nonce: seq<byte>, calls: seq<Call>, s: Phase)
    reads ccm, ccm.buffer
  {
    && ccm.Valid() && ccm.state == IVSet && ccm.nonce == nonce && ccm.totalFooterLength == 0 == ccm.totalMessageLength
    && ccm.header == HeaderOf(calls) && ccm.totalHeaderLength == |HeaderOf(calls)| % TWO64
    && ccm.aadLength == SpecifiedHeader(calls) && ccm.messageLength == SpecifiedMessage(calls)
    && At(ccm, s)
  }

  predicate Fits(c: Call, limit: nat) {
    c.Lengths? ==> c.messageLength <= limit
  }

  lemma {:induction false} OneMoreCall(calls: seq<Call>, c: Call)
    ensures HeaderOf(calls + [c]) == HeaderOf(calls) + if c.Header? then c.data else []
    ensures SpecifiedHeader(calls + [c]) == if c.Header? then SpecifiedHeader(calls) else c.headerLength
    ensures SpecifiedMessage(calls + [c]) == if c.Header? then SpecifiedMessage(calls) else c.messageLength
  {
  }

  method MakeCall(ccm: Ccm, c: Call, ghost nonce: seq<byte>, ghost calls: seq<Call>,
      ghost s: Phase) returns (outcome: Outcome)
    requires Coming(ccm, nonce, calls, s) && (c.Lengths? ==> c.headerLength < TWO64 && c.messageLength < TWO64)
    modifies ccm`aadLength, ccm`messageLength, ccm`bufferedDataLength, ccm`untouched, ccm`inSync, ccm`state,
      ccm`totalHeaderLength, ccm`totalFooterLength, ccm`header, ccm.buffer
    ensures ccm.Valid() && 7 <= |nonce| <= 13 && ValidDigestSize(ccm.digestSize) && |s.auth.pending| < 16
    ensures outcome.Done? <==> Fits(c, MaxMessage(15 - |nonce|))
    ensures outcome.Done? ==> Coming(ccm, nonce, calls + [c], Step(ccm.E, ccm.digestSize, |nonce|, s, c))
  {
    hide MaxMessage, Step, HeaderOf, LastLengths, Coming, ValidDigestSize;
    ComingIs(ccm, nonce, calls, s);
    match c
    case Header(data) =>
      FeedHeader(ccm, data, nonce, calls, s);
      outcome := Done;
    case Lengths(header, message) =>
      outcome := GiveLengths(ccm, header, message, nonce, calls, s);
  }

  lemma {:induction false} ComingIs(ccm: Ccm, nonce: seq<byte>, calls: seq<Call>, s: Phase)
    requires Coming(ccm, nonce, calls, s)
    ensures ccm.Valid() && 7 <= |nonce| <= 13 && ValidDigestSize(ccm.digestSize) && |s.auth.pending| < 16
  {
  }

  method FeedHeader(ccm: Ccm, data: seq<byte>, ghost nonce: seq<byte>, ghost calls: seq<Call>, ghost s: Phase)
    requires Coming(ccm, nonce, calls, s)
    modifies ccm`bufferedDataLength, ccm`untouched, ccm`inSync, ccm`state,
      ccm`totalHeaderLength, ccm`totalFooterLength, ccm`header, ccm.buffer
    ensures ccm.Valid() && 7 <= |nonce| <= 13 && ValidDigestSize(ccm.digestSize) && |s.auth.pending| < 16
    ensures Coming(ccm, nonce, calls + [Header(data)], Step(ccm.E, ccm.digestSize, |nonce|, s, Header(data)))
  {
    hide ccm.Valid(), MaxMessage, Feed, Spread, Block0, HeaderLength, CounterStart, ValidDigestSize, HeaderOf,
      SpecifiedHeader,
      SpecifiedMessage;
    ComingIs(ccm, nonce, calls, s);
    var input := new byte[|data|](i requires 0 <= i < |data| => data[i]);
    assert input[..] == data;
    OneMoreCall(calls, Header(data));
    ModThenAdd(|HeaderOf(calls)|, |data|, TWO64);
    ccm.InShape();
    var outcome := ccm.Update(input);
    ccm.InShape();
  }

  method GiveLengths(ccm: Ccm, header: nat, message: nat, ghost nonce: seq<byte>, ghost calls: seq<Call>, ghost s: Phase)
    returns (outcome: Outcome)
    requires Coming(ccm, nonce, calls, s) && header < TWO64 && message < TWO64
    modifies ccm`aadLength, ccm`messageLength, ccm`bufferedDataLength, ccm`untouched, ccm`inSync, ccm.buffer
    ensures ccm.Valid() && 7 <= |nonce| <= 13 && ValidDigestSize(ccm.digestSize) && |s.auth.pending| < 16
    ensures outcome.Done? <==> message <= MaxMessage(15 - |nonce|)
    ensures outcome.Done? ==>
      Coming(ccm, nonce, calls + [Lengths(header, message)], Step(ccm.E, ccm.digestSize, |nonce|, s, Lengths(header, message)))
  {
    hide ccm.Valid(), MaxMessage, Feed, Spread, Block0, HeaderLength, CounterStart, ValidDigestSize, HeaderOf,
      SpecifiedHeader,
      SpecifiedMessage, Over;
    ComingIs(ccm, nonce, calls, s);
    ccm.InShape();
    outcome := ccm.SpecifyDataLengths(header, message, 0);
    OneMoreCall(calls, Lengths(header, message));
    assert HeaderOf(calls) + [] == HeaderOf(calls);
    if outcome.Done? {
      ccm.InShape();
      PrefixPending(s.first, header);
      assert ccm.buffer[..16][..ccm.bufferedDataLength] == ccm.buffer[..ccm.bufferedDataLength];
      assert old(ccm.buffer[..16])[..old(ccm.bufferedDataLength)] == old(ccm.buffer[..ccm.bufferedDataLength]);
    }
  }

  ghost predicate SmallLengths(calls: seq<Call>) {
    forall i :: 0 <= i < |calls| && calls[i].Lengths? ==> calls[i].headerLength < TWO64 && calls[i].messageLength < TWO64
  }

  ghost predicate AllFit(calls: seq<Call>, limit: nat) {
    forall i :: 0 <= i < |calls| ==> Fits(calls[i], limit)
  }

  method MakeCalls(ccm: Ccm, calls: seq<Call>, ghost nonce: seq<byte>, ghost s: Phase) returns (outcome: Outcome)
    requires Coming(ccm, nonce, [], s) && SmallLengths(calls)
    modifies ccm`aadLength, ccm`messageLength, ccm`bufferedDataLength, ccm`untouched, ccm`inSync, ccm`state,
      ccm`totalHeaderLength, ccm`totalFooterLength, ccm`header, ccm.buffer
    ensures ccm.Valid() && 7 <= |nonce| <= 13 && ValidDigestSize(ccm.digestSize) && |s.auth.pending| < 16
    ensures outcome.Done? <==> AllFit(calls, MaxMessage(15 - |nonce|))
    ensures outcome.Done? ==> Coming(ccm, nonce, calls, Run(ccm.E, ccm.digestSize, |nonce|, s, calls))
  {
    hide ccm.Valid(), MaxMessage, Step, HeaderOf, LastLengths, Coming, Fits;
    ComingIs(ccm, nonce, [], s);
    outcome := Done;
    assert calls[..0] == [];
    for i := 0 to |calls|
      invariant outcome.Done? && ccm.Valid() && forall j :: 0 <= j < i ==> Fits(calls[j], MaxMessage(15 - |nonce|))
      invariant Coming(ccm, nonce, calls[..i], Run(ccm.E, ccm.digestSize, |nonce|, s, calls[..i]))
    {
      RunOneMore(ccm.E, ccm.digestSize, |nonce|, s, calls, i);
      outcome := MakeCall(ccm, calls[i], nonce, calls[..i], Run(ccm.E, ccm.digestSize, |nonce|, s, calls[..i]));
      if !outcome.Done? {
        return;
      }
    }
    assert calls[..|calls|] == calls;
  }

  lemma {:induction false} RunOneMore(E: Cipher, tagLength: nat, n: nat, s: Phase, calls: seq<Call>, i: nat)
    requires 7 <= n <= 13 && 4 <= tagLength <= 16 && |s.auth.pending| < 16 && i < |calls|
    ensures calls[..i + 1] == calls[..i] + [calls[i]]
    ensures Run(E, tagLength, n, s, calls[..i + 1]) == Step(E, tagLength, n, Run(E, tagLength, n, s, calls[..i]), calls[i])
  {
  }

  /** The object while the message comes in, after a header that left the CBC-MAC state s. */
  ghost predicate Processing(ccm: Ccm, nonce: seq<byte>, s: Auth, plain: seq<byte>)
    requires |s.pending| < 16
    reads ccm, ccm.buffer
  {
    && ccm.Valid() && ccm.IvIsSet() && ccm.nonce == nonce && ccm.totalFooterLength == 0
    && ccm.message == plain && ccm.totalMessageLength == |plain|
    && if ccm.state == IVSet then plain == [] && ccm.AuthState() == s
       else ccm.Transforming() && ccm.aadLength == ccm.totalHeaderLength && ccm.AuthState() == Feed(ccm.E, Flush(ccm.E, s), plain)
  }

  /** One call of ProcessData, into an array of its own. */
  method ProcessPiece(ccm: Ccm, piece: seq<byte>, ghost nonce: seq<byte>, ghost s: Auth, ghost plain: seq<byte>)
    returns (outcome: Outcome, output: seq<byte>)
    requires |s.pending| < 16 && Processing(ccm, nonce, s, plain) && |piece| < TWO64
    modifies ccm`state, ccm`bufferedDataLength, ccm`totalMessageLength, ccm`ctrPosition, ccm`message,
      ccm`untouched, ccm`inSync, ccm.buffer
    ensures ccm.Valid() && 7 <= |nonce| <= 13
    ensures outcome.Done? <==> ccm.aadLength == ccm.totalHeaderLength && |plain| + |piece| <= MaxMessage(15 - |nonce|)
    ensures outcome.Done? ==> output == XorStream(ccm.E, CounterStart(nonce), 16 + |plain|, piece)
    ensures outcome.Done? ==> Processing(ccm, nonce, s, plain + if ccm.forEncryption then piece else output)
    ensures outcome.Done? ==> ccm.Transforming()
  {
    hide ccm.Valid(), ccm.AuthState, MaxMessage, Feed, Flush, CounterStart, ValidDigestSize, XorStream;
    ccm.InShape();
    var input := new byte[|piece|](i requires 0 <= i < |piece| => piece[i]);
    assert input[..] == piece;
    var out := new byte[|piece|](_ => 0);
    ghost var before, first := ccm.AuthState(), ccm.state == IVSet;
    outcome := ccm.ProcessData(out, input);
    output := out[..];
    if outcome.Done? {
      ccm.InShape();
      MoreFed(ccm.E, s, plain, if ccm.forEncryption then piece else output, before, first);
    }
  }

  lemma {:induction false} MoreFed(E: Cipher, s: Auth, plain: seq<byte>, more: seq<byte>, before: Auth, first: bool)
    requires |s.pending| < 16
    requires if first then plain == [] && before == s else before == Feed(E, Flush(E, s), plain)
    ensures Feed(E, if first then Flush(E, before) else before, more) == Feed(E, Flush(E, s), plain + more)
  {
    hide Feed, Flush;
    FeedInPieces(E, Flush(E, s), plain, more);
    assert [] + more == more;
  }

  method ProcessPieces(ccm: Ccm, pieces: seq<seq<byte>>, ghost nonce: seq<byte>, ghost s: Auth)
    returns (outcome: Outcome, output: seq<byte>)
    requires |s.pending| < 16 && Processing(ccm, nonce, s, []) && forall i :: 0 <= i < |pieces| ==> |pieces[i]| < TWO64
    modifies ccm`state, ccm`bufferedDataLength, ccm`totalMessageLength, ccm`ctrPosition, ccm`message,
      ccm`untouched, ccm`inSync, ccm.buffer
    ensures ccm.Valid() && 7 <= |nonce| <= 13
    ensures outcome.Done? <==>
      (|pieces| > 0 ==> ccm.aadLength == ccm.totalHeaderLength) && |Joined(pieces)| <= MaxMessage(15 - |nonce|)
    ensures outcome.Done? ==> output == XorStream(ccm.E, CounterStart(nonce), 16, Joined(pieces))
    ensures outcome.Done? ==> Processing(ccm, nonce, s, if ccm.forEncryption then Joined(pieces) else output)
  {
    hide ccm.Valid(), MaxMessage, Processing, CounterStart, XorStream, Joined;
    ProcessingIs(ccm, nonce, s);
    outcome, output := Done, [];
    NothingJoined(pieces, ccm.E, nonce);
    for i := 0 to |pieces|
      invariant outcome.Done? && ccm.Valid() && |output| == |Joined(pieces[..i])|
      invariant (i > 0 ==> ccm.aadLength == ccm.totalHeaderLength) && |Joined(pieces[..i])| <= MaxMessage(15 - |nonce|)
      invariant output == XorStream(ccm.E, CounterStart(nonce), 16, Joined(pieces[..i]))
      invariant Processing(ccm, nonce, s, if ccm.forEncryption then Joined(pieces[..i]) else output)
    {
      var more: seq<byte>;
      outcome, more := ProcessPiece(ccm, pieces[i], nonce, s, if ccm.forEncryption then Joined(pieces[..i]) else output);
      JoinedOneMore(pieces, i);
      if !outcome.Done? {
        return;
      }
      XorStreamInPieces(ccm.E, CounterStart(nonce), 16, Joined(pieces[..i]), pieces[i]);
      output := output + more;
    }
    assert pieces[..|pieces|] == pieces;
  }

  lemma {:induction false} ProcessingIs(ccm: Ccm, nonce: seq<byte>, s: Auth)
    requires |s.pending| < 16 && Processing(ccm, nonce, s, [])
    ensures ccm.Valid() && 7 <= |nonce| <= 13
  {
  }

  lemma {:induction false} NothingJoined(pieces: seq<seq<byte>>, E: Cipher, nonce: seq<byte>)
    requires 7 <= |nonce| <= 13
    ensures Joined(pieces[..0]) == [] && XorStream(E, CounterStart(nonce), 16, []) == []
  {
  }

  method FinishCalls(ccm: Ccm, mac: array<byte>, k: nat, ghost nonce: seq<byte>, ghost s: Auth, ghost plain: seq<byte>)
    returns (outcome: Outcome)
    requires |s.pending| < 16 && Processing(ccm, nonce, s, plain) && k <= mac.Length && mac != ccm.buffer
    modifies ccm`state, ccm`bufferedDataLength, ccm`ctrPosition, ccm`untouched, ccm`inSync, mac, ccm.buffer
    ensures ccm.Valid() && 7 <= |nonce| <= 13 && ValidDigestSize(ccm.digestSize)
    ensures outcome.Done? <==>
      k <= ccm.digestSize && ccm.aadLength == ccm.totalHeaderLength && ccm.messageLength == |plain|
    ensures outcome.Done? ==>
      k <= 16 && mac[..k] == XorStream(ccm.E, CounterStart(nonce), 0, Held(ccm.E, s, plain))[..k]
  {
    hide ccm.Valid(), CounterStart, Feed, Flush, ValidDigestSize, XorStream, Tag;
    ccm.InShape();
    SmallDigestSize(ccm.digestSize);
    HeldEmpty(ccm.E, s);
    assert old(ccm.FinalCbc()) == Held(ccm.E, s, plain);
    outcome := ccm.TruncatedFinal(mac, k);
  }

  lemma {:induction false} ComingDone(ccm: Ccm, nonce: seq<byte>, calls: seq<Call>, s: Phase)
    requires Coming(ccm, nonce, calls, s) && |s.auth.pending| < 16
    ensures Processing(ccm, nonce, s.auth, [])
    ensures ccm.totalHeaderLength == |HeaderOf(calls)| % TWO64
    ensures ccm.aadLength == SpecifiedHeader(calls) && ccm.messageLength == SpecifiedMessage(calls)
  {
  }

  method Restart(ccm: Ccm, nonce: seq<byte>) returns (outcome: Outcome, ghost cbc: Block)
    requires ccm.Valid()
    modifies ccm, ccm.buffer
    ensures ccm.Valid() && ccm.E == old(ccm.E) && ccm.digestSize == old(ccm.digestSize)
    ensures cbc == old(ccm.buffer[..])[16..]
    ensures outcome.Done? <==> old(ccm.state) != Start && 7 <= |nonce| <= 13
    ensures outcome.Done? ==> Coming(ccm, nonce, [], Begin(cbc, nonce))
  {
    hide ccm.Valid(), CounterStart;
    ccm.BufferSize();
    cbc := ccm.buffer[16..];
    assert ccm.buffer[..][16..] == cbc;
    outcome := ccm.Resynchronize(nonce);
    assert ccm.buffer[..0] == [];
  }

  /** A whole run: Resynchronize, the calls, the message in pieces, TruncatedFinal. It ends with a tag exactly if every
      length fits and the totals are as specified, and the tag is that of RunTag. */
  method RunCalls(ccm: Ccm, nonce: seq<byte>, calls: seq<Call>, pieces: seq<seq<byte>>, mac: array<byte>, k: nat)
    returns (outcome: Outcome, output: seq<byte>)
    requires ccm.Valid() && k <= mac.Length && mac != ccm.buffer
    requires SmallLengths(calls) && forall i :: 0 <= i < |pieces| ==> |pieces[i]| < TWO64
    modifies ccm, ccm.buffer, mac
    ensures ccm.Valid() && ccm.E == old(ccm.E) && ccm.digestSize == old(ccm.digestSize) && |old(ccm.buffer[..])| == 32
    ensures outcome.Done? <==>
      && old(ccm.state) != Start && 7 <= |nonce| <= 13 && k <= ccm.digestSize
      && AllFit(calls, MaxMessage(15 - |nonce|)) && Accepts(calls, |Joined(pieces)|)
    ensures outcome.Done? ==> ValidDigestSize(ccm.digestSize) && k <= 16
    ensures outcome.Done? ==> output == XorStream(ccm.E, CounterStart(nonce), 16, Joined(pieces))
    ensures outcome.Done? ==>
      mac[..k] == RunTag(ccm.E, ccm.digestSize, old(ccm.buffer[..])[16..], nonce, calls,
                         if ccm.forEncryption then Joined(pieces) else output)[..k]
    ensures outcome.Done? && InOrder(calls) && |HeaderOf(calls)| < TWO64 ==>
      mac[..k] == Tag(ccm.E, ccm.digestSize, nonce, HeaderOf(calls), if ccm.forEncryption then Joined(pieces) else output)[..k]
  {
    hide ccm.Valid(), CounterStart, Feed, Flush, XorStream, Tag, Held, MaxMessage, Step, HeaderOf, LastLengths, InOrder;
    output := [];
    ccm.BufferSize();
    ghost var cbc: Block;
    outcome, cbc := Restart(ccm, nonce);
    if !outcome.Done? {
      return;
    }
    outcome := MakeCalls(ccm, calls, nonce, Begin(cbc, nonce));
    if !outcome.Done? {
      return;
    }
    ghost var s := Run(ccm.E, ccm.digestSize, |nonce|, Begin(cbc, nonce), calls).auth;
    ComingDone(ccm, nonce, calls, Run(ccm.E, ccm.digestSize, |nonce|, Begin(cbc, nonce), calls));
    outcome, output := ProcessPieces(ccm, pieces, nonce, s);
    if !outcome.Done? {
      return;
    }
    ghost var plain := if ccm.forEncryption then Joined(pieces) else output;
    outcome := FinishCalls(ccm, mac, k, nonce, s, plain);
    if outcome.Done? && InOrder(calls) && |HeaderOf(calls)| < TWO64 {
      InOrderTag(ccm.E, ccm.digestSize, cbc, nonce, calls, plain);
    }
  }

  // ---- runs that are accepted and miss ----

  method KeyedForEncryption(E: Cipher, digestSize: int, memory: seq<byte>) returns (ccm: Ccm)
    requires |memory| == 32 && ValidDigestSize(digestSize)
    ensures fresh(ccm) && fresh(ccm.buffer) && ccm.Valid() && ccm.forEncryption && ccm.state == KeySet
    ensures ccm.E == E && ccm.digestSize == digestSize && ccm.buffer[..][16..] == memory[16..]
  {
    hide ccm.Valid(), ValidDigestSize;
    ccm := new Ccm(true, true, memory);
    ccm.BufferSize();
    assert ccm.buffer[16..] == ccm.buffer[..][16..];
    var outcome := ccm.SetKey(E, 16, digestSize, [], false);
    ccm.BufferSize();
    assert ccm.buffer[16..] == ccm.buffer[..][16..];
  }

  /** No call between Resynchronize and TruncatedFinal: accepted, and the tag hangs on uninitialised memory. */
  method LengthsNotSpecified(E: Cipher, digestSize: int, nonce: seq<byte>, memory: seq<byte>) returns (outcome: Outcome,
      mac: seq<byte>)
    requires |memory| == 32 && ValidDigestSize(digestSize) && 7 <= |nonce| <= 13
    ensures outcome.Done? && |mac| == digestSize
    ensures mac == Tag(E, digestSize, nonce, [], [])[..digestSize]
      <==> memory[16..][..digestSize] == E(Block0(digestSize, nonce, false, 0))[..digestSize]
  {
    hide RunTag, Tag, Block0;
    var ccm := KeyedForEncryption(E, digestSize, memory);
    var tag := new byte[digestSize](_ => 0);
    var output: seq<byte>;
    NoLengthsIff(E, digestSize, memory[16..], nonce, [], [], digestSize);
    outcome, output := RunCalls(ccm, nonce, [], [], tag, digestSize);
    mac := tag[..];
    assert tag[..digestSize] == mac;
  }

  /** The tag of the next run. No header byte occurs in it. */
  ghost function LateTag(E: Cipher, nonce: seq<byte>): Block
    requires |nonce| == 13
  {
    XorStream(E, CounterStart(nonce), 0, E(XorBlock(E(Block0(16, nonce, true, 0)), HeaderLength(16))))
  }

  lemma {:induction false} LateRun(E: Cipher, cbc: Block, nonce: seq<byte>, header: seq<byte>)
    requires |nonce| == 13 && |header| == 16
    ensures Accepts([Header(header), Lengths(16, 0)], 0)
    ensures RunTag(E, 16, cbc, nonce, [Header(header), Lengths(16, 0)], []) == LateTag(E, nonce)
  {
    hide Cbc, XorBlock, XorStream, CounterStart, Block0, BigEndian;
    var calls := [Header(header), Lengths(16, 0)];
    assert calls[..1] == [Header(header)] == [] + [Header(header)] && calls[..1][..0] == [];
    OneMoreCall([], Header(header));
    OneMoreCall([Header(header)], Lengths(16, 0));
    assert calls == [Header(header)] + [Lengths(16, 0)];
    NonceInPlace(nonce);
    var s := Begin(cbc, nonce);
    WholeBlockSpread(s.first, header);
    assert Run(E, 16, 13, s, calls[..1]) == Step(E, 16, 13, s, Header(header));
    HeldEmpty(E, Run(E, 16, 13, s, calls).auth);
  }

  lemma {:induction false} WholeBlockSpread(first: Block, d: seq<byte>)
    requires |d| == 16
    ensures Spread(first, 0, d) == first
  {
  }

  /** A header of one block fed before its length is specified: accepted, and not authenticated. */
  method LengthsLate(E: Cipher, nonce: seq<byte>, header: seq<byte>, memory: seq<byte>) returns (outcome: Outcome,
      mac: seq<byte>)
    requires |memory| == 32 && |nonce| == 13 && |header| == 16
    ensures outcome.Done? && mac == LateTag(E, nonce)
  {
    hide RunTag, LateTag;
    var ccm := KeyedForEncryption(E, 16, memory);
    var tag := new byte[16](_ => 0);
    var output: seq<byte>;
    LateRun(E, memory[16..], nonce, header);
    outcome, output := RunCalls(ccm, nonce, [Header(header), Lengths(16, 0)], [], tag, 16);
    mac := tag[..];
    assert tag[..16] == mac;
    assert LateTag(E, nonce)[..16] == LateTag(E, nonce);
  }

  /** The state of the next run: the first block is made from the nonce with 16, the low byte of the length announced
      first, for its first byte; that length is still buffered. */
  ghost function AgainState(E: Cipher, nonce: seq<byte>): Block
    requires |nonce| == 13
  {
    E(XorBlock(E(Block0(16, [16] + nonce[1..], false, 0)), HeaderLength(16)))
  }

  lemma {:induction false} AgainRun(E: Cipher, cbc: Block, nonce: seq<byte>)
    requires |nonce| == 13
    ensures Accepts([Lengths(16, 0), Lengths(0, 0)], 0)
    ensures Held(E, Run(E, 16, 13, Begin(cbc, nonce), [Lengths(16, 0), Lengths(0, 0)]).auth, []) == AgainState(E, nonce)
  {
    hide Cbc, XorBlock, Block0, Held;
    var calls := [Lengths(16, 0), Lengths(0, 0)];
    assert calls[..1] == [Lengths(16, 0)] == [] + [Lengths(16, 0)] && calls[..1][..0] == [];
    OneMoreCall([], Lengths(16, 0));
    OneMoreCall([Lengths(16, 0)], Lengths(0, 0));
    assert calls == [Lengths(16, 0)] + [Lengths(0, 0)];
    var s := Begin(cbc, nonce);
    LengthOverNonce(nonce);
    assert Run(E, 16, 13, s, calls[..1]) == Step(E, 16, 13, s, Lengths(16, 0));
    HeldEmpty(E, Run(E, 16, 13, s, calls).auth);
  }

  lemma {:induction false} LengthOverNonce(nonce: seq<byte>)
    requires |nonce| == 13
    ensures HeaderLength(16) == [0, 16] && Over(CounterStart(nonce), 0, HeaderLength(16))[1..14] == [16] + nonce[1..]
  {
    PrefixOfSixteen();
    var first, prefix := CounterStart(nonce), HeaderLength(16);
    var over := Over(first, 0, prefix);
    forall i | 0 <= i < 13 ensures over[1..14][i] == ([16] + nonce[1..])[i] {
      if i > 0 { assert over[1..14][i] == over[i + 1] == first[i + 1] == nonce[i]; }
    }
  }

  lemma {:induction false} PrefixOfSixteen()
    ensures HeaderLength(16) == [0, 16]
  {
    assert BigEndian(0, 1) == [0] by { assert BigEndian(0, 0) == []; }
    assert BigEndian(16, 2) == BigEndian(0, 1) + [16];
  }

  /** Lengths with a header announced, and then without: accepted. The tag is the one of RFC 3610 only if two unrelated
      blocks happen to be the same. */
  method LengthsAgain(E: Cipher, nonce: seq<byte>, memory: seq<byte>) returns (outcome: Outcome, mac: seq<byte>)
    requires |memory| == 32 && |nonce| == 13
    ensures outcome.Done? && mac == XorStream(E, CounterStart(nonce), 0, AgainState(E, nonce))
    ensures Injective(E) ==>
      (mac == Tag(E, 16, nonce, [], []) <==>
       XorBlock(E(Block0(16, [16] + nonce[1..], false, 0)), HeaderLength(16)) == Block0(16, nonce, false, 0))
  {
    hide RunTag, Tag, AgainState, Block0, XorStream, CounterStart, Run, Held, Injective, HeaderLength, XorBlock;
    var ccm := KeyedForEncryption(E, 16, memory);
    var tag := new byte[16](_ => 0);
    var output: seq<byte>;
    AgainRun(E, memory[16..], nonce);
    outcome, output := RunCalls(ccm, nonce, [Lengths(16, 0), Lengths(0, 0)], [], tag, 16);
    mac := tag[..];
    assert tag[..16] == mac;
    AgainTag(E, memory[16..], nonce, mac);
  }

  lemma {:induction false} AgainTag(E: Cipher, cbc: Block, nonce: seq<byte>, mac: seq<byte>)
    requires |nonce| == 13 && |mac| == 16
    requires mac == RunTag(E, 16, cbc, nonce, [Lengths(16, 0), Lengths(0, 0)], [])[..16]
    ensures mac == XorStream(E, CounterStart(nonce), 0, AgainState(E, nonce))
    ensures Injective(E) ==>
      (mac == Tag(E, 16, nonce, [], []) <==>
       XorBlock(E(Block0(16, [16] + nonce[1..], false, 0)), HeaderLength(16)) == Block0(16, nonce, false, 0))
  {
    hide XorStream, CounterStart, Run, Held, Cbc, AuthenticatedInput, Block0, HeaderLength, XorBlock;
    AgainRun(E, cbc, nonce);
    WholeBlockCut(XorStream(E, CounterStart(nonce), 0, AgainState(E, nonce)));
    EmptyRfc(E, 16, nonce);
    StreamDecides(E, CounterStart(nonce), AgainState(E, nonce), E(Block0(16, nonce, false, 0)), 16);
    WholeBlockCut(AgainState(E, nonce));
    WholeBlockCut(E(Block0(16, nonce, false, 0)));
    WholeBlockCut(XorStream(E, CounterStart(nonce), 0, E(Block0(16, nonce, false, 0))));
  }
}
