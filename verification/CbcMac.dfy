/** The authenticated input and the two block cipher modes of CCM (RFC 3610), and the buffered form of CBC-MAC that
    AuthenticateData keeps (authenc.cpp). The block cipher is an arbitrary function on blocks. */
module CbcMac {
  import opened Arithmetic
  import opened ByteStrings

  type Block = b: seq<byte> | |b| == 16 witness seq(16, _ => 0)
  type Cipher = Block -> Block

  /** xorbuf: the first |d| bytes of the block. */
  function XorBlock(a: Block, d: seq<byte>): Block
    requires |d| <= 16
  {
    seq(16, i requires 0 <= i < 16 => if i < |d| then Xor(a[i], d[i]) else a[i])
  }

  function Cbc(E: Cipher, start: Block, data: seq<byte>): Block
    requires |data| % 16 == 0
    decreases |data|
  {
    if |data| == 0 then start else E(XorBlock(Cbc(E, start, data[..|data| - 16]), data[|data| - 16..]))
  }

  function PadLength(n: nat): nat {
    (16 - n % 16) % 16
  }

  function Padded(d: seq<byte>): (p: seq<byte>)
    ensures |p| % 16 == 0
  {
    d + Zeros(PadLength(|d|))
  }

  lemma {:induction false} CbcConcat(E: Cipher, start: Block, a: seq<byte>, b: seq<byte>)
    requires |a| % 16 == 0 && |b| % 16 == 0
    ensures Cbc(E, start, a + b) == Cbc(E, Cbc(E, start, a), b)
    decreases |b|
  {
    hide XorBlock;
    if |b| == 0 {
      assert a + b == a;
    } else {
      var b' := b[..|b| - 16];
      CbcConcat(E, start, a, b');
      assert (a + b)[..|a + b| - 16] == a + b' && (a + b)[|a + b| - 16..] == b[|b| - 16..];
    }
  }

  lemma {:induction false} CbcOne(E: Cipher, start: Block, d: Block)
    ensures Cbc(E, start, d) == E(XorBlock(start, d))
  {
  }

  // ---- buffered form ----

  /** The chaining value and the bytes that do not fill a block yet. */
  datatype Auth = Auth(cbc: Block, pending: seq<byte>)

  function Feed(E: Cipher, s: Auth, d: seq<byte>): Auth {
    var all := s.pending + d;
    var whole := |all| - |all| % 16;
    Auth(Cbc(E, s.cbc, all[..whole]), all[whole..])
  }

  /** Feeding in two pieces is feeding at once, wherever the cut is. */
  lemma {:induction false} FeedInPieces(E: Cipher, s: Auth, a: seq<byte>, b: seq<byte>)
    ensures Feed(E, Feed(E, s, a), b) == Feed(E, s, a + b)
  {
    hide Cbc, Feed;
    var all := s.pending + a;
    var whole := |all| - |all| % 16;
    var rest := all[whole..] + b;
    var more := |rest| - |rest| % 16;
    var full := s.pending + (a + b);
    assert full == all[..whole] + rest;
    WholePart(|all|, |b|);
    FeedAt(E, s, a, whole);
    FeedAt(E, Feed(E, s, a), b, more);
    FeedAt(E, s, a + b, whole + more);
    assert full[..whole + more] == all[..whole] + rest[..more];
    assert full[whole + more..] == rest[more..];
    CbcConcat(E, s.cbc, all[..whole], rest[..more]);
  }

  lemma {:induction false} FeedAt(E: Cipher, s: Auth, d: seq<byte>, whole: nat)
    requires whole == |s.pending + d| - |s.pending + d| % 16
    ensures whole % 16 == 0 && whole <= |s.pending + d|
    ensures Feed(E, s, d) == Auth(Cbc(E, s.cbc, (s.pending + d)[..whole]), (s.pending + d)[whole..])
  {
  }

  lemma {:induction false} WholePart(n: nat, m: nat)
    ensures (n + m) - (n + m) % 16 == (n - n % 16) + ((n % 16 + m) - (n % 16 + m) % 16)
  {
  }

  lemma {:induction false} FeedNothing(E: Cipher, s: Auth)
    requires |s.pending| < 16
    ensures Feed(E, s, []) == s
  {
  }

  /** The bytes that complete the open block process it. */
  lemma {:induction false} FeedFirstBlock(E: Cipher, s: Auth, d: seq<byte>)
    requires |s.pending| + |d| == 16
    ensures Feed(E, s, d) == Auth(E(XorBlock(s.cbc, s.pending + d)), [])
  {
    hide XorBlock, Cbc;
    var all := s.pending + d;
    assert all[..16] == all && all[16..] == [];
    CbcOne(E, s.cbc, all);
  }

  /** What AuthenticateLast*Block does with an open block. */
  function Flush(E: Cipher, s: Auth): Auth
    requires |s.pending| <= 16
  {
    if |s.pending| == 0 then s else Auth(E(XorBlock(s.cbc, s.pending)), [])
  }

  lemma {:induction false} XorWithZero(a: byte)
    ensures Xor(a, 0) == a == Xor(0, a)
  {
    PowersOfTwo();
    XorZero(a, 8);
  }

  lemma {:induction false} XorPadding(a: Block, d: seq<byte>, n: nat)
    requires |d| + n <= 16
    ensures XorBlock(a, d + Zeros(n)) == XorBlock(a, d)
  {
    hide Xor;
    forall i | 0 <= i < 16 ensures XorBlock(a, d + Zeros(n))[i] == XorBlock(a, d)[i] {
      XorWithZero(a[i]);
    }
  }

  /** Flushing is feeding the padding. */
  lemma {:induction false} FlushPads(E: Cipher, total: seq<byte>, s: Auth, start: Auth)
    requires |start.pending| == 0 && s == Feed(E, start, total)
    ensures Flush(E, s) == Feed(E, start, Padded(total))
  {
    hide Cbc, XorBlock;
    assert start.pending + total == total;
    if |s.pending| == 0 {
      assert Padded(total) == total;
    } else {
      var n := PadLength(|total|);
      XorPadding(s.cbc, s.pending, n);
      FeedFirstBlock(E, s, Zeros(n));
      FeedInPieces(E, start, total, Zeros(n));
    }
  }

  // ---- what is left in the half of the buffer that takes partial blocks ----

  function Over(first: Block, at: nat, d: seq<byte>): Block
    requires at + |d| <= 16
  {
    first[..at] + d + first[at + |d|..]
  }

  /** The half after AuthenticateData took d with n bytes buffered: bytes are only overwritten where they are buffered. */
  function Spread(first: Block, n: nat, d: seq<byte>): Block
    requires n < 16
  {
    if n == 0 then SpreadRest(first, d)
    else if n + |d| < 16 then Over(first, n, d)
    else SpreadRest(Over(first, n, d[..16 - n]), d[16 - n..])
  }

  /** The same with nothing buffered: the bytes behind the last whole block go to the front. */
  function SpreadRest(first: Block, d: seq<byte>): Block {
    Over(first, 0, d[|d| - |d| % 16..])
  }

  lemma {:induction false} SpreadNothing(first: Block, n: nat)
    requires n < 16
    ensures Spread(first, n, []) == first
  {
  }

  // ---- what is authenticated: section 2.2 of RFC 3610 ----

  function Block0(tagLength: nat, nonce: seq<byte>, hasHeader: bool, messageLength: nat): Block
    requires 7 <= |nonce| <= 13 && 4 <= tagLength <= 16
  {
    [(if hasHeader then 64 else 0) + 8 * ((tagLength - 2) / 2) + (14 - |nonce|)] + nonce
    + BigEndian(messageLength, 15 - |nonce|)
  }

  function HeaderLength(n: nat): (s: seq<byte>)
    ensures |s| <= 10
  {
    if n == 0 then []
    else if n < 0xff00 then BigEndian(n, 2)
    else if n < 0x1_0000_0000 then [0xff, 0xfe] + BigEndian(n, 4)
    else [0xff, 0xff] + BigEndian(n, 8)
  }

  /** B_0, then the header after its length, zero-padded, then the message, zero-padded. */
  function AuthenticatedInput(tagLength: nat, nonce: seq<byte>, header: seq<byte>, message: seq<byte>): (s: seq<byte>)
    requires 7 <= |nonce| <= 13 && 4 <= tagLength <= 16
    ensures |s| % 16 == 0
  {
    WholeBlocks(Block0(tagLength, nonce, |header| > 0, |message|), HeaderLength(|header|) + header, message);
    Block0(tagLength, nonce, |header| > 0, |message|) + Padded(HeaderLength(|header|) + header) + Padded(message)
  }

  lemma {:induction false} WholeBlocks(block0: Block, header: seq<byte>, message: seq<byte>)
    ensures |block0 + Padded(header) + Padded(message)| % 16 == 0
  {
    hide Padded;
  }

  // ---- what these bytes mean ----

  /** The fields of B_0: flags with the header bit, the tag length and the length of the length; nonce; length. */
  lemma {:induction false} Block0Fields(tagLength: nat, nonce: seq<byte>, hasHeader: bool, messageLength: nat)
    requires 7 <= |nonce| <= 13 && 4 <= tagLength <= 16 && tagLength % 2 == 0
    ensures var b := Block0(tagLength, nonce, hasHeader, messageLength);
            && (Bit(b[0], 6) == 1 <==> hasHeader) && Bit(b[0], 7) == 0
            && 2 * (b[0] / 8 % 8) + 2 == tagLength
            && b[0] % 8 + 1 == 15 - |nonce|
            && b[1..1 + |nonce|] == nonce
            && (messageLength < ShiftBytes(1, 15 - |nonce|) ==> Value(0, b[1 + |nonce|..]) == messageLength)
  {
    hide BigEndian, Value, ShiftBytes, Bit;
    var b, k := Block0(tagLength, nonce, hasHeader, messageLength), 15 - |nonce|;
    assert b[1 + |nonce|..] == BigEndian(messageLength, k);
    if messageLength < ShiftBytes(1, k) { ValueOfBigEndian(messageLength, k); }
    FlagFields(if hasHeader then 1 else 0, (tagLength - 2) / 2, k - 1);
    assert b[1..1 + |nonce|] == nonce;
  }

  lemma {:induction false} FlagFields(bit: nat, m: nat, l: nat)
    requires bit <= 1 && m < 8 && l < 8
    ensures var b := 64 * bit + 8 * m + l;
            Bit(b, 6) == bit && Bit(b, 7) == 0 && b / 8 % 8 == m && b % 8 == l
  {
    var b := 64 * bit + 8 * m + l;
    EightHalvings(b);
    DivModUnique(b, 8, 8 * bit + m, l);
    DivModUnique(b / 8, 8, bit, m);
    DivModUnique(b, 64, bit, 8 * m + l);
  }

  /** The three forms of the header length: two bytes, or four or eight behind a mark no two-byte length starts with. */
  lemma {:induction false} HeaderLengthForms(n: nat)
    requires 0 < n < TWO64
    ensures var h := HeaderLength(n);
            && (n < 0xff00 ==> |h| == 2 && h[0] < 0xff && Value(0, h) == n)
            && (0xff00 <= n < TWO32 ==> |h| == 6 && h[..2] == [0xff, 0xfe] && Value(0, h[2..]) == n)
            && (TWO32 <= n ==> |h| == 10 && h[..2] == [0xff, 0xff] && Value(0, h[2..]) == n)
  {
    BytesHold();
    if n < 0xff00 {
      hide BigEndian, Value, ShiftBytes;
      ValueOfBigEndian(n, 2);
      FirstOfTwo(n);
    } else {
      hide BigEndian, Value, ShiftBytes;
      var k := if n < TWO32 then 4 else 8;
      ValueOfBigEndian(n, k);
      assert HeaderLength(n)[2..] == BigEndian(n, k);
    }
  }

  lemma {:induction false} BytesHold()
    ensures ShiftBytes(1, 2) == 0x1_0000 && ShiftBytes(1, 4) == TWO32 && ShiftBytes(1, 8) == TWO64
  {
    assert ShiftBytes(1, 6) == 0x1_0000_0000_0000;
  }

  lemma {:induction false} FirstOfTwo(n: nat)
    requires n < 0xff00
    ensures BigEndian(n, 2)[0] < 0xff
  {
    assert BigEndian(n, 2) == BigEndian(n / 256, 1) + [n % 256];
  }

  /** A header can be told from what follows it. */
  lemma {:induction false} HeaderEnds(h: seq<byte>, h': seq<byte>, rest: seq<byte>, rest': seq<byte>)
    requires 0 < |h| < TWO64 && 0 < |h'| < TWO64
    requires HeaderLength(|h|) + h + rest == HeaderLength(|h'|) + h' + rest'
    ensures h == h' && rest == rest'
  {
    hide HeaderLength, Value;
    var n, n' := |h|, |h'|;
    var p, p' := HeaderLength(n), HeaderLength(n');
    HeaderLengthForms(n);
    HeaderLengthForms(n');
    assert (p + h + rest)[..2] == p[..2] && (p' + h' + rest')[..2] == p'[..2];
    assert p[0] == p[..2][0] && p'[0] == p'[..2][0] && p[1] == p[..2][1] && p'[1] == p'[..2][1];
    assert |p| == |p'|;
    assert (p + h + rest)[..|p|] == p && (p' + h' + rest')[..|p|] == p';
    SameSplit(p, h, rest, h', rest');
  }

  lemma {:induction false} SameSplit(p: seq<byte>, h: seq<byte>, rest: seq<byte>, h': seq<byte>, rest': seq<byte>)
    requires p + h + rest == p + h' + rest' && |h| == |h'|
    ensures h == h' && rest == rest'
  {
    var all, all' := p + h + rest, p + h' + rest';
    assert h == all[|p|..|p| + |h|] && h' == all'[|p|..|p| + |h|];
    assert rest == all[|p| + |h|..] && rest' == all'[|p| + |h|..];
  }

  /** Padding is of zeros, to a whole block, and of less than one. */
  lemma {:induction false} PaddingIsShort(d: seq<byte>)
    ensures |d| <= |Padded(d)| < |d| + 16 && |Padded(d)| % 16 == 0 && Padded(d)[..|d|] == d
    ensures forall i :: |d| <= i < |Padded(d)| ==> Padded(d)[i] == 0
  {
  }

  /** Different nonces, headers, messages or tag lengths are different authenticated inputs. */
  lemma {:induction false} FormattingIsInjective(t: nat, nonce: seq<byte>, header: seq<byte>, message: seq<byte>, t': nat,
      nonce': seq<byte>, header': seq<byte>, message': seq<byte>)
    requires 7 <= |nonce| <= 13 && 4 <= t <= 16 && t % 2 == 0 && |header| < TWO64
    requires 7 <= |nonce'| <= 13 && 4 <= t' <= 16 && t' % 2 == 0 && |header'| < TWO64
    requires |message| < ShiftBytes(1, 15 - |nonce|) && |message'| < ShiftBytes(1, 15 - |nonce'|)
    requires AuthenticatedInput(t, nonce, header, message) == AuthenticatedInput(t', nonce', header', message')
    ensures t == t' && nonce == nonce' && header == header' && message == message'
  {
    hide Block0, HeaderLength, Value, ShiftBytes, Bit, Padded;
    var b, b' := Block0(t, nonce, |header| > 0, |message|), Block0(t', nonce', |header'| > 0, |message'|);
    var p, p' := HeaderLength(|header|) + header, HeaderLength(|header'|) + header';
    var rest: seq<byte>, rest': seq<byte> := Padded(p) + Padded(message), Padded(p') + Padded(message');
    assert b + Padded(p) + Padded(message) == b + rest && b' + Padded(p') + Padded(message') == b' + rest';
    assert (b + rest)[..16] == b && (b' + rest')[..16] == b' && (b + rest)[16..] == rest && (b' + rest')[16..] == rest';
    Block0Fields(t, nonce, |header| > 0, |message|);
    Block0Fields(t', nonce', |header'| > 0, |message'|);
    PartsEnd(header, message, header', message');
  }

  /** Header and message can be told apart when it is known whether there is a header, and the length of the message. */
  lemma {:induction false} PartsEnd(header: seq<byte>, message: seq<byte>, header': seq<byte>, message': seq<byte>)
    requires |header| < TWO64 && |header'| < TWO64 && |message| == |message'| && (|header| == 0 <==> |header'| == 0)
    requires Padded(HeaderLength(|header|) + header) + Padded(message)
      == Padded(HeaderLength(|header'|) + header') + Padded(message')
    ensures header == header' && message == message'
  {
    hide HeaderLength, Padded;
    var p, p' := HeaderLength(|header|) + header, HeaderLength(|header'|) + header';
    PaddingIsShort(p);
    PaddingIsShort(p');
    PaddingIsShort(message);
    PaddingIsShort(message');
    if |header| > 0 {
      var tail, tail' := Padded(p)[|p|..] + Padded(message), Padded(p')[|p'|..] + Padded(message');
      assert Padded(p) == p + Padded(p)[|p|..] && Padded(p') == p' + Padded(p')[|p'|..];
      assert Padded(p) + Padded(message) == p + tail && Padded(p') + Padded(message') == p' + tail';
      HeaderEnds(header, header', tail, tail');
    }
    assert header == header';
    SameSplit(Padded(p), Padded(message), [], Padded(message'), []);
    assert message == Padded(message)[..|message|];
  }

  /** The first packet of section 8 of RFC 3610. */
  lemma {:induction false} FirstPacketVector()
    ensures Block0(8, [0, 0, 0, 3, 2, 1, 0, 0xA0, 0xA1, 0xA2, 0xA3, 0xA4, 0xA5], true, 23)
      == [0x59, 0, 0, 0, 3, 2, 1, 0, 0xA0, 0xA1, 0xA2, 0xA3, 0xA4, 0xA5, 0, 0x17]
    ensures HeaderLength(8) == [0, 8]
  {
    assert BigEndian(23, 1) == [23] && BigEndian(8, 1) == [8];
  }

  /** A shorter big-endian number is the end of a longer one. */
  lemma {:induction false} BigEndianEnd(v: nat, n: nat, k: nat)
    requires k <= n
    ensures BigEndian(v, n)[n - k..] == BigEndian(v, k)
  {
    if k > 0 {
      BigEndianEnd(v / 256, n - 1, k - 1);
    }
  }

  lemma {:induction false} BlocksInARow(block0: seq<byte>, total: seq<byte>)
    requires |block0| % 16 == 0
    ensures Padded(block0 + total) == block0 + Padded(total)
  {
    SamePadding(|block0|, |total|);
  }

  lemma {:induction false} SamePadding(whole: nat, n: nat)
    requires whole % 16 == 0
    ensures PadLength(whole + n) == PadLength(n)
  {
    assert (whole + n) % 16 == n % 16;
  }

  // ---- counter mode ----

  /** The block number `index` of the counter sequence that starts at iv: addition modulo 2^128 on the whole block. */
  function CounterBlock(iv: Block, index: nat): Block {
    BigEndian(Value(0, iv) + index, 16)
  }

  function Keystream(E: Cipher, iv: Block, position: nat): byte {
    E(CounterBlock(iv, position / 16))[position % 16]
  }

  function XorStream(E: Cipher, iv: Block, position: nat, data: seq<byte>): (out: seq<byte>)
    ensures |out| == |data|
  {
    seq(|data|, i requires 0 <= i < |data| => Xor(data[i], Keystream(E, iv, position + i)))
  }

  lemma {:induction false} XorStreamTwice(E: Cipher, iv: Block, position: nat, data: seq<byte>)
    ensures XorStream(E, iv, position, XorStream(E, iv, position, data)) == data
  {
    hide Xor, Keystream;
    forall i | 0 <= i < |data|
      ensures XorStream(E, iv, position, XorStream(E, iv, position, data))[i] == data[i]
    {
      XorTwice(data[i], Keystream(E, iv, position + i));
    }
  }

  lemma {:induction false} XorStreamInPieces(E: Cipher, iv: Block, position: nat, a: seq<byte>, b: seq<byte>)
    ensures XorStream(E, iv, position, a + b)
      == XorStream(E, iv, position, a) + XorStream(E, iv, position + |a|, b)
  {
    hide Xor, Keystream;
  }

  function CounterStart(nonce: seq<byte>): Block
    requires 7 <= |nonce| <= 13
  {
    [14 - |nonce|] + nonce + Zeros(15 - |nonce|)
  }

  lemma {:induction false} BigEndianJoined(v: nat, n: nat, i: nat, k: nat)
    requires i < ShiftBytes(1, k)
    ensures BigEndian(ShiftBytes(v, k) + i, n + k) == BigEndian(v, n) + BigEndian(i, k)
  {
    if k > 0 {
      BigEndianJoined(v, n, i / 256, k - 1);
      assert (ShiftBytes(v, k) + i) / 256 == ShiftBytes(v, k - 1) + i / 256;
    }
  }

  lemma {:induction false} NumberOfZeros(s: seq<byte>, k: nat)
    ensures Value(0, s + Zeros(k)) == ShiftBytes(Value(0, s), k)
  {
    if k == 0 {
      assert s + Zeros(0) == s;
    } else {
      NumberOfZeros(s, k - 1);
      assert (s + Zeros(k))[..|s| + k - 1] == s + Zeros(k - 1);
    }
  }

  lemma {:induction false} BigEndianOfNumber(s: seq<byte>)
    ensures BigEndian(Value(0, s), |s|) == s
  {
    if |s| > 0 {
      BigEndianOfNumber(s[..|s| - 1]);
      assert s == s[..|s| - 1] + [s[|s| - 1]];
    }
  }

  lemma {:induction false} CounterZero(iv: Block)
    ensures CounterBlock(iv, 0) == iv
  {
    BigEndianOfNumber(iv);
  }

  /** The counter blocks are A_i of section 2.3 of RFC 3610 as long as i fits its L bytes. */
  lemma {:induction false} CounterBlockIsRfc(nonce: seq<byte>, i: nat)
    requires 7 <= |nonce| <= 13 && i < ShiftBytes(1, 15 - |nonce|)
    ensures CounterBlock(CounterStart(nonce), i) == [14 - |nonce|] + nonce + BigEndian(i, 15 - |nonce|)
  {
    hide BigEndian, Value, ShiftBytes;
    var front, k := [14 - |nonce|] + nonce, 15 - |nonce|;
    NumberOfZeros(front, k);
    BigEndianJoined(Value(0, front), |front|, i, k);
    BigEndianOfNumber(front);
  }
}
