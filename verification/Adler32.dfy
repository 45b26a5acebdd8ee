/** The Adler-32 checksum with delayed reduction (adler32.cpp), against section 2.2 of RFC 1950. */
module Adler32Checksum {
  import opened Arithmetic

  const BASE: nat := 65521

  /** Unsigned 32-bit addition, the narrowest `unsigned long`. */
  function Add32(a: nat, b: nat): nat {
    (a + b) % 0x1_0000_0000
  }

  // ---- the definition, without any reduction ----

  /** start plus the sum of all bytes. */
  ghost function Sum1(start: nat, data: seq<byte>): nat {
    if |data| == 0 then start else Sum1(start, data[..|data| - 1]) + data[|data| - 1]
  }

  /** start2 plus the sum of all Sum1 values, one for every nonempty prefix. */
  ghost function Sum2(start1: nat, start2: nat, data: seq<byte>): nat {
    if |data| == 0 then start2
    else Sum2(start1, start2, data[..|data| - 1]) + Sum1(start1, data)
  }

  ghost function Reduced(a: nat): nat {
    a % BASE
  }

  /** The two halves of the checksum of a whole message, as RFC 1950 defines them. */
  ghost function ChecksumHalves(data: seq<byte>): (nat, nat) {
    (Reduced(Sum1(1, data)), Reduced(Sum2(1, 0, data)))
  }

  lemma {:induction false} Sum1Append(start: nat, a: seq<byte>, b: seq<byte>)
    ensures Sum1(start, a + b) == Sum1(Sum1(start, a), b)
  {
    if |b| == 0 {
      assert a + b == a;
    } else {
      assert (a + b)[..|a + b| - 1] == a + b[..|b| - 1];
      Sum1Append(start, a, b[..|b| - 1]);
    }
  }

  lemma {:induction false} Sum2Append(start1: nat, start2: nat, a: seq<byte>, b: seq<byte>)
    ensures Sum2(start1, start2, a + b) == Sum2(Sum1(start1, a), Sum2(start1, start2, a), b)
  {
    if |b| == 0 {
      assert a + b == a;
    } else {
      assert (a + b)[..|a + b| - 1] == a + b[..|b| - 1];
      Sum2Append(start1, start2, a, b[..|b| - 1]);
      Sum1Append(start1, a, b);
    }
  }

  lemma {:induction false} ReducedSum(a: nat, b: nat, c: nat, d: nat)
    requires Reduced(a) == Reduced(b) && Reduced(c) == Reduced(d)
    ensures Reduced(a + c) == Reduced(b + d)
  {
    ModThenAdd(a, c, BASE);
    ModThenAdd(c, a % BASE, BASE);
    ModThenAdd(b, d, BASE);
    ModThenAdd(d, b % BASE, BASE);
  }

  lemma {:induction false} ReducedOnce(a: nat)
    ensures Reduced(Reduced(a)) == Reduced(a) == Reduced(a % BASE)
    ensures a < BASE ==> Reduced(a) == a
    ensures BASE <= a < 2 * BASE ==> Reduced(a - BASE) == Reduced(a)
  {
  }

  /** Only the remainders of the starting values matter. */
  lemma {:induction false} SumsOfCongruent(a1: nat, a2: nat, b1: nat, b2: nat, data: seq<byte>)
    requires Reduced(a1) == Reduced(b1) && Reduced(a2) == Reduced(b2)
    ensures Reduced(Sum1(a1, data)) == Reduced(Sum1(b1, data))
    ensures Reduced(Sum2(a1, a2, data)) == Reduced(Sum2(b1, b2, data))
  {
    hide Reduced;
    if |data| > 0 {
      var front := data[..|data| - 1];
      SumsOfCongruent(a1, a2, b1, b2, front);
      ReducedSum(Sum1(a1, front), Sum1(b1, front), data[|data| - 1], data[|data| - 1]);
      ReducedSum(Sum2(a1, a2, front), Sum2(b1, b2, front), Sum1(a1, data), Sum1(b1, data));
    }
  }

  /** Updating with a and then with b is updating with their concatenation. */
  lemma {:induction false} UpdatesCompose(a: seq<byte>, b: seq<byte>, s1: nat, s2: nat)
    ensures Reduced(Sum1(s1, a + b)) == Reduced(Sum1(Reduced(Sum1(s1, a)), b))
    ensures Reduced(Sum2(s1, s2, a + b)) == Reduced(Sum2(Reduced(Sum1(s1, a)), Reduced(Sum2(s1, s2, a)), b))
  {
    hide Reduced;
    ReducedOnce(Sum1(s1, a));
    ReducedOnce(Sum2(s1, s2, a));
    Sum1Append(s1, a, b);
    Sum2Append(s1, s2, a, b);
    SumsOfCongruent(Sum1(s1, a), Sum2(s1, s2, a), Reduced(Sum1(s1, a)), Reduced(Sum2(s1, s2, a)), b);
  }

  // ---- what the definition means ----

  /** The sum of the bytes, each as often as there are bytes from it on. */
  ghost function Weighted(data: seq<byte>): nat {
    if |data| == 0 then 0 else |data| * data[0] + Weighted(data[1..])
  }

  ghost function Total(data: seq<byte>): nat {
    if |data| == 0 then 0 else data[0] + Total(data[1..])
  }

  /** Both sums in closed form. */
  lemma {:induction false} SumsInClosedForm(s1: nat, s2: nat, data: seq<byte>)
    ensures Sum1(s1, data) == s1 + Total(data)
    ensures Sum2(s1, s2, data) == s2 + |data| * s1 + Weighted(data)
    decreases |data|
  {
    if |data| > 0 {
      var rest, n, b := data[1..], |data| - 1, data[0];
      FirstByte(s1, s2, b, rest, data);
      SumsInClosedForm(s1 + b, s2 + (s1 + b), rest);
      assert s2 + (s1 + b) + n * (s1 + b) == s2 + (n + 1) * s1 + (n + 1) * b by {
        MulDistributes(n, s1, b);
        MulDistributes(s1, n, 1);
        MulDistributes(b, n, 1);
      }
    }
  }

  lemma {:induction false} FirstByte(s1: nat, s2: nat, b: byte, rest: seq<byte>, data: seq<byte>)
    requires data == [b] + rest
    ensures Sum1(s1, data) == Sum1(s1 + b, rest) && Sum2(s1, s2, data) == Sum2(s1 + b, s2 + (s1 + b), rest)
  {
    assert [b][..0] == [];
    Sum1Append(s1, [b], rest);
    Sum2Append(s1, s2, [b], rest);
  }

  /** The checksum of a message, with the modulus of RFC 1950: a sum of the bytes and a sum of the bytes weighted by how
      many of them are left. */
  lemma {:induction false} ChecksumInClosedForm(data: seq<byte>)
    ensures ChecksumHalves(data) == ((1 + Total(data)) % 65521, (|data| + Weighted(data)) % 65521)
  {
    SumsInClosedForm(1, 0, data);
  }

  /** The checksum of "abc" is 0x024D0127. */
  lemma {:induction false} KnownChecksum()
    ensures ChecksumHalves([97, 98, 99]) == (0x0127, 0x024D)
  {
    ChecksumInClosedForm([97, 98, 99]);
    assert [97, 98, 99][1..] == [98, 99] && [98, 99][1..] == [99] && [99][1..] == [];
  }

  /** s1 and s2 stand for the sums over a prefix, up to multiples of BASE. */
  ghost predicate Tracks(s1: nat, s2: nat, start1: nat, start2: nat, data: seq<byte>) {
    Reduced(s1) == Reduced(Sum1(start1, data)) && Reduced(s2) == Reduced(Sum2(start1, start2, data))
  }

  lemma {:induction false} TrackByte(s1: nat, s2: nat, start1: nat, start2: nat, data: seq<byte>, i: nat)
    requires i < |data| && Tracks(s1, s2, start1, start2, data[..i])
    ensures Tracks(s1 + data[i], s2 + s1 + data[i], start1, start2, data[..i + 1])
  {
    hide Reduced;
    var front, now := data[..i], data[..i + 1];
    assert now[..i] == front;
    ReducedSum(s1, Sum1(start1, front), data[i], data[i]);
    ReducedSum(s2, Sum2(start1, start2, front), s1 + data[i], Sum1(start1, now));
  }

  lemma {:induction false} TrackReduced(s1: nat, s2: nat, start1: nat, start2: nat, data: seq<byte>)
    requires Tracks(s1, s2, start1, start2, data) && s1 < 2 * BASE
    ensures Tracks(s1, s2 % BASE, start1, start2, data)
    ensures s1 >= BASE ==> Tracks(s1 - BASE, s2, start1, start2, data) && Tracks(s1 - BASE, s2 % BASE, start1, start2, data)
  {
  }

  lemma {:induction false} TrackedResult(s1: nat, s2: nat, start1: nat, start2: nat, data: seq<byte>)
    requires Tracks(s1, s2, start1, start2, data) && s1 < BASE && s2 < BASE
    ensures s1 == Reduced(Sum1(start1, data)) && s2 == Reduced(Sum2(start1, start2, data))
  {
  }

  /** The largest s2 possible when `length` bytes are left: at most 8 * 67560 is added per eight bytes. */
  ghost function Limit(length: nat): nat {
    if length % 0x8000 == 0 then BASE - 1 else BASE - 1 + 540480 * ((0x8000 - length % 0x8000) / 8)
  }

  class Adler32 {
    var s1: nat
    var s2: nat

    ghost predicate Valid()
      reads this
    {
      s1 < BASE && s2 < BASE
    }

    constructor ()
      ensures Valid() && (s1, s2) == ChecksumHalves([])
    {
      s1, s2 := 1, 0;
    }

    method Reset()
      modifies this
      ensures Valid() && (s1, s2) == ChecksumHalves([])
    {
      s1, s2 := 1, 0;
    }

    method Update(input: seq<byte>)
      requires Valid()
      modifies this
      ensures Valid()
      ensures s1 == Reduced(Sum1(old(s1), input))
      ensures s2 == Reduced(Sum2(old(s1), old(s2), input))
    {
      hide Sum1, Sum2, Limit, Reduced, Tracks;
      var i: nat, a: nat, b: nat := LeadingBytes(input, s1, s2);
      var length := |input| - i;
      LimitAtLeast(length);
      ghost var start1, start2 := s1, s2;
      while length > 0
        invariant length == |input| - i && length % 8 == 0 && i <= |input|
        invariant a < BASE && b <= Limit(length)
        invariant s1 == start1 && s2 == start2 && Tracks(a, b, s1, s2, input[..i])
      {
        LimitAtLeast(length);
        a, b := EightBytes(input, i, a, b, s1, s2, Limit(length));
        length := length - 8;
        i := i + 8;
        LimitStep(length);
        TrackReduced(a, b, start1, start2, input[..i]);
        if a >= BASE {
          a := a - BASE;
        }
        if length % 0x8000 == 0 {
          b := b % BASE;
        }
      }
      LimitAtLeast(0);
      assert input[..i] == input;
      TrackedResult(a, b, start1, start2, input);
      s1, s2 := a, b;
    }

    /** The do-while loop over the bytes beyond a multiple of eight. */
    static method LeadingBytes(input: seq<byte>, start1: nat, start2: nat) returns (i: nat, s1: nat, s2: nat)
      requires start1 < BASE && start2 < BASE
      ensures i <= |input| && (|input| - i) % 8 == 0
      ensures s1 < BASE && s2 < BASE
      ensures Tracks(s1, s2, start1, start2, input[..i])
    {
      hide Tracks, Add32;
      i, s1, s2 := 0, start1, start2;
      EmptyPrefix(start1, start2, input);
      if |input| % 8 != 0 {
        while (|input| - i) % 8 != 0
          invariant i <= |input| % 8
          invariant s1 <= BASE - 1 + 255 * i && s2 <= BASE - 1 + 67560 * i
          invariant Tracks(s1, s2, start1, start2, input[..i])
          decreases |input| - i
        {
          LeftOver(|input|, i);
          TrackByte(s1, s2, start1, start2, input, i);
          SmallSum(s1, input[i]);
          SmallSum(s2, s1 + input[i]);
          s1 := Add32(s1, input[i]);
          s2 := Add32(s2, s1);
          i := i + 1;
        }
        TrackReduced(s1, s2, start1, start2, input[..i]);
        if s1 >= BASE {
          s1 := s1 - BASE;
        }
        s2 := s2 % BASE;
      }
    }

    /** The unrolled body: eight additions to each sum. The 32-bit additions never wrap. */
    static method EightBytes(input: seq<byte>, i: nat, a: nat, b: nat, ghost start1: nat, ghost start2: nat,
        ghost limit: nat)
        returns (s1: nat, s2: nat)
      requires i + 8 <= |input| && a < BASE && b <= limit <= BASE - 1 + 540480 * 4095
      requires Tracks(a, b, start1, start2, input[..i])
      ensures s1 <= BASE - 1 + 255 * 8 && s2 <= limit + 540480
      ensures Tracks(s1, s2, start1, start2, input[..i + 8])
    {
      hide Tracks, Add32;
      s1, s2 := a, b;
      for k := 0 to 8
        invariant s1 <= BASE - 1 + 255 * k && s2 <= limit + 67560 * k
        invariant Tracks(s1, s2, start1, start2, input[..i + k])
      {
        TrackByte(s1, s2, start1, start2, input, i + k);
        SmallSum(s1, input[i + k]);
        SmallSum(s2, s1 + input[i + k]);
        s1 := Add32(s1, input[i + k]);
        s2 := Add32(s2, s1);
      }
    }

    /** Writes the leading `size` bytes of the big-endian checksum and starts over; sizes above four are refused. */
    method TruncatedFinal(hash: array<byte>, size: nat) returns (ok: bool)
      requires Valid() && size <= hash.Length
      modifies this, hash
      ensures ok <==> size <= 4
      ensures ok ==> hash[..size] == [old(s2) / 256, old(s2) % 256, old(s1) / 256, old(s1) % 256][..size]
      ensures ok ==> hash[size..] == old(hash[size..]) && (s1, s2) == ChecksumHalves([]) && Valid()
      ensures !ok ==> s1 == old(s1) && s2 == old(s2) && hash[..] == old(hash[..])
    {
      if size > 4 {
        return false;
      }
      if size > 3 { hash[3] := s1 % 256; }
      if size > 2 { hash[2] := s1 / 256; }
      if size > 1 { hash[1] := s2 % 256; }
      if size > 0 { hash[0] := s2 / 256; }
      Reset();
      ok := true;
    }
  }

  lemma {:induction false} EmptyPrefix(start1: nat, start2: nat, data: seq<byte>)
    ensures Tracks(start1, start2, start1, start2, data[..0])
  {
  }

  lemma {:induction false} LimitAtLeast(length: nat)
    requires length % 8 == 0
    ensures BASE - 1 <= Limit(length) <= BASE - 1 + 540480 * 4095
    ensures Limit(0) == BASE - 1
  {
  }

  lemma {:induction false} LimitStep(length: nat)
    requires length % 8 == 0
    ensures Limit(length) >= BASE - 1
    ensures length % 0x8000 != 0 ==> Limit(length + 8) + 540480 <= Limit(length)
    ensures Limit(length + 8) <= BASE - 1 + 540480 * 4095
  {
    var r := length % 0x8000;
    assert r % 8 == 0;
    assert (length + 8) % 0x8000 == if r + 8 == 0x8000 then 0 else r + 8;
  }

  lemma {:induction false} SmallSum(a: nat, b: nat)
    requires a + b < TWO32
    ensures Add32(a, b) == a + b
  {
  }

  lemma {:induction false} LeftOver(n: nat, i: nat)
    requires i <= n % 8
    ensures (n - i) % 8 == n % 8 - i
  {
  }
}
