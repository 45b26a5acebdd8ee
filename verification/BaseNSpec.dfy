/** What the base-N encoder, decoder and grouper compute (basecode.cpp), as functions of whole messages,
    and the round trip between them. Bits are listed most significant first. */
module BaseNSpec {
  import opened Arithmetic

  /** The low k bits of v. */
  ghost function BitsOf(v: nat, k: nat): (s: seq<bool>)
    ensures |s| == k
  {
    if k == 0 then [] else BitsOf(v / 2, k - 1) + [v % 2 == 1]
  }

  ghost function NumberOf(bits: seq<bool>): (v: nat)
    ensures v < Pow2(|bits|)
  {
    if |bits| == 0 then 0
    else
      var r := NumberOf(bits[..|bits| - 1]);
      r + r + (if bits[|bits| - 1] then 1 else 0)
  }

  ghost function Zeros(n: nat): (s: seq<bool>)
    ensures |s| == n
  {
    seq(n, _ => false)
  }

  /** The units of a message, b bits each, end to end. */
  ghost function Pack(units: seq<nat>, b: nat): (s: seq<bool>)
  {
    if |units| == 0 then [] else Pack(units[..|units| - 1], b) + BitsOf(units[|units| - 1], b)
  }

  ghost predicate AllBelow(units: seq<nat>, limit: nat) {
    forall i :: 0 <= i < |units| ==> units[i] < limit
  }

  /** The bit string cut into groups of b bits, the last one filled with zeros. */
  ghost function Groups(bits: seq<bool>, b: nat): seq<nat>
    requires b > 0
  {
    if |bits| == 0 then []
    else if |bits| <= b then [NumberOf(bits + Zeros(b - |bits|))]
    else [NumberOf(bits[..b])] + Groups(bits[b..], b)
  }

  /** The whole bytes of a bit string; what is left over is dropped. */
  ghost function FullBytes(bits: seq<bool>): seq<nat> {
    if |bits| < 8 then [] else [NumberOf(bits[..8])] + FullBytes(bits[8..])
  }

  // ---- bits and numbers ----

  lemma {:induction false} NumberOfBits(v: nat, k: nat)
    requires v < Pow2(k)
    ensures NumberOf(BitsOf(v, k)) == v
  {
    if k > 0 {
      NumberOfBits(v / 2, k - 1);
      assert BitsOf(v, k)[..k - 1] == BitsOf(v / 2, k - 1);
    }
  }

  /** u shifted over w, as bits: u's bits, then w's. */
  lemma {:induction false} BitsOfJoined(u: nat, k: nat, w: nat, t: nat)
    requires w < Pow2(t)
    ensures Shl(u, t) + w >= 0
    ensures BitsOf(Shl(u, t) + w, k + t) == BitsOf(u, k) + BitsOf(w, t)
  {
    ShlGrows(u, t);
    if t == 0 {
      assert BitsOf(w, 0) == [];
    } else {
      BitsOfJoined(u, k, w / 2, t - 1);
      var v := Shl(u, t) + w;
      assert v / 2 == Shl(u, t - 1) + w / 2 && v % 2 == w % 2;
      assert BitsOf(v, k + t) == BitsOf(v / 2, k + t - 1) + [v % 2 == 1];
    }
  }

  lemma {:induction false} BitsOfZero(k: nat)
    ensures BitsOf(0, k) == Zeros(k)
  {
    if k > 0 { BitsOfZero(k - 1); }
  }

  lemma {:induction false} PackConcat(a: seq<nat>, c: seq<nat>, b: nat)
    ensures Pack(a + c, b) == Pack(a, b) + Pack(c, b)
  {
    hide BitsOf;
    if |c| == 0 {
      assert a + c == a;
      assert Pack(a, b) + [] == Pack(a, b);
    } else {
      var front, last := c[..|c| - 1], BitsOf(c[|c| - 1], b);
      PackConcat(a, front, b);
      assert (a + c)[..|a + c| - 1] == a + front;
      assert Pack(a + c, b) == Pack(a + front, b) + last;
      assert Pack(a, b) + Pack(front, b) + last == Pack(a, b) + (Pack(front, b) + last);
    }
  }

  lemma {:induction false} PackFirst(units: seq<nat>, b: nat)
    requires |units| > 0
    ensures Pack(units, b) == BitsOf(units[0], b) + Pack(units[1..], b)
  {
    PackConcat(units[..1], units[1..], b);
    assert units == units[..1] + units[1..];
    assert units[..1][..0] == [];
  }

  lemma {:induction false} PackEmpty(b: nat)
    ensures Pack([], b) == []
  {
  }

  /** Bits are listed most significant first. */
  lemma {:induction false} BitsInOrder(v: nat, k: nat, j: nat)
    requires j < k
    ensures BitsOf(v, k)[j] <==> Bit(v, k - 1 - j) == 1
  {
    if j < k - 1 {
      BitsInOrder(v / 2, k - 1, j);
      BitOfHalf(v, k - 1 - j);
    }
  }

  /** Units lie end to end: bit j of unit i is bit i * b + j of the string. */
  lemma {:induction false} UnitsInOrder(units: seq<nat>, b: nat, i: nat, j: nat)
    requires i < |units| && j < b
    ensures |Pack(units, b)| == |units| * b && 0 <= i * b + j < |units| * b
    ensures Pack(units, b)[i * b + j] <==> Bit(units[i], b - 1 - j) == 1
  {
    hide BitsOf, Bit;
    var n := |units| - 1;
    PackedSize(units, b);
    PackedSize(units[..n], b);
    MulDistributes(b, n, 1);
    if i == n {
      BitsInOrder(units[n], b, j);
    } else {
      UnitsInOrder(units[..n], b, i, j);
    }
  }

  lemma {:induction false} PackedSize(units: seq<nat>, b: nat)
    ensures |Pack(units, b)| == |units| * b
  {
    if |units| > 0 {
      PackedSize(units[..|units| - 1], b);
      MulDistributes(b, |units| - 1, 1);
    }
  }

  // ---- cutting undoes packing ----

  /** A bit string that is whole groups and an open one cuts into those groups and the filled open one. */
  lemma {:induction false} GroupsOfPack(units: seq<nat>, b: nat, open: nat, k: nat)
    requires b > 0 && k < b && AllBelow(units, Pow2(b)) && open < Pow2(k)
    ensures Shl(open, b - k) >= 0
    ensures Groups(Pack(units, b) + BitsOf(open, k), b) == units + (if k == 0 then [] else [Shl(open, b - k)])
    decreases |units|
  {
    hide Pack, BitsOf, NumberOf, Shl;
    ShlGrows(open, b - k);
    var bits := Pack(units, b) + BitsOf(open, k);
    if |units| == 0 {
      PackEmpty(b);
      if k > 0 { OpenGroup(open, k, b); }
      assert bits == BitsOf(open, k);
    } else {
      PackFirst(units, b);
      var rest := Pack(units[1..], b) + BitsOf(open, k);
      assert bits == BitsOf(units[0], b) + rest;
      NumberOfBits(units[0], b);
      GroupsOfPack(units[1..], b, open, k);
      assert bits[..b] == BitsOf(units[0], b) && bits[b..] == rest;
      if |rest| == 0 {
        assert bits + Zeros(0) == bits[..b];
      }
      assert units == [units[0]] + units[1..];
    }
  }

  /** An open group filled with zeros is its value shifted to the top. */
  lemma {:induction false} OpenGroup(open: nat, k: nat, b: nat)
    requires k < b && open < Pow2(k)
    ensures 0 <= Shl(open, b - k) < Pow2(b)
    ensures NumberOf(BitsOf(open, k) + Zeros(b - k)) == Shl(open, b - k)
  {
    BitsOfJoined(open, k, 0, b - k);
    BitsOfZero(b - k);
    ShlMonotone(open + 1, Pow2(k), b - k);
    ShlAdd(open, 1, b - k);
    ShlOne(b - k);
    ShlOne(k);
    ShlShl(1, k, b - k);
    ShlOne(b);
    NumberOfBits(Shl(open, b - k), b);
  }

  /** Filling with fewer than eight bits does not change the whole bytes. */
  lemma {:induction false} FullBytesOfPack(m: seq<nat>, tail: seq<bool>)
    requires AllBelow(m, 256) && |tail| < 8
    ensures FullBytes(Pack(m, 8) + tail) == m
    decreases |m|
  {
    if |m| > 0 {
      PackFirst(m, 8);
      var bits, rest := Pack(m, 8) + tail, Pack(m[1..], 8) + tail;
      assert bits[..8] == BitsOf(m[0], 8) && bits[8..] == rest;
      PowersOfTwo();
      NumberOfBits(m[0], 8);
      FullBytesOfPack(m[1..], tail);
    } else {
      assert Pack(m, 8) + tail == tail;
    }
  }

  /** Packing the groups gives the bits back, filled with fewer than b zeros. */
  lemma {:induction false} PackOfGroups(bits: seq<bool>, b: nat) returns (fill: nat)
    requires b > 0
    ensures fill < b && Pack(Groups(bits, b), b) == bits + Zeros(fill)
    ensures AllBelow(Groups(bits, b), Pow2(b))
    decreases |bits|
  {
    hide Pack, BitsOf, NumberOf;
    PackEmpty(b);
    if |bits| == 0 {
      fill := 0;
      assert bits + Zeros(0) == [];
    } else if |bits| <= b {
      fill := b - |bits|;
      OneGroup(bits + Zeros(fill), [], [], b);
      assert [NumberOf(bits + Zeros(fill))] + [] == Groups(bits, b);
      assert bits + Zeros(fill) + [] == bits + Zeros(fill);
    } else {
      fill := PackOfGroups(bits[b..], b);
      OneGroup(bits[..b], Groups(bits[b..], b), bits[b..] + Zeros(fill), b);
      assert bits + Zeros(fill) == bits[..b] + (bits[b..] + Zeros(fill));
    }
  }

  lemma {:induction false} OneGroup(group: seq<bool>, units: seq<nat>, bits: seq<bool>, b: nat)
    requires |group| == b && Pack(units, b) == bits && AllBelow(units, Pow2(b))
    ensures Pack([NumberOf(group)] + units, b) == group + bits && AllBelow([NumberOf(group)] + units, Pow2(b))
  {
    hide Pack, BitsOf, NumberOf, Pow2;
    var all := [NumberOf(group)] + units;
    BitsOfNumber(group);
    PackFirst(all, b);
    assert all[1..] == units;
  }

  lemma {:induction false} BitsOfNumber(bits: seq<bool>)
    ensures BitsOf(NumberOf(bits), |bits|) == bits
  {
    if |bits| > 0 {
      BitsOfNumber(bits[..|bits| - 1]);
      assert bits == bits[..|bits| - 1] + [bits[|bits| - 1]];
    }
  }

  // ---- the three filters on whole messages ----

  function BlockSize(b: nat): (n: nat)
    requires 1 <= b <= 7
    ensures n > 0
  {
    if b == 1 || b == 3 || b == 5 || b == 7 then 8 else if b == 2 || b == 6 then 4 else 2
  }

  lemma {:induction false} LeastBlockSize(b: nat)
    requires 1 <= b <= 7
    ensures BlockSize(b) * b % 8 == 0
    ensures forall k :: 0 < k < BlockSize(b) ==> k * b % 8 != 0
  {
  }

  function Letters(alphabet: seq<byte>, groups: seq<nat>): (s: seq<byte>)
    requires forall i :: 0 <= i < |groups| ==> groups[i] < |alphabet|
    ensures |s| == |groups|
  {
    seq(|groups|, i requires 0 <= i < |groups| => alphabet[groups[i]])
  }

  /** Padding characters up to a whole output block; padding == -1 means none. */
  function Padding(padding: int, count: nat, blockSize: nat): seq<byte>
    requires -1 <= padding < 256 && blockSize > 0
  {
    if padding == -1 || count % blockSize == 0 then [] else seq(blockSize - count % blockSize, _ => padding)
  }

  /** Whole blocks with padding, and less than a block of it. */
  lemma {:induction false} PaddingFills(padding: int, count: nat, blockSize: nat)
    requires -1 <= padding < 256 && blockSize > 0
    ensures var p := Padding(padding, count, blockSize);
            && |p| < blockSize && (forall i :: 0 <= i < |p| ==> p[i] == padding)
            && (if padding == -1 then p == [] else (count + |p|) % blockSize == 0)
  {
    if padding != -1 {
      var r := count % blockSize;
      if r == 0 {
        DivModUnique(count, blockSize, count / blockSize, 0);
      } else {
        MulDistributes(blockSize, count / blockSize, 1);
        DivModUnique(count + (blockSize - r), blockSize, count / blockSize + 1, 0);
      }
    }
  }

  ghost function Encoded(alphabet: seq<byte>, b: nat, padding: int, m: seq<byte>): seq<byte>
    requires 1 <= b <= 7 && |alphabet| >= Pow2(b) && -1 <= padding < 256
  {
    var groups := Groups(Pack(m, 8), b);
    GroupsBelow(m, b);
    Letters(alphabet, groups) + Padding(padding, |groups|, BlockSize(b))
  }

  lemma {:induction false} GroupsBelow(m: seq<byte>, b: nat)
    requires b > 0
    ensures AllBelow(Groups(Pack(m, 8), b), Pow2(b))
  {
    var fill := PackOfGroups(Pack(m, 8), b);
  }

  /** A separator before every groupSize-th character but the first. */
  function Separated(groupSize: nat, separator: seq<byte>, s: seq<byte>): seq<byte> {
    if |s| == 0 then []
    else
      var front := s[..|s| - 1];
      Separated(groupSize, separator, front)
      + (if groupSize > 0 && |front| > 0 && |front| % groupSize == 0 then separator else [])
      + [s[|s| - 1]]
  }

  type Lookup = t: seq<int> | |t| == 256 witness seq(256, _ => -1)

  ghost predicate LookupFor(lookup: Lookup, b: nat) {
    forall c :: 0 <= c < 256 ==> -1 <= lookup[c] < Pow2(b)
  }

  /** The values of the characters that have one. */
  function Values(lookup: Lookup, s: seq<byte>): seq<int> {
    if |s| == 0 then []
    else Values(lookup, s[..|s| - 1]) + (if lookup[s[|s| - 1]] < 0 then [] else [lookup[s[|s| - 1]]])
  }

  lemma {:induction false} ValuesBelow(lookup: Lookup, b: nat, s: seq<byte>)
    requires LookupFor(lookup, b)
    ensures forall i :: 0 <= i < |Values(lookup, s)| ==> 0 <= Values(lookup, s)[i] < Pow2(b)
  {
    if |s| > 0 { ValuesBelow(lookup, b, s[..|s| - 1]); }
  }

  /** Values as naturals. */
  ghost function Units(lookup: Lookup, b: nat, s: seq<byte>): (u: seq<nat>)
    requires LookupFor(lookup, b)
    ensures AllBelow(u, Pow2(b))
  {
    ValuesBelow(lookup, b, s);
    Values(lookup, s)
  }

  ghost function Decoded(lookup: Lookup, b: nat, s: seq<byte>): seq<nat>
    requires LookupFor(lookup, b)
  {
    FullBytes(Pack(Units(lookup, b, s), b))
  }

  lemma {:induction false} ValuesConcat(lookup: Lookup, a: seq<byte>, c: seq<byte>)
    ensures Values(lookup, a + c) == Values(lookup, a) + Values(lookup, c)
  {
    if |c| == 0 {
      assert a + c == a;
    } else {
      ValuesConcat(lookup, a, c[..|c| - 1]);
      assert (a + c)[..|a + c| - 1] == a + c[..|c| - 1];
    }
  }

  ghost predicate Ignored(lookup: Lookup, s: seq<byte>) {
    forall i :: 0 <= i < |s| ==> lookup[s[i]] < 0
  }

  lemma {:induction false} IgnoredHasNoValues(lookup: Lookup, s: seq<byte>)
    requires Ignored(lookup, s)
    ensures Values(lookup, s) == []
  {
    if |s| > 0 { IgnoredHasNoValues(lookup, s[..|s| - 1]); }
  }

  lemma {:induction false} SeparatorsIgnored(lookup: Lookup, groupSize: nat, separator: seq<byte>, s: seq<byte>)
    requires Ignored(lookup, separator)
    ensures Values(lookup, Separated(groupSize, separator, s)) == Values(lookup, s)
  {
    hide Values;
    if |s| > 0 {
      var front, last := s[..|s| - 1], [s[|s| - 1]];
      var head := Separated(groupSize, separator, front);
      var middle := if groupSize > 0 && |front| > 0 && |front| % groupSize == 0 then separator else [];
      SeparatorsIgnored(lookup, groupSize, separator, front);
      IgnoredHasNoValues(lookup, middle);
      ValuesConcat(lookup, head, middle);
      ValuesConcat(lookup, head + middle, last);
      ValuesConcat(lookup, front, last);
      assert s == front + last;
    }
  }

  lemma {:induction false} LettersHaveTheirValues(lookup: Lookup, alphabet: seq<byte>, groups: seq<nat>)
    requires forall i :: 0 <= i < |groups| ==> groups[i] < |alphabet| && lookup[alphabet[groups[i]]] == groups[i]
    ensures Values(lookup, Letters(alphabet, groups)) == groups
  {
    if |groups| > 0 {
      var front := groups[..|groups| - 1];
      LettersHaveTheirValues(lookup, alphabet, front);
      assert Letters(alphabet, groups)[..|groups| - 1] == Letters(alphabet, front);
    }
  }

  /** Decoding the padded, grouped and terminated encoding gives the message back, for 1 to 7 bits a character. */
  lemma {:induction false} RoundTrip(lookup: Lookup, alphabet: seq<byte>, b: nat, padding: int,
      groupSize: nat, separator: seq<byte>, terminator: seq<byte>, m: seq<byte>)
    requires 1 <= b <= 7 && |alphabet| >= Pow2(b) && -1 <= padding < 256 && LookupFor(lookup, b)
    requires forall i :: 0 <= i < Pow2(b) ==> lookup[alphabet[i]] == i
    requires padding >= 0 ==> lookup[padding] < 0
    requires Ignored(lookup, separator) && Ignored(lookup, terminator)
    ensures Decoded(lookup, b, Separated(groupSize, separator, Encoded(alphabet, b, padding, m)) + terminator) == m
  {
    hide Values, Groups, Pack, Separated, FullBytes, Letters;
    var groups := Groups(Pack(m, 8), b);
    GroupsBelow(m, b);
    var letters, pad := Letters(alphabet, groups), Padding(padding, |groups|, BlockSize(b));
    var e := letters + pad;
    var fill := PackOfGroups(Pack(m, 8), b);
    LettersHaveTheirValues(lookup, alphabet, groups);
    IgnoredHasNoValues(lookup, pad);
    IgnoredHasNoValues(lookup, terminator);
    ValuesConcat(lookup, letters, pad);
    SeparatorsIgnored(lookup, groupSize, separator, e);
    ValuesConcat(lookup, Separated(groupSize, separator, e), terminator);
    assert Encoded(alphabet, b, padding, m) == e;
    assert Values(lookup, Separated(groupSize, separator, e) + terminator) == groups;
    FullBytesOfPack(m, Zeros(fill));
  }
}
