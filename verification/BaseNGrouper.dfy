/** Grouper (basecode.cpp): a separator between groups of characters, a terminator at the end. */
module BaseNGrouping {
  import opened Arithmetic
  import opened BaseNSpec

  /** What m_counter holds after n characters of a message. */
  function Counter(groupSize: nat, n: nat): nat {
    if groupSize == 0 || n == 0 then 0 else (n - 1) % groupSize + 1
  }

  /** A full counter marks a boundary; otherwise it is the place in the group. */
  lemma {:induction false} CounterMeans(groupSize: nat, n: nat)
    requires groupSize > 0
    ensures Counter(groupSize, n) <= groupSize
    ensures Counter(groupSize, n) == groupSize <==> n > 0 && n % groupSize == 0
    ensures Counter(groupSize, n) < groupSize ==> Counter(groupSize, n) == n % groupSize
  {
    if n > 0 {
      var place := (n - 1) % groupSize;
      if place + 1 == groupSize {
        EndOfGroup(groupSize, n);
      } else {
        InGroup(groupSize, n - 1, 1);
      }
    }
  }

  lemma {:induction false} EndOfGroup(groupSize: nat, n: nat)
    requires groupSize > 0 && n > 0 && (n - 1) % groupSize + 1 == groupSize
    ensures n % groupSize == 0
  {
    DivModUnique(n, groupSize, (n - 1) / groupSize + 1, 0);
  }

  lemma {:induction false} CounterAdvances(groupSize: nat, n: nat, len: nat)
    requires groupSize > 0 && 0 < len <= groupSize - n % groupSize
    ensures Counter(groupSize, n + len) == n % groupSize + len
  {
    InGroup(groupSize, n, len - 1);
  }

  lemma {:induction false} InGroup(groupSize: nat, n: nat, k: nat)
    requires groupSize > 0 && k < groupSize - n % groupSize
    ensures (n + k) % groupSize == n % groupSize + k
  {
    DivModUnique(n + k, groupSize, n / groupSize, n % groupSize + k);
  }

  /** A run inside one group gets at most one separator, in front of it. */
  lemma {:induction false} SeparatedRun(groupSize: nat, separator: seq<byte>, s: seq<byte>, run: seq<byte>)
    requires groupSize > 0 && 0 < |run| <= groupSize - |s| % groupSize
    ensures Separated(groupSize, separator, s + run)
      == Separated(groupSize, separator, s) + (if |s| > 0 && |s| % groupSize == 0 then separator else []) + run
  {
    var front, last := run[..|run| - 1], run[|run| - 1];
    assert (s + run)[..|s + run| - 1] == s + front;
    if |front| == 0 {
      assert s + front == s && run == [last];
    } else {
      SeparatedRun(groupSize, separator, s, front);
      InGroup(groupSize, |s|, |front|);
      assert run == front + [last];
    }
  }

  lemma {:induction false} NoGroups(separator: seq<byte>, s: seq<byte>)
    ensures Separated(0, separator, s) == s
  {
    if |s| > 0 {
      NoGroups(separator, s[..|s| - 1]);
      assert s == s[..|s| - 1] + [s[|s| - 1]];
    }
  }

  class Grouper {
    const groupSize: nat
    const separator: seq<byte>
    const terminator: seq<byte>
    var counter: nat
    var output: seq<byte>        // what the attached filter has received
    ghost var base: seq<byte>    // output before the current message
    ghost var fed: seq<byte>     // the current message so far

    ghost predicate Valid()
      reads this
    {
      && counter == Counter(groupSize, |fed|)
      && output == base + Separated(groupSize, separator, fed)
    }

    constructor (groupSize: nat, separator: seq<byte>, terminator: seq<byte>)
      ensures Valid() && output == [] && fed == [] && base == []
      ensures this.groupSize == groupSize && this.separator == separator && this.terminator == terminator
    {
      this.groupSize, this.separator, this.terminator := groupSize, separator, terminator;
      counter, output, base, fed := 0, [], [], [];
    }

    /** Put2 on a chunk. */
    method Put(begin: seq<byte>)
      requires Valid()
      modifies this`counter, this`output, this`fed
      ensures Valid() && fed == old(fed) + begin && old(output) <= output
    {
      hide Counter, Separated;
      if groupSize > 0 {
        var inputPosition: nat := 0;
        while inputPosition < |begin|
          invariant inputPosition <= |begin| && Valid() && fed == old(fed) + begin[..inputPosition]
          invariant old(output) <= output
        {
          var len := PutRun(begin[inputPosition..]);
          assert begin[..inputPosition + len] == begin[..inputPosition] + begin[inputPosition..][..len];
          inputPosition := inputPosition + len;
        }
        assert begin[..|begin|] == begin;
      } else {
        NoGroups(separator, fed);
        NoGroups(separator, fed + begin);
        Ungrouped(|fed|, |fed + begin|);
        output := output + begin;
        fed := fed + begin;
      }
    }

    /** One turn of the loop: a separator if the group is full, then as much as fits. */
    method PutRun(rest: seq<byte>) returns (len: nat)
      requires Valid() && groupSize > 0 && |rest| > 0
      modifies this`counter, this`output, this`fed
      ensures Valid() && 0 < len <= |rest| && fed == old(fed) + rest[..len] && old(output) <= output
    {
      hide Counter, Separated;
      CounterMeans(groupSize, |fed|);
      if counter == groupSize {
        output := output + separator;
        counter := 0;
      }
      len := if |rest| < groupSize - counter then |rest| else groupSize - counter;
      output := output + rest[..len];
      counter := counter + len;
      SeparatedRun(groupSize, separator, fed, rest[..len]);
      CounterAdvances(groupSize, |fed|, len);
      fed := fed + rest[..len];
    }

    /** The messageEnd branch. */
    method FinishMessage()
      requires Valid()
      modifies this`counter, this`output, this`fed, this`base
      ensures Valid() && fed == [] && base == output && old(output) <= output
      ensures output == old(base) + Separated(groupSize, separator, old(fed)) + terminator
    {
      output := output + terminator;
      counter := 0;
      base, fed := output, [];
    }

    /** Put2: a chunk of the message, the last one if messageEnd. The result depends on the message, not on the chunks. */
    method Put2(begin: seq<byte>, messageEnd: bool)
      requires Valid()
      modifies this`counter, this`output, this`fed, this`base
      ensures Valid() && old(output) <= output
      ensures !messageEnd ==> fed == old(fed) + begin && base == old(base)
      ensures messageEnd ==> fed == [] && base == output
      ensures messageEnd ==> output == old(base) + Separated(groupSize, separator, old(fed) + begin) + terminator
    {
      hide Valid();
      Put(begin);
      if messageEnd {
        FinishMessage();
      }
    }
  }

  lemma {:induction false} Ungrouped(n: nat, n': nat)
    ensures Counter(0, n) == 0 == Counter(0, n')
  {
  }
}
