/** AbstractGroup::SimultaneousMultiply: many multiples of one base with buckets and signed windows (algebra.cpp). */
module SimultaneousMultiplication {
  import opened Arithmetic
  import opened AbstractGroups
  import opened WindowSliding

  // ---- the value held by a row of buckets, as an integer multiple of the base ----

  /** Sum of coef[k] for k >= j. */
  ghost function Suffix(coef: seq<int>, j: nat): int
    requires j <= |coef|
    decreases |coef| - j
  {
    if j == |coef| then 0 else coef[j] + Suffix(coef, j + 1)
  }

  /** Sum of the suffix sums from j on. */
  ghost function SuffixSum(coef: seq<int>, j: nat): int
    requires j <= |coef|
    decreases |coef| - j
  {
    if j == |coef| then 0 else Suffix(coef, j) + SuffixSum(coef, j + 1)
  }

  /** Sum of (2k+1) * coef[k] for k >= j: bucket k collects the odd digit 2k+1. */
  ghost function Weighted(coef: seq<int>, j: nat): int
    requires j <= |coef|
    decreases |coef| - j
  {
    if j == |coef| then 0 else (2 * j + 1) * coef[j] + Weighted(coef, j + 1)
  }

  /** The fold over the buckets computes the weighted sum. */
  lemma {:induction false} FoldIsWeighted(coef: seq<int>, j: nat)
    requires j < |coef|
    ensures Weighted(coef, j) == 2 * SuffixSum(coef, j + 1) + (2 * j + 1) * Suffix(coef, j)
    decreases |coef| - j
  {
    MulDistributes(2 * j + 1, coef[j], Suffix(coef, j + 1));
    if j + 1 < |coef| {
      FoldIsWeighted(coef, j + 1);
      MulDistributes(Suffix(coef, j + 1), 2 * j + 1, 2);
    } else {
      assert (2 * j + 1) * 0 == 0;
    }
  }

  lemma {:induction false} WeightedUpdate(coef: seq<int>, j: nat, k: nat, v: int)
    requires j <= |coef| && k < |coef|
    ensures Weighted(coef[k := v], j) == Weighted(coef, j) + (if j <= k then (2 * k + 1) * (v - coef[k]) else 0)
    decreases |coef| - j
  {
    if j < |coef| {
      WeightedUpdate(coef, j + 1, k, v);
      MulDistributes(2 * k + 1, v, coef[k]);
    }
  }

  lemma {:induction false} WeightedZero(coef: seq<int>, j: nat)
    requires j <= |coef| && forall k :: 0 <= k < |coef| ==> coef[k] == 0
    ensures Weighted(coef, j) == 0
    decreases |coef| - j
  {
    if j < |coef| { WeightedZero(coef, j + 1); }
  }

  /** Every bucket holds the multiple of the base its coefficient says. */
  ghost predicate Holds<E>(g: Group<E>, base: E, bucket: seq<E>, coef: seq<int>) {
    && |bucket| == |coef|
    && forall k :: 0 <= k < |bucket| ==> bucket[k] == Times(g, coef[k], base)
  }

  /** What a slider and its buckets keep while the doubling position is `pos`: collected plus pending digits
      are the exponent, and the next window is still ahead. */
  ghost predicate Collecting<E>(g: Group<E>, base: E, s: WindowSlider, bucket: seq<E>, coef: seq<int>, pos: nat)
    reads s
  {
    && s.Valid() && !s.firstTime
    && |bucket| == Pow2(s.windowSize - 1)
    && Holds(g, base, bucket, coef)
    && Weighted(coef, 0) + s.Pending() == s.exponent
    && (!s.finished ==> pos <= s.windowBegin)
  }

  /** Initialisation of one exponent: its slider at the first window, its buckets at the identity. */
  method StartSlider<E(!new)>(g: Group<E>, exponent: nat, inversionIsFast: bool, base: E)
      returns (s: WindowSlider, bucket: seq<E>, ghost coef: seq<int>)
    requires IsGroup(g)
    ensures fresh(s) && s.exponent == exponent
    ensures Collecting(g, base, s, bucket, coef, 0)
  {
    s := new WindowSlider(exponent, inversionIsFast);
    ShiftByZero(exponent);
    s.FindNextWindow();
    var n := Pow2(s.windowSize - 1);
    bucket := seq(n, _ => g.identity);
    coef := seq(n, _ => 0);
    WeightedZero(coef, 0);
  }

  /** One visit of the inner loop to an exponent whose window starts at the current position. */
  method CollectWindow<E(!new)>(g: Group<E>, base: E, s: WindowSlider, bucket: seq<E>, ghost coef: seq<int>,
      power: E, ghost pos: nat)
      returns (bucket': seq<E>, ghost coef': seq<int>)
    requires IsGroup(g) && Collecting(g, base, s, bucket, coef, pos)
    requires !s.finished && s.windowBegin == pos && power == Times(g, Pow2(pos), base)
    modifies s
    ensures Collecting(g, base, s, bucket', coef', pos + 1)
  {
    hide Shl, Weighted, Times, IsGroup;
    ghost var digit, w := s.Digit(), s.windowSize;
    var k := s.expWindow / 2;
    assert k < |bucket|;
    ghost var c := if s.negateNext then coef[k] - Pow2(pos) else coef[k] + Pow2(pos);
    TimesAdd(g, coef[k], Pow2(pos), base);
    TimesNegate(g, Pow2(pos), base);
    TimesAdd(g, coef[k], 0 - Pow2(pos), base);
    if s.negateNext {
      bucket' := bucket[k := g.add(bucket[k], g.inverse(power))];
    } else {
      bucket' := bucket[k := g.add(bucket[k], power)];
    }
    coef' := coef[k := c];
    DigitCollected(coef, k, c, s.negateNext, digit, Shl(s.High(), w), pos, w, s.High());
    s.FindNextWindow();
  }

  /** Moving one digit from the pending part into its bucket conserves the total. */
  lemma {:induction false} DigitCollected(coef: seq<int>, k: nat, c: int, negate: bool, digit: int, rest: int,
      pos: nat, w: nat, high: nat)
    requires k < |coef| && rest == Shl(high, w)
    requires digit == if negate then 0 - (2 * k + 1) else 2 * k + 1
    requires c == if negate then coef[k] - Pow2(pos) else coef[k] + Pow2(pos)
    ensures Weighted(coef[k := c], 0) + Shl(high, pos + w) == Weighted(coef, 0) + Shl(digit + rest, pos)
  {
    hide Shl, Weighted;
    WeightedUpdate(coef, 0, k, c);
    ShlAdd(digit, rest, pos);
    ShlShl(high, w, pos);
    ShlIsMul(digit, pos);
    assert (2 * k + 1) * (c - coef[k]) == digit * Pow2(pos);
  }

  /** The buckets of all exponents while the main loop is at `pos`; sliders before `visited` have been served. */
  ghost predicate AllCollecting<E>(g: Group<E>, base: E, sliders: seq<WindowSlider>, buckets: seq<seq<E>>,
      coefs: seq<seq<int>>, exps: seq<nat>, pos: nat, visited: nat)
    reads sliders
  {
    && |sliders| == |buckets| == |coefs| == |exps|
    && (forall i, j :: 0 <= i < j < |sliders| ==> sliders[i] != sliders[j])
    && (forall i :: 0 <= i < |sliders| ==> sliders[i].exponent == exps[i])
    && (forall i :: 0 <= i < |sliders| ==>
        Collecting(g, base, sliders[i], buckets[i], coefs[i], if i < visited then pos + 1 else pos))
  }

  /** The initialisation loop. */
  method StartSliders<E(!new)>(g: Group<E>, inversionIsFast: bool, base: E, exps: seq<nat>)
      returns (sliders: seq<WindowSlider>, buckets: seq<seq<E>>, ghost coefs: seq<seq<int>>)
    requires IsGroup(g)
    ensures fresh(sliders)
    ensures AllCollecting(g, base, sliders, buckets, coefs, exps, 0, 0)
  {
    hide Collecting;
    sliders, buckets, coefs := [], [], [];
    for i := 0 to |exps|
      invariant fresh(sliders) && |sliders| == i
      invariant AllCollecting(g, base, sliders, buckets, coefs, exps[..i], 0, 0)
    {
      var s, bucket;
      ghost var coef;
      s, bucket, coef := StartSlider(g, exps[i], inversionIsFast, base);
      sliders, buckets, coefs := sliders + [s], buckets + [bucket], coefs + [coef];
    }
    assert exps[..|exps|] == exps;
  }

  lemma {:induction false} NotYetDue<E>(g: Group<E>, base: E, s: WindowSlider, bucket: seq<E>, coef: seq<int>, pos: nat)
    requires Collecting(g, base, s, bucket, coef, pos) && (s.finished || s.windowBegin != pos)
    ensures Collecting(g, base, s, bucket, coef, pos + 1)
  {
  }

  /** The inner loop: serves every exponent whose window starts at the current doubling position. */
  method VisitSliders<E(!new)>(g: Group<E>, base: E, sliders: seq<WindowSlider>, buckets: seq<seq<E>>,
      ghost coefs: seq<seq<int>>, ghost exps: seq<nat>, power: E, expBitPosition: nat)
      returns (buckets': seq<seq<E>>, ghost coefs': seq<seq<int>>, notDone: bool)
    requires IsGroup(g) && AllCollecting(g, base, sliders, buckets, coefs, exps, expBitPosition, 0)
    requires power == Times(g, Pow2(expBitPosition), base)
    modifies sliders
    ensures AllCollecting(g, base, sliders, buckets', coefs', exps, expBitPosition + 1, 0)
    ensures notDone <==> exists i :: 0 <= i < |sliders| && !sliders[i].finished
  {
    hide Times, IsGroup, Collecting;
    buckets', coefs', notDone := buckets, coefs, false;
    for i := 0 to |sliders|
      invariant AllCollecting(g, base, sliders, buckets', coefs', exps, expBitPosition, i)
      invariant notDone <==> exists j :: 0 <= j < i && !sliders[j].finished
    {
      var s := sliders[i];
      if !s.finished && expBitPosition == s.windowBegin {
        var bucket;
        ghost var coef;
        bucket, coef := CollectWindow(g, base, s, buckets'[i], coefs'[i], power, expBitPosition);
        buckets', coefs' := buckets'[i := bucket], coefs'[i := coef];
      } else {
        NotYetDue(g, base, s, buckets'[i], coefs'[i], expBitPosition);
      }
      notDone := notDone || !s.finished;
    }
  }

  /** An upper bound on every window position. */
  ghost function MaxBitCount(exps: seq<nat>): (n: nat)
    ensures forall i :: 0 <= i < |exps| ==> BitCount(exps[i]) <= n
  {
    if |exps| == 0 then 0
    else
      var n := MaxBitCount(exps[..|exps| - 1]);
      var b := BitCount(exps[|exps| - 1]);
      if b > n then b else n
  }

  lemma {:induction false} Aligned<E>(g: Group<E>, base: E, sliders: seq<WindowSlider>, buckets: seq<seq<E>>,
      coefs: seq<seq<int>>, exps: seq<nat>, pos: nat)
    requires AllCollecting(g, base, sliders, buckets, coefs, exps, pos, 0)
    ensures |sliders| == |buckets| == |coefs| == |exps|
  {
  }

  /** A finished slider is indifferent to the position. */
  lemma {:induction false} FinishedAtNext<E>(g: Group<E>, base: E, sliders: seq<WindowSlider>, buckets: seq<seq<E>>,
      coefs: seq<seq<int>>, exps: seq<nat>, pos: nat)
    requires AllCollecting(g, base, sliders, buckets, coefs, exps, pos + 1, 0)
    requires forall i :: 0 <= i < |sliders| ==> sliders[i].finished
    ensures AllCollecting(g, base, sliders, buckets, coefs, exps, pos, 0)
  {
  }

  lemma {:induction false} PositionBounded<E>(g: Group<E>, base: E, sliders: seq<WindowSlider>, buckets: seq<seq<E>>,
      coefs: seq<seq<int>>, exps: seq<nat>, pos: nat)
    requires AllCollecting(g, base, sliders, buckets, coefs, exps, pos, 0)
    requires exists i :: 0 <= i < |sliders| && !sliders[i].finished
    ensures pos <= MaxBitCount(exps)
  {
  }

  /** Once every slider is finished, the buckets hold the exponents. */
  lemma {:induction false} AllCollected<E>(g: Group<E>, base: E, sliders: seq<WindowSlider>, buckets: seq<seq<E>>,
      coefs: seq<seq<int>>, exps: seq<nat>, pos: nat, i: nat)
    requires AllCollecting(g, base, sliders, buckets, coefs, exps, pos, 0)
    requires i < |exps| && sliders[i].finished
    ensures Holds(g, base, buckets[i], coefs[i]) && Weighted(coefs[i], 0) == exps[i] && |buckets[i]| > 0
  {
  }

  /** The main loop: doubles the base once per position until every slider is finished. */
  method CollectDigits<E(!new)>(g: Group<E>, base: E, sliders: seq<WindowSlider>, buckets: seq<seq<E>>,
      ghost coefs: seq<seq<int>>, ghost exps: seq<nat>)
      returns (buckets': seq<seq<E>>, ghost coefs': seq<seq<int>>)
    requires IsGroup(g) && AllCollecting(g, base, sliders, buckets, coefs, exps, 0, 0)
    modifies sliders
    ensures |buckets'| == |coefs'| == |exps|
    ensures forall i :: 0 <= i < |exps| ==>
              Holds(g, base, buckets'[i], coefs'[i]) && Weighted(coefs'[i], 0) == exps[i] && |buckets'[i]| > 0
  {
    hide Times, IsGroup, Weighted, Holds, Collecting, AllCollecting;
    buckets', coefs' := buckets, coefs;
    var expBitPosition, power, notDone := 0, base, true;
    TimesOne(g, base);
    assert |sliders| == |exps| by { Aligned(g, base, sliders, buckets, coefs, exps, 0); }
    while notDone
      invariant AllCollecting(g, base, sliders, buckets', coefs', exps, expBitPosition, 0)
      invariant power == Times(g, Pow2(expBitPosition), base)
      invariant notDone ==> expBitPosition <= MaxBitCount(exps)
      invariant !notDone ==> forall i :: 0 <= i < |sliders| ==> sliders[i].finished
      decreases MaxBitCount(exps) + 1 - expBitPosition, notDone
    {
      buckets', coefs', notDone := VisitSliders(g, base, sliders, buckets', coefs', exps, power, expBitPosition);
      if notDone {
        TimesDouble(g, Pow2(expBitPosition), base);
        power := g.Double(power);
        expBitPosition := expBitPosition + 1;
        PositionBounded(g, base, sliders, buckets', coefs', exps, expBitPosition);
      } else {
        FinishedAtNext(g, base, sliders, buckets', coefs', exps, expBitPosition);
      }
    }
    Aligned(g, base, sliders, buckets', coefs', exps, expBitPosition);
    forall i | 0 <= i < |exps|
      ensures Holds(g, base, buckets'[i], coefs'[i]) && Weighted(coefs'[i], 0) == exps[i] && |buckets'[i]| > 0
    {
      AllCollected(g, base, sliders, buckets', coefs', exps, expBitPosition, i);
    }
  }

  /** The final fold of one row of buckets: from the top down, partial sums of partial sums. */
  method FoldBuckets<E(!new)>(g: Group<E>, base: E, buckets: seq<E>, ghost coef: seq<int>) returns (r: E)
    requires IsGroup(g) && |buckets| > 0 && Holds(g, base, buckets, coef)
    ensures r == Times(g, Weighted(coef, 0), base)
  {
    hide Times, IsGroup, Weighted;
    var b, n := buckets, |buckets|;
    r := b[n - 1];
    assert Suffix(coef, n) == 0 == SuffixSum(coef, n);
    FoldIsWeighted(coef, 0);
    if n > 1 {
      var j := n - 2;
      while j >= 1
        invariant 0 <= j <= n - 2 && |b| == n
        invariant forall k :: 0 <= k <= j ==> b[k] == buckets[k]
        invariant b[j + 1] == Times(g, Suffix(coef, j + 1), base)
        invariant r == Times(g, SuffixSum(coef, j + 1), base)
      {
        TimesAdd(g, coef[j], Suffix(coef, j + 1), base);
        b := b[j := g.add(b[j], b[j + 1])];
        TimesAdd(g, SuffixSum(coef, j + 1), Suffix(coef, j), base);
        r := g.add(r, b[j]);
        j := j - 1;
      }
      TimesAdd(g, coef[0], Suffix(coef, 1), base);
      b := b[0 := g.add(b[0], b[1])];
      TimesDouble(g, SuffixSum(coef, 1), base);
      TimesAdd(g, 2 * SuffixSum(coef, 1), Suffix(coef, 0), base);
      r := g.add(g.Double(r), b[0]);
    }
  }

  /** Every result is its exponent times the base, in any group and for both settings of InversionIsFast. */
  method SimultaneousMultiply<E(!new)>(g: Group<E>, inversionIsFast: bool, results: array<E>, base: E, exps: seq<nat>)
    requires IsGroup(g) && |exps| <= results.Length
    modifies results
    ensures forall i :: 0 <= i < |exps| ==> results[i] == Times(g, exps[i], base)
    ensures forall i :: |exps| <= i < results.Length ==> results[i] == old(results[i])
  {
    hide Times, IsGroup, Weighted, Holds;
    var sliders, buckets;
    ghost var coefs;
    sliders, buckets, coefs := StartSliders(g, inversionIsFast, base, exps);
    buckets, coefs := CollectDigits(g, base, sliders, buckets, coefs, exps);
    for i := 0 to |exps|
      invariant forall k :: 0 <= k < i ==> results[k] == Times(g, exps[k], base)
      invariant forall k :: |exps| <= k < results.Length ==> results[k] == old(results[k])
    {
      var r := FoldBuckets(g, base, buckets[i], coefs[i]);
      results[i] := r;
    }
  }

  method ScalarMultiply<E(!new)>(g: Group<E>, inversionIsFast: bool, base: E, exponent: nat) returns (r: E)
    requires IsGroup(g)
    ensures r == Times(g, exponent, base)
  {
    var results := new E[1](_ => g.identity);
    SimultaneousMultiply(g, inversionIsFast, results, base, [exponent]);
    r := results[0];
  }
}
