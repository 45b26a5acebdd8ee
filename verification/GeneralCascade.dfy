/** GeneralCascadeMultiplication: a sum of many multiples, reduced through a heap of exponents (algebra.cpp). */
module GeneralCascade {
  import opened Arithmetic
  import opened AbstractGroups
  import CascadeMultiplication
  import SimultaneousMultiplication

  datatype BaseAndExponent<E> = BaseAndExponent(base: E, exponent: nat)

  // ---- the heap operations of the C++ standard library, ordered by exponent ----

  /** Element k is not above its parent. */
  ghost predicate Ordered<E>(s: seq<BaseAndExponent<E>>, k: int)
    requires 0 < k < |s|
  {
    s[(k - 1) / 2].exponent >= s[k].exponent
  }

  ghost predicate IsHeap<E>(s: seq<BaseAndExponent<E>>, n: nat)
    requires n <= |s|
  {
    forall k :: 0 < k < n ==> Ordered(s, k)
  }

  ghost predicate IsLargest<E>(s: seq<BaseAndExponent<E>>, n: nat, k: nat)
    requires n <= |s| && k < |s|
  {
    forall i :: 0 <= i < n ==> s[i].exponent <= s[k].exponent
  }

  lemma {:induction false} RootIsLargest<E>(s: seq<BaseAndExponent<E>>, n: nat, k: nat)
    requires n <= |s| && IsHeap(s, n) && k < n
    ensures s[k].exponent <= s[0].exponent
  {
    if k > 0 {
      assert Ordered(s, k);
      RootIsLargest(s, n, (k - 1) / 2);
    }
  }

  function Swapped<E>(s: seq<BaseAndExponent<E>>, i: nat, j: nat): seq<BaseAndExponent<E>>
    requires i < |s| && j < |s|
  {
    s[i := s[j]][j := s[i]]
  }

  method Swap<E>(a: array<BaseAndExponent<E>>, i: nat, j: nat)
    requires i < a.Length && j < a.Length
    modifies a
    ensures a[..] == Swapped(old(a[..]), i, j)
    ensures multiset(a[..]) == old(multiset(a[..]))
  {
    a[i], a[j] := a[j], a[i];
  }

  /** A heap but for element i, which may be above its parent. */
  ghost predicate HeapButRising<E>(s: seq<BaseAndExponent<E>>, n: nat, i: nat)
    requires n <= |s|
  {
    && i < n
    && (forall k :: 0 < k < n && k != i ==> Ordered(s, k))
    && (forall k :: 0 < k < n && i > 0 && (k - 1) / 2 == i ==> s[(i - 1) / 2].exponent >= s[k].exponent)
  }

  lemma {:induction false} RiseStep<E>(s: seq<BaseAndExponent<E>>, n: nat, i: nat)
    requires n <= |s| && HeapButRising(s, n, i) && i > 0 && !Ordered(s, i)
    ensures HeapButRising(Swapped(s, i, (i - 1) / 2), n, (i - 1) / 2)
  {
    var p := (i - 1) / 2;
    var t := Swapped(s, i, p);
    forall k | 0 < k < n && k != p ensures Ordered(t, k) {
      if k != i { assert Ordered(s, k); }
    }
    forall k | 0 < k < n && p > 0 && (k - 1) / 2 == p ensures t[(p - 1) / 2].exponent >= t[k].exponent {
      assert Ordered(s, p);
      if k != i { assert Ordered(s, k); }
    }
  }

  /** Moves element n-1 up into the heap before it. */
  method SiftUp<E>(a: array<BaseAndExponent<E>>, n: nat)
    requires 0 < n <= a.Length && IsHeap(a[..], n - 1)
    modifies a
    ensures IsHeap(a[..], n)
    ensures multiset(a[..]) == old(multiset(a[..]))
  {
    hide Ordered, Swapped;
    var i := n - 1;
    while i > 0 && a[(i - 1) / 2].exponent < a[i].exponent
      invariant 0 <= i < n && HeapButRising(a[..], n, i)
      invariant multiset(a[..]) == old(multiset(a[..]))
    {
      OrderedMeans(a[..], i);
      RiseStep(a[..], n, i);
      Swap(a, i, (i - 1) / 2);
      i := (i - 1) / 2;
    }
    if i > 0 { OrderedMeans(a[..], i); }
  }

  lemma {:induction false} OrderedMeans<E>(s: seq<BaseAndExponent<E>>, k: int)
    requires 0 < k < |s|
    ensures Ordered(s, k) <==> s[(k - 1) / 2].exponent >= s[k].exponent
  {
  }

  /** A heap but for element i, which may be below its children. */
  ghost predicate HeapButSinking<E>(s: seq<BaseAndExponent<E>>, n: nat, i: nat)
    requires n <= |s|
  {
    && (forall k :: 0 < k < n && (k - 1) / 2 != i ==> Ordered(s, k))
    && (forall k :: 0 < k < n && 0 < i < n && (k - 1) / 2 == i ==> s[(i - 1) / 2].exponent >= s[k].exponent)
  }

  lemma {:induction false} SinkStep<E>(s: seq<BaseAndExponent<E>>, n: nat, i: nat, c: nat)
    requires n <= |s| && HeapButSinking(s, n, i) && i < n && (c == 2 * i + 1 || c == 2 * i + 2) && c < n
    requires forall k :: 0 < k < n && (k - 1) / 2 == i ==> s[k].exponent <= s[c].exponent
    requires s[i].exponent < s[c].exponent
    ensures HeapButSinking(Swapped(s, i, c), n, c)
  {
    var t := Swapped(s, i, c);
    forall k | 0 < k < n && (k - 1) / 2 != c ensures Ordered(t, k) {
      if (k - 1) / 2 != i { assert Ordered(s, k); }
    }
    forall k | 0 < k < n && (k - 1) / 2 == c ensures t[(c - 1) / 2].exponent >= t[k].exponent {
      assert Ordered(s, k);
    }
  }

  /** Moves element 0 down through the heaps below it. */
  method SiftDown<E>(a: array<BaseAndExponent<E>>, n: nat)
    requires n <= a.Length && HeapButSinking(a[..], n, 0)
    modifies a
    ensures IsHeap(a[..], n)
    ensures multiset(a[..]) == old(multiset(a[..]))
    ensures a[n..] == old(a[n..])
  {
    hide Ordered;
    var i := 0;
    while 2 * i + 1 < n
      invariant i >= 0 && HeapButSinking(a[..], n, i)
      invariant multiset(a[..]) == old(multiset(a[..]))
      invariant a[n..] == old(a[n..])
      decreases n - i
    {
      var c := 2 * i + 1;
      if c + 1 < n && a[c].exponent < a[c + 1].exponent {
        c := c + 1;
      }
      if a[i].exponent >= a[c].exponent {
        Settled(a[..], n, i, c);
        return;
      }
      SinkStep(a[..], n, i, c);
      Swap(a, i, c);
      i := c;
    }
  }

  lemma {:induction false} Settled<E>(s: seq<BaseAndExponent<E>>, n: nat, i: nat, c: nat)
    requires n <= |s| && HeapButSinking(s, n, i) && i < n && c < n
    requires forall k :: 0 < k < n && (k - 1) / 2 == i ==> s[k].exponent <= s[c].exponent
    requires s[i].exponent >= s[c].exponent
    ensures IsHeap(s, n)
  {
  }

  method MakeHeap<E>(a: array<BaseAndExponent<E>>)
    modifies a
    ensures IsHeap(a[..], a.Length)
    ensures multiset(a[..]) == old(multiset(a[..]))
  {
    var n := 0;
    while n < a.Length
      invariant n <= a.Length && IsHeap(a[..], n)
      invariant multiset(a[..]) == old(multiset(a[..]))
    {
      n := n + 1;
      SiftUp(a, n);
    }
  }

  method PushHeap<E>(a: array<BaseAndExponent<E>>)
    requires a.Length > 0 && IsHeap(a[..], a.Length - 1)
    modifies a
    ensures IsHeap(a[..], a.Length)
    ensures multiset(a[..]) == old(multiset(a[..]))
  {
    SiftUp(a, a.Length);
  }

  /** The largest element goes to the end, the rest is a heap again. */
  method PopHeap<E>(a: array<BaseAndExponent<E>>)
    requires a.Length > 0 && IsHeap(a[..], a.Length)
    modifies a
    ensures IsHeap(a[..], a.Length - 1) && IsLargest(a[..], a.Length, a.Length - 1)
    ensures multiset(a[..]) == old(multiset(a[..]))
  {
    ghost var before := a[..];
    forall k | 0 <= k < a.Length ensures before[k].exponent <= before[0].exponent {
      RootIsLargest(before, a.Length, k);
    }
    Swap(a, 0, a.Length - 1);
    ghost var swapped := a[..];
    forall k | 0 < k < a.Length - 1 && (k - 1) / 2 != 0 ensures Ordered(swapped, k) {
      assert Ordered(before, k);
    }
    SiftDown(a, a.Length - 1);
    assert a[a.Length - 1] == a[a.Length - 1..][0] == before[0];
    forall k | 0 <= k < a.Length ensures a[k].exponent <= a[a.Length - 1].exponent {
      assert a[..][k] in multiset(a[..]);
      assert a[..][k] in before;
    }
  }

  // ---- the conserved sum and the termination measure ----

  ghost function Term<E>(g: Group<E>, p: BaseAndExponent<E>): E {
    Times(g, p.exponent, p.base)
  }

  /** Sum of exponent*base over all pairs. */
  ghost function Total<E>(g: Group<E>, s: seq<BaseAndExponent<E>>): E {
    if |s| == 0 then g.identity else g.add(Term(g, s[0]), Total(g, s[1..]))
  }

  ghost function ExponentSum<E>(s: seq<BaseAndExponent<E>>): nat {
    if |s| == 0 then 0 else s[0].exponent + ExponentSum(s[1..])
  }

  ghost function Without<E>(s: seq<E>, k: nat): seq<E>
    requires k < |s|
  {
    s[..k] + s[k + 1..]
  }

  /** Any pair can be taken out of the sums. */
  lemma {:induction false} TakeOut<E(!new)>(g: Group<E>, s: seq<BaseAndExponent<E>>, k: nat)
    requires IsAbelian(g) && k < |s|
    ensures Total(g, s) == g.add(Term(g, s[k]), Total(g, Without(s, k)))
    ensures ExponentSum(s) == s[k].exponent + ExponentSum(Without(s, k))
  {
    hide Term, IsAbelian, IsGroup;
    if k == 0 {
      assert Without(s, 0) == s[1..];
    } else {
      var rest := s[1..];
      TakeOut(g, rest, k - 1);
      assert Without(s, k)[1..] == Without(rest, k - 1);
      AddLeftCommutes(g, Term(g, s[0]), Term(g, s[k]), Total(g, Without(rest, k - 1)));
    }
  }

  lemma {:induction false} AddLeftCommutes<E(!new)>(g: Group<E>, a: E, b: E, c: E)
    requires IsAbelian(g)
    ensures g.add(a, g.add(b, c)) == g.add(b, g.add(a, c))
  {
    assert Laws(g, a, b, c) && Laws(g, b, a, c) && Commutes(g, a, b);
  }

  /** The sums do not depend on the order the heap leaves the pairs in. */
  lemma {:induction false} TotalOfPermutation<E(!new)>(g: Group<E>, s: seq<BaseAndExponent<E>>,
      t: seq<BaseAndExponent<E>>)
    requires IsAbelian(g) && multiset(s) == multiset(t)
    ensures Total(g, s) == Total(g, t) && ExponentSum(s) == ExponentSum(t)
  {
    hide Term, IsGroup, Without;
    if |s| == 0 {
      assert |multiset(t)| == |t|;
    } else {
      var k := Match(s, t);
      TotalOfPermutation(g, s[1..], Without(t, k));
      TakeOut(g, t, k);
    }
  }

  /** The first pair of s is somewhere in a permutation t, and the rest is a permutation of the rest. */
  lemma {:induction false} Match<T>(s: seq<T>, t: seq<T>) returns (k: nat)
    requires |s| > 0 && multiset(s) == multiset(t)
    ensures k < |t| && t[k] == s[0] && multiset(s[1..]) == multiset(Without(t, k))
  {
    assert s[0] in multiset(t);
    k :| 0 <= k < |t| && t[k] == s[0];
    MultisetWithout(s, 0);
    MultisetWithout(t, k);
    assert Without(s, 0) == s[1..];
    assert multiset(s[1..]) == multiset(s) - multiset{s[0]};
  }

  lemma {:induction false} MultisetWithout<T>(s: seq<T>, k: nat)
    requires k < |s|
    ensures multiset(Without(s, k)) == multiset(s) - multiset{s[k]}
  {
    assert s == s[..k] + ([s[k]] + s[k + 1..]);
    assert multiset(s) == multiset(s[..k]) + (multiset{s[k]} + multiset(s[k + 1..]));
  }

  lemma {:induction false} TotalOfUpdate<E(!new)>(g: Group<E>, s: seq<BaseAndExponent<E>>, p: BaseAndExponent<E>,
      l: BaseAndExponent<E>)
    requires IsAbelian(g) && |s| >= 2
    requires g.add(Term(g, p), Term(g, l)) == g.add(Term(g, s[0]), Term(g, s[|s| - 1]))
    ensures Total(g, s[0 := p][|s| - 1 := l]) == Total(g, s)
    ensures ExponentSum(s[0 := p][|s| - 1 := l]) == ExponentSum(s) - s[0].exponent - s[|s| - 1].exponent + p.exponent + l.exponent
  {
    hide Term, IsAbelian, IsGroup, Total, ExponentSum;
    var t, last, middle := s[0 := p][|s| - 1 := l], |s| - 1, s[1..|s| - 1];
    assert Without(Without(s, last), 0) == middle == Without(Without(t, last), 0);
    TakeOut(g, s, last);
    TakeOut(g, Without(s, last), 0);
    TakeOut(g, t, last);
    TakeOut(g, Without(t, last), 0);
    RegroupThree(g, Term(g, s[last]), Term(g, s[0]), Total(g, middle));
    RegroupThree(g, Term(g, l), Term(g, p), Total(g, middle));
  }

  lemma {:induction false} RegroupThree<E(!new)>(g: Group<E>, a: E, b: E, c: E)
    requires IsAbelian(g)
    ensures g.add(a, g.add(b, c)) == g.add(g.add(b, a), c)
  {
    assert Laws(g, b, a, c) && Laws(g, a, b, c) && Commutes(g, a, b);
  }

  /** b*(B + q*L) + t*L is b*B + (q*b + t)*L: one division step conserves the two terms it touches. */
  lemma {:induction false} DivisionConserves<E(!new)>(g: Group<E>, first: BaseAndExponent<E>,
      last: BaseAndExponent<E>, q: nat, t: nat)
    requires IsAbelian(g) && last.exponent == q * first.exponent + t
    ensures g.add(Times(g, first.exponent, g.add(first.base, Times(g, q, last.base))), Times(g, t, last.base))
         == g.add(Term(g, first), Term(g, last))
  {
    hide IsGroup, Times;
    var b, x, y := first.exponent, first.base, last.base;
    TimesOfSum(g, b, x, Times(g, q, y));
    TimesTimes(g, b, q, y);
    TimesAdd(g, b * q, t, y);
    Reassociate(g, Times(g, b, x), Times(g, b * q, y), Times(g, t, y));
  }

  lemma {:induction false} Reassociate<E(!new)>(g: Group<E>, a: E, b: E, c: E)
    requires IsGroup(g)
    ensures g.add(g.add(a, b), c) == g.add(a, g.add(b, c))
  {
    assert Laws(g, a, b, c);
  }

  /** When the largest exponents but the last are zero, only the last term remains. */
  lemma {:induction false} OnlyLastRemains<E(!new)>(g: Group<E>, s: seq<BaseAndExponent<E>>)
    requires IsAbelian(g) && |s| > 0
    requires forall i :: 0 <= i < |s| - 1 ==> s[i].exponent == 0
    ensures Total(g, s) == Term(g, s[|s| - 1])
  {
    assert Laws(g, Total(g, s[1..]), g.identity, g.identity) && Laws(g, Term(g, s[|s| - 1]), g.identity, g.identity);
    if |s| > 1 {
      OnlyLastRemains(g, s[1..]);
    }
  }

  /** Division of the largest exponent by the next largest, and the matching update of the bases. */
  method ReduceLargest<E(!new)>(g: Group<E>, inversionIsFast: bool, a: array<BaseAndExponent<E>>)
    requires IsAbelian(g) && a.Length >= 3
    requires a[0].exponent > 0 && a[0].exponent <= a[a.Length - 1].exponent
    requires IsHeap(a[..], a.Length - 1)
    modifies a
    ensures IsHeap(a[..], a.Length - 1)
    ensures Total(g, a[..]) == old(Total(g, a[..]))
    ensures ExponentSum(a[..]) < old(ExponentSum(a[..]))
  {
    hide IsGroup, Times, Total, ExponentSum;
    var last := a.Length - 1;
    ghost var before, first0, last0 := a[..], a[0], a[last];
    var t := a[last].exponent;
    var q, r := t / a[0].exponent, t % a[0].exponent;
    QuotientPositive(t, a[0].exponent);
    a[last] := a[last].(exponent := r);
    if q == 1 {
      TimesOneOf(g, a[last].base);
      a[0] := a[0].(base := g.add(a[0].base, a[last].base));
    } else {
      var m := SimultaneousMultiplication.ScalarMultiply(g, inversionIsFast, a[last].base, q);
      a[0] := a[0].(base := g.add(a[0].base, m));
    }
    DivisionConserves(g, first0, last0, q, r);
    assert a[..] == before[0 := a[0]][last := a[last]];
    TotalOfUpdate(g, before, a[0], a[last]);
    forall k | 0 < k < last ensures Ordered(a[..], k) {
      assert Ordered(before, k);
    }
  }

  lemma {:induction false} QuotientPositive(t: nat, d: nat)
    requires 0 < d <= t
    ensures t == (t / d) * d + t % d && 0 <= t % d < d && t / d >= 0
  {
  }

  lemma {:induction false} TimesOneOf<E(!new)>(g: Group<E>, x: E)
    requires IsAbelian(g)
    ensures Times(g, 1, x) == x
  {
    TimesOne(g, x);
  }

  /** The sum of all exponent*base over the given pairs, in any commutative group. */
  method GeneralCascadeMultiplication<E(!new)>(g: Group<E>, inversionIsFast: bool,
      a: array<BaseAndExponent<E>>) returns (result: E)
    requires IsAbelian(g) && a.Length > 0
    modifies a
    ensures result == old(Total(g, a[..]))
  {
    hide IsGroup, Times, IsHeap, ExponentSum;
    if a.Length == 1 {
      OnlyLastRemains(g, a[..]);
      result := SimultaneousMultiplication.ScalarMultiply(g, inversionIsFast, a[0].base, a[0].exponent);
    } else if a.Length == 2 {
      TwoTerms(g, a[..]);
      result := CascadeMultiplication.CascadeScalarMultiply(g, a[0].base, a[0].exponent, a[1].base, a[1].exponent);
    } else {
      result := HeapReduction(g, inversionIsFast, a);
    }
  }

  lemma {:induction false} TwoTerms<E(!new)>(g: Group<E>, s: seq<BaseAndExponent<E>>)
    requires IsAbelian(g) && |s| == 2
    ensures Total(g, s) == Linear(g, s[0].exponent, s[0].base, s[1].exponent, s[1].base)
  {
    assert Laws(g, Term(g, s[1]), g.identity, g.identity);
    assert Total(g, s[1..]) == Term(g, s[1]);
  }

  /** The branch for three and more pairs. */
  method HeapReduction<E(!new)>(g: Group<E>, inversionIsFast: bool, a: array<BaseAndExponent<E>>) returns (result: E)
    requires IsAbelian(g) && a.Length >= 3
    modifies a
    ensures result == old(Total(g, a[..]))
  {
    hide IsGroup, Times, IsHeap, Total, ExponentSum, Term;
    ghost var start := a[..];
    var last := a.Length - 1;
    MakeHeap(a);
    PopHeap(a);
    TotalOfPermutation(g, start, a[..]);
    while a[0].exponent != 0
      invariant IsHeap(a[..], last) && IsLargest(a[..], a.Length, last)
      invariant Total(g, a[..]) == Total(g, start)
      decreases ExponentSum(a[..])
    {
      ReduceLargest(g, inversionIsFast, a);
      ghost var reduced := a[..];
      PushHeap(a);
      PopHeap(a);
      TotalOfPermutation(g, reduced, a[..]);
    }
    forall i | 0 <= i < last ensures a[..][i].exponent == 0 {
      RootIsLargest(a[..], last, i);
    }
    OnlyLastRemains(g, a[..]);
    TermIs(g, a[last]);
    result := SimultaneousMultiplication.ScalarMultiply(g, inversionIsFast, a[last].base, a[last].exponent);
  }

  lemma {:induction false} TermIs<E>(g: Group<E>, p: BaseAndExponent<E>)
    ensures Term(g, p) == Times(g, p.exponent, p.base)
  {
  }
}
