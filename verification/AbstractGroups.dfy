/** Groups as Crypto++'s AbstractGroup presents them to its algorithms, and integer multiples of an element. */
module AbstractGroups {
  import opened Arithmetic

  /** The virtual operations of AbstractGroup<T>; element equality is `==`. */
  datatype Group<!E> = Group(identity: E, add: (E, E) -> E, inverse: E -> E) {
    function Double(a: E): E {
      add(a, a)
    }
  }

  /** The group laws at three elements. */
  ghost predicate Laws<E>(g: Group<E>, a: E, b: E, c: E) {
    && g.add(g.add(a, b), c) == g.add(a, g.add(b, c))
    && g.add(g.identity, a) == a == g.add(a, g.identity)
    && g.add(a, g.inverse(a)) == g.identity == g.add(g.inverse(a), a)
  }

  ghost predicate Commutes<E>(g: Group<E>, a: E, b: E) {
    g.add(a, b) == g.add(b, a)
  }

  ghost predicate IsGroup<E(!new)>(g: Group<E>) {
    forall a, b, c :: Laws(g, a, b, c)
  }

  ghost predicate IsAbelian<E(!new)>(g: Group<E>) {
    && IsGroup(g)
    && forall a, b :: Commutes(g, a, b)
  }

  /** n added to itself: the element "n times x" for any integer n. */
  ghost function Times<E>(g: Group<E>, n: int, x: E): E
    decreases if n < 0 then 1 - n else n
  {
    if n == 0 then g.identity
    else if n > 0 then g.add(Times(g, n - 1, x), x)
    else g.add(Times(g, n + 1, x), g.inverse(x))
  }

  lemma {:induction false} TimesSucc<E(!new)>(g: Group<E>, n: int, x: E)
    requires IsGroup(g)
    ensures Times(g, n + 1, x) == g.add(Times(g, n, x), x)
    ensures Times(g, n - 1, x) == g.add(Times(g, n, x), g.inverse(x))
  {
    assert Laws(g, x, x, x);
    if n < 0 {
      var t := Times(g, n + 1, x);
      assert Laws(g, t, g.inverse(x), x);
    } else if n > 0 {
      var t := Times(g, n - 1, x);
      assert Laws(g, t, x, g.inverse(x));
    }
  }

  lemma {:induction false} TimesAdd<E(!new)>(g: Group<E>, m: int, n: int, x: E)
    requires IsGroup(g)
    ensures Times(g, m + n, x) == g.add(Times(g, m, x), Times(g, n, x))
    decreases if n < 0 then -n else n
  {
    var t := Times(g, m, x);
    assert Laws(g, t, x, x);
    if n > 0 {
      TimesAdd(g, m, n - 1, x);
      TimesSucc(g, m + (n - 1), x);
      assert Laws(g, t, Times(g, n - 1, x), x);
    } else if n < 0 {
      TimesAdd(g, m, n + 1, x);
      TimesSucc(g, m + (n + 1), x);
      assert Laws(g, t, Times(g, n + 1, x), g.inverse(x));
    }
  }

  lemma {:induction false} TimesOne<E(!new)>(g: Group<E>, x: E)
    requires IsGroup(g)
    ensures Times(g, 1, x) == x
  {
    TimesSucc(g, 0, x);
    assert Laws(g, x, x, x);
  }

  lemma {:induction false} TimesDouble<E(!new)>(g: Group<E>, n: int, x: E)
    requires IsGroup(g)
    ensures g.Double(Times(g, n, x)) == Times(g, 2 * n, x)
  {
    TimesAdd(g, n, n, x);
  }

  lemma {:induction false} TimesNegate<E(!new)>(g: Group<E>, n: int, x: E)
    requires IsGroup(g)
    ensures g.inverse(Times(g, n, x)) == Times(g, -n, x)
  {
    var t, u := Times(g, n, x), Times(g, -n, x);
    TimesAdd(g, n, -n, x);
    assert g.add(t, u) == g.identity;
    assert Laws(g, t, u, u) && Laws(g, g.inverse(t), t, u) && Laws(g, u, u, u);
  }

  lemma {:induction false} TimesTimes<E(!new)>(g: Group<E>, m: int, n: int, x: E)
    requires IsGroup(g)
    ensures Times(g, m, Times(g, n, x)) == Times(g, m * n, x)
    decreases if m < 0 then -m else m
  {
    if m > 0 {
      TimesTimes(g, m - 1, n, x);
      TimesAdd(g, (m - 1) * n, n, x);
      assert (m - 1) * n + n == m * n;
    } else if m < 0 {
      TimesTimes(g, m + 1, n, x);
      TimesNegate(g, n, x);
      TimesAdd(g, (m + 1) * n, -n, x);
      assert (m + 1) * n - n == m * n;
    }
  }

  /** (a+b)+(c+d) rearranged, for a commutative addition. */
  lemma {:induction false} Interchange<E(!new)>(g: Group<E>, a: E, b: E, c: E, d: E)
    requires IsAbelian(g)
    ensures g.add(g.add(a, b), g.add(c, d)) == g.add(g.add(a, c), g.add(b, d))
  {
    assert Laws(g, a, b, g.add(c, d)) && Laws(g, b, c, d);
    assert Commutes(g, b, c);
    assert Laws(g, c, b, d) && Laws(g, a, c, g.add(b, d));
  }

  lemma {:induction false} TimesOfSum<E(!new)>(g: Group<E>, n: nat, x: E, y: E)
    requires IsAbelian(g)
    ensures Times(g, n, g.add(x, y)) == g.add(Times(g, n, x), Times(g, n, y))
  {
    assert Laws(g, g.identity, x, y);
    if n > 0 {
      TimesOfSum(g, n - 1, x, y);
      Interchange(g, Times(g, n - 1, x), Times(g, n - 1, y), x, y);
    }
  }

  /** a*x + b*y, the value a cascade multiplication computes. */
  ghost function Linear<E>(g: Group<E>, a: int, x: E, b: int, y: E): E {
    g.add(Times(g, a, x), Times(g, b, y))
  }

  lemma {:induction false} LinearAdd<E(!new)>(g: Group<E>, a: int, b: int, c: int, d: int, x: E, y: E)
    requires IsAbelian(g)
    ensures g.add(Linear(g, a, x, b, y), Linear(g, c, x, d, y)) == Linear(g, a + c, x, b + d, y)
  {
    Interchange(g, Times(g, a, x), Times(g, b, y), Times(g, c, x), Times(g, d, y));
    TimesAdd(g, a, c, x);
    TimesAdd(g, b, d, y);
  }
}
