/** AbstractGroup::CascadeScalarMultiply: e1*x + e2*y by interleaved windows over a sparse table (algebra.cpp). */
module CascadeMultiplication {
  import opened Arithmetic
  import opened AbstractGroups

  /** (power2 << w) + power1, the table position of power1*x + power2*y. */
  function Index(w: nat, power1: nat, power2: nat): int {
    Shl(power2, w) + power1
  }

  ghost predicate Entry<E>(g: Group<E>, x: E, y: E, table: seq<E>, w: nat, power1: nat, power2: nat) {
    && 0 <= Index(w, power1, power2) < |table|
    && table[Index(w, power1, power2)] == Linear(g, power1, x, power2, y)
  }

  /** The entries that exist: those where at least one power is odd. */
  ghost predicate TableFilled<E>(g: Group<E>, x: E, y: E, table: seq<E>, w: nat) {
    forall power1: nat, power2: nat ::
      power1 < Pow2(w) && power2 < Pow2(w) && (power1 % 2 == 1 || power2 % 2 == 1) ==>
      Entry(g, x, y, table, w, power1, power2)
  }

  lemma {:induction false} IndexInRange(w: nat, power1: nat, power2: nat)
    requires power1 < Pow2(w) && power2 < Pow2(w)
    ensures 0 <= Index(w, power1, power2) < Pow2(w + w)
    ensures Shr(Index(w, power1, power2), w) == power2
  {
    ShlGrows(power2, w);
    ShlMonotone(power2 + 1, Pow2(w), w);
    ShlAdd(power2, 1, w);
    ShlOne(w);
    ShlShl(1, w, w);
    ShlOne(w + w);
    ShrOfSum(power2, power1, w);
    ShrSmall(power1, w);
  }

  /** Every correct entry is still correct. */
  ghost predicate Keeps<E(!new)>(g: Group<E>, x: E, y: E, table: seq<E>, t: seq<E>, w: nat) {
    forall a: nat, b: nat :: a < Pow2(w) && b < Pow2(w) && Entry(g, x, y, table, w, a, b) ==> Entry(g, x, y, t, w, a, b)
  }

  lemma {:induction false} KeepsEntry<E(!new)>(g: Group<E>, x: E, y: E, table: seq<E>, t: seq<E>, w: nat, a: nat, b: nat)
    requires Keeps(g, x, y, table, t, w) && a < Pow2(w) && b < Pow2(w) && Entry(g, x, y, table, w, a, b)
    ensures Entry(g, x, y, t, w, a, b)
  {
  }

  /** Filling one entry correctly keeps every correct entry. */
  lemma {:induction false} Stored<E(!new)>(g: Group<E>, x: E, y: E, table: seq<E>, t: seq<E>, w: nat, power1: nat,
      power2: nat, j: nat)
    requires |table| == Pow2(w + w) && power1 < Pow2(w) && power2 < Pow2(w)
    requires j == Index(w, power1, power2) < |table| == |t|
    requires t == table[j := t[j]] && t[j] == Linear(g, power1, x, power2, y)
    ensures Entry(g, x, y, t, w, power1, power2)
    ensures Keeps(g, x, y, table, t, w)
  {
    hide Shl, Shr, Pow2, Linear;
    IndexInRange(w, power1, power2);
    forall a: nat, b: nat | a < Pow2(w) && b < Pow2(w) && Entry(g, x, y, table, w, a, b)
      ensures Entry(g, x, y, t, w, a, b)
    {
      IndexInRange(w, a, b);
    }
  }

  /** table[j] = Add(left, right). */
  method StoreSum<E(!new)>(g: Group<E>, x: E, y: E, table: seq<E>, w: nat, j: nat, left: E, right: E,
      ghost a: nat, ghost b: nat, ghost c: nat, ghost d: nat) returns (t: seq<E>)
    requires IsAbelian(g) && |table| == Pow2(w + w)
    requires left == Linear(g, a, x, b, y) && right == Linear(g, c, x, d, y)
    requires a + c < Pow2(w) && b + d < Pow2(w) && j == Index(w, a + c, b + d)
    ensures |t| == |table| && Entry(g, x, y, t, w, a + c, b + d) && Keeps(g, x, y, table, t, w)
  {
    hide Shl, Linear, IsGroup, IsAbelian, Entry, Index, Pow2, Keeps;
    LinearAdd(g, a, b, c, d, x, y);
    IndexInRange(w, a + c, b + d);
    t := table[j := g.add(left, right)];
    Stored(g, x, y, table, t, w, a + c, b + d, j);
  }

  lemma {:induction false} Read<E>(g: Group<E>, x: E, y: E, table: seq<E>, w: nat, power1: nat, power2: nat)
    requires Entry(g, x, y, table, w, power1, power2)
    ensures 0 <= Index(w, power1, power2) < |table|
    ensures table[Index(w, power1, power2)] == Linear(g, power1, x, power2, y)
  {
  }

  lemma {:induction false} LinearUnits<E(!new)>(g: Group<E>, x: E, y: E)
    requires IsAbelian(g)
    ensures Linear(g, 1, x, 0, y) == x && Linear(g, 0, x, 1, y) == y
    ensures g.Double(x) == Linear(g, 2, x, 0, y) && g.Double(y) == Linear(g, 0, x, 2, y)
  {
    TimesOne(g, x);
    TimesOne(g, y);
    assert Laws(g, x, x, x) && Laws(g, y, y, y);
    LinearAdd(g, 1, 0, 1, 0, x, y);
    LinearAdd(g, 0, 1, 0, 1, x, y);
  }

  /** Index arithmetic the table loops use: one row up, two rows up, one column right. */
  lemma {:induction false} IndexSteps(w: nat, power1: nat, power2: nat)
    ensures Index(w, power1, power2 + 1) == Index(w, power1, power2) + Pow2(w)
    ensures Index(w, power1, power2 + 2) == Index(w, power1, power2) + Pow2(w) + Pow2(w)
    ensures Index(w, power1 + 1, power2) == Index(w, power1, power2) + 1
    ensures Index(w, power1 + 2, power2) == Index(w, power1, power2) + 2
    ensures Index(w, power1, 0) == power1
  {
    ShlOne(w);
    ShlAdd(power2, 1, w);
    ShlAdd(power2, 2, w);
    ShlAdd(1, 1, w);
  }

  lemma {:induction false} IndexColumn(w: nat, power1: nat, power2: nat)
    ensures Index(w, power1, power2) == Index(w, 0, power2) + power1
  {
  }

  ghost predicate OddRow<E>(g: Group<E>, x: E, y: E, t: seq<E>, w: nat, limit: nat) {
    forall a: nat :: a < limit && a < Pow2(w) && a % 2 == 1 ==> Entry(g, x, y, t, w, a, 0)
  }

  lemma {:induction false} NextInRow<E(!new)>(g: Group<E>, x: E, y: E, table: seq<E>, before: seq<E>, t: seq<E>, w: nat,
      i: nat)
    requires i % 2 == 1 && OddRow(g, x, y, before, w, i) && Keeps(g, x, y, table, before, w)
    requires Keeps(g, x, y, before, t, w) && Entry(g, x, y, t, w, i, 0)
    ensures OddRow(g, x, y, t, w, i + 2) && Keeps(g, x, y, table, t, w)
  {
  }

  lemma {:induction false} OddRowStart<E(!new)>(g: Group<E>, x: E, y: E, t: seq<E>, w: nat)
    requires Entry(g, x, y, t, w, 1, 0)
    ensures OddRow(g, x, y, t, w, 3) && Keeps(g, x, y, t, t, w)
  {
  }

  lemma {:induction false} IsInOddRow<E>(g: Group<E>, x: E, y: E, t: seq<E>, w: nat, limit: nat, a: nat)
    requires OddRow(g, x, y, t, w, limit) && a < limit && a < Pow2(w) && a % 2 == 1
    ensures Entry(g, x, y, t, w, a, 0)
  {
  }

  /** First row: odd multiples of x. */
  method FillFirstRow<E(!new)>(g: Group<E>, x: E, y: E, table: seq<E>, w: nat) returns (t: seq<E>)
    requires IsAbelian(g) && w >= 2 && |table| == Pow2(w + w)
    requires Entry(g, x, y, table, w, 1, 0) && Entry(g, x, y, table, w, 2, 0)
    ensures |t| == |table|
    ensures forall a: nat :: a < Pow2(w) && a % 2 == 1 ==> Entry(g, x, y, t, w, a, 0)
    ensures Keeps(g, x, y, table, t, w)
  {
    hide Shl, Linear, IsGroup, IsAbelian, Entry, Index, Keeps, OddRow;
    t := table;
    assert 2 < Pow2(w) by { Pow2Monotone(2, w); }
    var i := 3;
    OddRowStart(g, x, y, t, w);
    while i < Pow2(w)
      invariant |t| == |table| && i % 2 == 1 && i >= 3 && OddRow(g, x, y, t, w, i) && Keeps(g, x, y, table, t, w)
    {
      IsInOddRow(g, x, y, t, w, i, i - 2);
      KeepsEntry(g, x, y, table, t, w, 2, 0);
      IndexSteps(w, i - 2, 0); IndexSteps(w, i, 0); IndexSteps(w, 2, 0);
      Read(g, x, y, t, w, i - 2, 0); Read(g, x, y, t, w, 2, 0);
      ghost var before := t;
      t := StoreSum(g, x, y, t, w, i, t[i - 2], t[2], i - 2, 0, 2, 0);
      NextInRow(g, x, y, table, before, t, w, i);
      i := i + 2;
    }
    forall a: nat | a < Pow2(w) && a % 2 == 1 ensures Entry(g, x, y, t, w, a, 0) { IsInOddRow(g, x, y, t, w, i, a); }
  }

  /** One odd column, upwards by adding y. */
  method FillColumn<E(!new)>(g: Group<E>, x: E, y: E, table: seq<E>, w: nat, i: nat) returns (t: seq<E>)
    requires IsAbelian(g) && |table| == Pow2(w + w) && i < Pow2(w) && Entry(g, x, y, table, w, i, 0)
    requires Entry(g, x, y, table, w, 0, 1)
    ensures |t| == |table|
    ensures forall b: nat :: b < Pow2(w) ==> Entry(g, x, y, t, w, i, b)
    ensures Keeps(g, x, y, table, t, w)
  {
    hide Shl, Linear, IsGroup, IsAbelian, Entry, Index;
    t := table;
    var tableSize := Pow2(w);
    var j := i + tableSize;
    ghost var b := 1;
    IndexSteps(w, i, 0);
    while j < Pow2(w + w)
      invariant |t| == |table| && 1 <= b <= tableSize && j == Index(w, i, b)
      invariant forall k: nat :: k < b ==> Entry(g, x, y, t, w, i, k)
      invariant Keeps(g, x, y, table, t, w)
      decreases Pow2(w + w) - j
    {
      if b == tableSize { RowLimit(w, i); assert false; }
      IndexSteps(w, i, b - 1); IndexSteps(w, i, b);
      Read(g, x, y, t, w, i, b - 1);
      LinearUnits(g, x, y);
      t := StoreSum(g, x, y, t, w, j, t[j - tableSize], y, i, b - 1, 0, 1);
      j, b := j + tableSize, b + 1;
    }
    if b < tableSize { IndexInRange(w, i, b); assert false; }
  }

  lemma {:induction false} RowLimit(w: nat, i: nat)
    ensures Index(w, i, Pow2(w)) >= Pow2(w + w)
  {
    ShlOne(w);
    ShlShl(1, w, w);
    ShlOne(w + w);
  }

  ghost predicate OddColumns<E>(g: Group<E>, x: E, y: E, t: seq<E>, w: nat, limit: nat) {
    forall a: nat, b: nat :: a < limit && a < Pow2(w) && b < Pow2(w) && a % 2 == 1 ==> Entry(g, x, y, t, w, a, b)
  }

  lemma {:induction false} NextOddColumn<E(!new)>(g: Group<E>, x: E, y: E, table: seq<E>, before: seq<E>, t: seq<E>, w: nat,
      i: nat)
    requires i % 2 == 1 && OddColumns(g, x, y, before, w, i) && Keeps(g, x, y, table, before, w)
    requires Keeps(g, x, y, before, t, w) && forall b: nat :: b < Pow2(w) ==> Entry(g, x, y, t, w, i, b)
    ensures OddColumns(g, x, y, t, w, i + 2) && Keeps(g, x, y, table, t, w)
  {
  }

  lemma {:induction false} OddColumnsStart<E(!new)>(g: Group<E>, x: E, y: E, t: seq<E>, w: nat)
    ensures OddColumns(g, x, y, t, w, 1) && Keeps(g, x, y, t, t, w)
  {
  }

  method FillOddColumns<E(!new)>(g: Group<E>, x: E, y: E, table: seq<E>, w: nat) returns (t: seq<E>)
    requires IsAbelian(g) && w >= 1 && |table| == Pow2(w + w) && Entry(g, x, y, table, w, 0, 1)
    requires forall a: nat :: a < Pow2(w) && a % 2 == 1 ==> Entry(g, x, y, table, w, a, 0)
    ensures |t| == |table|
    ensures forall a: nat, b: nat :: a < Pow2(w) && b < Pow2(w) && a % 2 == 1 ==> Entry(g, x, y, t, w, a, b)
    ensures Keeps(g, x, y, table, t, w)
  {
    hide Shl, Linear, IsGroup, IsAbelian, Entry, Index, Keeps, OddColumns;
    t := table;
    var i := 1;
    OddColumnsStart(g, x, y, t, w);
    while i < Pow2(w)
      invariant |t| == |table| && i % 2 == 1 && OddColumns(g, x, y, t, w, i) && Keeps(g, x, y, table, t, w)
    {
      KeepsEntry(g, x, y, table, t, w, i, 0);
      KeepsEntry(g, x, y, table, t, w, 0, 1);
      ghost var before := t;
      t := FillColumn(g, x, y, t, w, i);
      NextOddColumn(g, x, y, table, before, t, w, i);
      i := i + 2;
    }
    forall a: nat, b: nat | a < Pow2(w) && b < Pow2(w) && a % 2 == 1 ensures Entry(g, x, y, t, w, a, b) {
      IsInOddColumn(g, x, y, t, w, i, a, b);
    }
  }

  lemma {:induction false} IsInOddColumn<E>(g: Group<E>, x: E, y: E, t: seq<E>, w: nat, limit: nat, a: nat, b: nat)
    requires OddColumns(g, x, y, t, w, limit) && a < limit && a < Pow2(w) && b < Pow2(w) && a % 2 == 1
    ensures Entry(g, x, y, t, w, a, b)
  {
  }

  ghost predicate OddMultiples<E>(g: Group<E>, x: E, y: E, t: seq<E>, w: nat, limit: nat) {
    forall b: nat :: b < limit && b < Pow2(w) && b % 2 == 1 ==> Entry(g, x, y, t, w, 0, b)
  }

  lemma {:induction false} NextOddMultiple<E(!new)>(g: Group<E>, x: E, y: E, table: seq<E>, before: seq<E>, t: seq<E>,
      w: nat,
      b: nat)
    requires b % 2 == 1 && OddMultiples(g, x, y, before, w, b) && Keeps(g, x, y, table, before, w)
    requires Keeps(g, x, y, before, t, w) && (b < Pow2(w) ==> Entry(g, x, y, t, w, 0, b))
    ensures OddMultiples(g, x, y, t, w, b + 2) && Keeps(g, x, y, table, t, w)
  {
  }

  lemma {:induction false} OddMultiplesStart<E(!new)>(g: Group<E>, x: E, y: E, t: seq<E>, w: nat)
    requires Entry(g, x, y, t, w, 0, 1)
    ensures OddMultiples(g, x, y, t, w, 3) && Keeps(g, x, y, t, t, w)
  {
  }

  lemma {:induction false} IsOddMultiple<E>(g: Group<E>, x: E, y: E, t: seq<E>, w: nat, limit: nat, b: nat)
    requires OddMultiples(g, x, y, t, w, limit) && b < limit && b < Pow2(w) && b % 2 == 1
    ensures Entry(g, x, y, t, w, 0, b)
  {
  }

  /** First column: odd multiples of y. */
  method FillFirstColumn<E(!new)>(g: Group<E>, x: E, y: E, table: seq<E>, w: nat) returns (t: seq<E>)
    requires IsAbelian(g) && w >= 2 && |table| == Pow2(w + w)
    requires Entry(g, x, y, table, w, 0, 1) && Entry(g, x, y, table, w, 0, 2)
    ensures |t| == |table|
    ensures forall b: nat :: b < Pow2(w) && b % 2 == 1 ==> Entry(g, x, y, t, w, 0, b)
    ensures Keeps(g, x, y, table, t, w)
  {
    hide Shl, Linear, IsGroup, IsAbelian, Entry, Index, Keeps, OddMultiples;
    t := table;
    assert 2 < Pow2(w) && Pow2(w) % 2 == 0 by { Pow2Monotone(2, w); }
    var tableSize := Pow2(w);
    var i := 3 * tableSize;
    ghost var b := 3;
    IndexSteps(w, 0, 0); IndexSteps(w, 0, 1);
    OddMultiplesStart(g, x, y, t, w);
    while i < Pow2(w + w)
      invariant |t| == |table| && 3 <= b <= tableSize + 1 && b % 2 == 1 && i == Index(w, 0, b)
      invariant OddMultiples(g, x, y, t, w, b) && Keeps(g, x, y, table, t, w)
      decreases Pow2(w + w) - i
    {
      if b > tableSize { RowLimit(w, 0); IndexSteps(w, 0, tableSize); assert false; }
      IsOddMultiple(g, x, y, t, w, b, b - 2);
      KeepsEntry(g, x, y, table, t, w, 0, 2);
      IndexSteps(w, 0, b - 2); IndexSteps(w, 0, b);
      Read(g, x, y, t, w, 0, b - 2); Read(g, x, y, t, w, 0, 2);
      ghost var before := t;
      t := StoreSum(g, x, y, t, w, i, t[i - 2 * tableSize], t[2 * tableSize], 0, b - 2, 0, 2);
      NextOddMultiple(g, x, y, table, before, t, w, b);
      i, b := i + 2 * tableSize, b + 2;
    }
    if b < tableSize { IndexInRange(w, 0, b); assert false; }
    forall k: nat | k < Pow2(w) && k % 2 == 1 ensures Entry(g, x, y, t, w, 0, k) { IsOddMultiple(g, x, y, t, w, b, k); }
  }

  /** The even columns of one odd row, each from the odd column to its left. */
  method FillRow<E(!new)>(g: Group<E>, x: E, y: E, table: seq<E>, w: nat, i: nat, ghost b: nat) returns (t: seq<E>)
    requires IsAbelian(g) && w >= 1 && |table| == Pow2(w + w) && b < Pow2(w) && i == Index(w, 0, b)
    requires forall a: nat :: a < Pow2(w) && (a == 0 || a % 2 == 1) ==> Entry(g, x, y, table, w, a, b)
    ensures |t| == |table|
    ensures forall a: nat :: a < Pow2(w) ==> Entry(g, x, y, t, w, a, b)
    ensures Keeps(g, x, y, table, t, w)
  {
    hide Shl, Linear, IsGroup, IsAbelian, Entry, Index;
    t := table;
    assert Pow2(w) % 2 == 0;
    var tableSize := Pow2(w);
    var j := i + 2;
    while j < i + tableSize
      invariant |t| == |table| && i + 2 <= j && (j - i) % 2 == 0
      invariant forall a: nat :: a < Pow2(w) && (a < j - i || a % 2 == 1) ==> Entry(g, x, y, t, w, a, b)
      invariant Keeps(g, x, y, table, t, w)
    {
      ghost var a := j - i;
      IndexColumn(w, a, b); IndexColumn(w, a - 1, b);
      Read(g, x, y, t, w, a - 1, b);
      LinearUnits(g, x, y);
      t := StoreSum(g, x, y, t, w, j, t[j - 1], x, a - 1, b, 1, 0);
      j := j + 2;
    }
  }

  method FillOddRows<E(!new)>(g: Group<E>, x: E, y: E, table: seq<E>, w: nat) returns (t: seq<E>)
    requires IsAbelian(g) && w >= 1 && |table| == Pow2(w + w)
    requires forall a: nat, b: nat :: a < Pow2(w) && b < Pow2(w) && a % 2 == 1 ==> Entry(g, x, y, table, w, a, b)
    requires forall b: nat :: b < Pow2(w) && b % 2 == 1 ==> Entry(g, x, y, table, w, 0, b)
    ensures TableFilled(g, x, y, t, w)
  {
    hide Shl, Linear, IsGroup, IsAbelian, Entry, Index;
    t := table;
    assert Pow2(w) % 2 == 0;
    var tableSize := Pow2(w);
    var i := tableSize;
    ghost var b := 1;
    IndexSteps(w, 0, 0);
    while i < Pow2(w + w)
      invariant |t| == |table| && 1 <= b <= tableSize + 1 && b % 2 == 1 && i == Index(w, 0, b)
      invariant forall a: nat, k: nat :: a < Pow2(w) && k < Pow2(w) && k % 2 == 1 && k < b ==> Entry(g, x, y, t, w, a, k)
      invariant Keeps(g, x, y, table, t, w)
      decreases Pow2(w + w) - i
    {
      if b > tableSize { RowLimit(w, 0); IndexSteps(w, 0, tableSize); assert false; }
      IndexSteps(w, 0, b);
      t := FillRow(g, x, y, t, w, i, b);
      i, b := i + 2 * tableSize, b + 2;
    }
    if b < tableSize { IndexInRange(w, 0, b); assert false; }
  }

  /** x and y themselves, and for wider windows their doubles. */
  method StartTable<E(!new)>(g: Group<E>, x: E, y: E, w: nat) returns (table: seq<E>)
    requires IsAbelian(g) && w >= 1
    ensures |table| == Pow2(w + w)
    ensures Entry(g, x, y, table, w, 1, 0) && Entry(g, x, y, table, w, 0, 1)
    ensures w >= 2 ==> Entry(g, x, y, table, w, 2, 0) && Entry(g, x, y, table, w, 0, 2)
  {
    hide Shl, Linear, IsGroup, IsAbelian, Entry, Index;
    var tableSize := Pow2(w);
    table := seq(Pow2(w + w), _ => g.identity);
    LinearUnits(g, x, y);
    IndexSteps(w, 1, 0); IndexSteps(w, 2, 0); IndexSteps(w, 0, 0);
    IndexInRange(w, 1, 0);
    ghost var noEntry := table;
    table := table[1 := x];
    Stored(g, x, y, noEntry, table, w, 1, 0, 1);
    IndexInRange(w, 0, 1);
    ghost var withX := table;
    table := table[tableSize := y];
    Stored(g, x, y, withX, table, w, 0, 1, tableSize);
    if w >= 2 {
      Pow2Monotone(2, w);
      IndexInRange(w, 2, 0);
      ghost var withBoth := table;
      table := table[2 := g.Double(x)];
      Stored(g, x, y, withBoth, table, w, 2, 0, 2);
      IndexInRange(w, 0, 2);
      ghost var withDoubleX := table;
      table := table[2 * tableSize := g.Double(y)];
      Stored(g, x, y, withDoubleX, table, w, 0, 2, 2 * tableSize);
    }
  }

  /** The power table for windows of w bits. */
  method BuildTable<E(!new)>(g: Group<E>, x: E, y: E, w: nat) returns (table: seq<E>)
    requires IsAbelian(g) && w >= 1
    ensures TableFilled(g, x, y, table, w)
  {
    hide Shl, Linear, IsGroup, IsAbelian, Entry, Index, TableFilled;
    table := StartTable(g, x, y, w);
    if w == 1 {
      LinearAdd(g, 1, 0, 0, 1, x, y);
      LinearUnits(g, x, y);
      IndexSteps(w, 1, 0);
      IndexInRange(w, 1, 1);
      ghost var singles := table;
      table := table[3 := g.add(x, y)];
      Stored(g, x, y, singles, table, w, 1, 1, 3);
      SmallTable(g, x, y, table);
    } else {
      Pow2Monotone(2, w);
      ghost var start := table;
      table := FillFirstRow(g, x, y, table, w);
      KeepsEntry(g, x, y, start, table, w, 0, 1);
      KeepsEntry(g, x, y, start, table, w, 0, 2);
      ghost var row := table;
      table := FillOddColumns(g, x, y, table, w);
      KeepsEntry(g, x, y, row, table, w, 0, 1);
      KeepsEntry(g, x, y, row, table, w, 0, 2);
      table := FillFirstColumn(g, x, y, table, w);
      table := FillOddRows(g, x, y, table, w);
    }
  }

  lemma {:induction false} SmallTable<E>(g: Group<E>, x: E, y: E, table: seq<E>)
    requires Entry(g, x, y, table, 1, 1, 0) && Entry(g, x, y, table, 1, 0, 1) && Entry(g, x, y, table, 1, 1, 1)
    ensures TableFilled(g, x, y, table, 1)
  {
  }

  // ---- the scan over the exponents ----

  function WindowBits(expLen: nat): (w: nat)
    ensures 1 <= w <= 3
  {
    if expLen <= 46 then 1 else if expLen <= 260 then 2 else 3
  }

  /** Strips the zeros common to both powers. The unsigned count of squarings never underflows. */
  method StripCommonZeros(power1: nat, power2: nat, squaresBefore: nat)
      returns (p1: nat, p2: nat, before: nat, after: nat)
    requires power1 < Pow2(squaresBefore + 1) && power2 < Pow2(squaresBefore + 1)
    ensures before + after == squaresBefore
    ensures power1 == Shl(p1, after) && power2 == Shl(p2, after)
    ensures p1 <= power1 && p2 <= power2
    ensures p1 % 2 == 1 || p2 % 2 == 1 || (p1 == 0 && p2 == 0)
    ensures (p1 == 0 && p2 == 0) <==> (power1 == 0 && power2 == 0)
  {
    p1, p2, before, after := power1, power2, squaresBefore, 0;
    while (p1 > 0 || p2 > 0) && p1 % 2 == 0 && p2 % 2 == 0
      invariant before + after == squaresBefore
      invariant power1 == Shl(p1, after) && power2 == Shl(p2, after)
      invariant p1 < Pow2(before + 1) && p2 < Pow2(before + 1)
      invariant p1 <= power1 && p2 <= power2
      invariant (p1 == 0 && p2 == 0) <==> (power1 == 0 && power2 == 0)
      decreases p1 + p2
    {
      HalveShifted(p1, after);
      HalveShifted(p2, after);
      p1, p2 := p1 / 2, p2 / 2;
      before := before - 1;
      after := after + 1;
    }
  }

  lemma {:induction false} HalveShifted(p: nat, k: nat)
    requires p % 2 == 0
    ensures Shl(p, k) == Shl(p / 2, k + 1)
  {
    ShlAdd(p / 2, p / 2, k);
  }

  /** `while (count--) result = Double(result)`. */
  method DoubleRepeatedly<E(!new)>(g: Group<E>, x: E, y: E, start: E, count: nat, ghost a: nat,
      ghost b: nat) returns (result: E)
    requires IsAbelian(g) && start == Linear(g, a, x, b, y)
    ensures result == Linear(g, Shl(a, count), x, Shl(b, count), y)
  {
    hide IsGroup, IsAbelian, Linear;
    result := start;
    var k := 0;
    while k < count
      invariant k <= count && result == Linear(g, Shl(a, k), x, Shl(b, k), y)
    {
      LinearAdd(g, Shl(a, k), Shl(b, k), Shl(a, k), Shl(b, k), x, y);
      result := g.Double(result);
      k := k + 1;
    }
  }

  /** One flush of the window (power1, power2) into the result. */
  method Flush<E(!new)>(g: Group<E>, x: E, y: E, table: seq<E>, w: nat, current: E, firstTime: bool,
      squaresBefore: nat, power1: nat, power2: nat, ghost a: nat, ghost b: nat) returns (result: E)
    requires IsAbelian(g) && TableFilled(g, x, y, table, w)
    requires power1 < Pow2(w) && power2 < Pow2(w)
    requires power1 < Pow2(squaresBefore + 1) && power2 < Pow2(squaresBefore + 1)
    requires if firstTime then a == b == 0 && (power1 > 0 || power2 > 0) else current == Linear(g, a, x, b, y)
    ensures result == Linear(g, Shl(a, squaresBefore) + power1, x, Shl(b, squaresBefore) + power2, y)
  {
    hide IsGroup, IsAbelian, Linear, Shl, Pow2, TableFilled, Entry, Index;
    var p1, p2, before, after := StripCommonZeros(power1, power2, squaresBefore);
    if p1 > 0 || p2 > 0 {
      Lookup(g, x, y, table, w, p1, p2);
    }
    ghost var c, d := Shl(a, before), Shl(b, before);
    ShlGrows(a, before);
    ShlGrows(b, before);
    if firstTime {
      ShlOne(before);
      result := table[Index(w, p1, p2)];
    } else {
      result := DoubleRepeatedly(g, x, y, current, before, a, b);
      if p1 > 0 || p2 > 0 {
        LinearAdd(g, c, d, p1, p2, x, y);
        result := g.add(result, table[Index(w, p1, p2)]);
      }
    }
    Recombine(a, before, after, p1);
    Recombine(b, before, after, p2);
    result := DoubleRepeatedly(g, x, y, result, after, c + p1, d + p2);
  }

  lemma {:induction false} Lookup<E>(g: Group<E>, x: E, y: E, table: seq<E>, w: nat, p1: nat, p2: nat)
    requires TableFilled(g, x, y, table, w) && p1 < Pow2(w) && p2 < Pow2(w) && (p1 % 2 == 1 || p2 % 2 == 1)
    ensures 0 <= Index(w, p1, p2) < |table| && table[Index(w, p1, p2)] == Linear(g, p1, x, p2, y)
  {
    assert Entry(g, x, y, table, w, p1, p2);
  }

  lemma {:induction false} Recombine(a: nat, before: nat, after: nat, p: nat)
    ensures Shl(Shl(a, before) + p, after) == Shl(a, before + after) + Shl(p, after)
  {
    ShlAdd(Shl(a, before), p, after);
    ShlShl(a, before, after);
  }

  /** The part of the exponent already in the result. */
  ghost function Flushed(e: nat, firstTime: bool, prevPosition: nat): nat {
    if firstTime then 0 else Shr(e, prevPosition)
  }

  /** The exponent above bit `pos` is what was flushed, shifted past the window, plus the open window. */
  ghost predicate Scanned(e: nat, expLen: nat, pos: nat, firstTime: bool, prevPosition: nat, power: nat) {
    if firstTime then pos <= expLen && Shr(e, pos) == power < Pow2(expLen - pos)
    else
      && pos <= prevPosition && power < Pow2(prevPosition - pos)
      && Shr(e, pos) == Shl(Shr(e, prevPosition), prevPosition - pos) + power
  }

  lemma {:induction false} ScanBit(e: nat, expLen: nat, pos: nat, firstTime: bool, prevPosition: nat, power: nat)
    requires pos > 0 && Scanned(e, expLen, pos, firstTime, prevPosition, power)
    ensures Scanned(e, expLen, pos - 1, firstTime, prevPosition, 2 * power + Bit(e, pos - 1))
    ensures Shr(e, pos - 1) >= Shr(e, pos)
  {
  }

  lemma {:induction false} ScanStart(e: nat, expLen: nat)
    requires BitCount(e) <= expLen && expLen > 0
    ensures Scanned(e, expLen, expLen, true, expLen - 1, 0)
    ensures BitCount(e) == expLen ==> Shr(e, expLen - 1) == 1
  {
    Pow2Monotone(BitCount(e), expLen);
    ShrSmall(e, expLen);
    if BitCount(e) == expLen {
      LowRange(e, expLen - 1);
      ShlOne(expLen - 1);
    }
  }

  /** e1*x + e2*y, in any commutative group. */
  method CascadeScalarMultiply<E(!new)>(g: Group<E>, x: E, e1: nat, y: E, e2: nat) returns (result: E)
    requires IsAbelian(g)
    ensures result == Linear(g, e1, x, e2, y)
  {
    var expLen := if BitCount(e1) >= BitCount(e2) then BitCount(e1) else BitCount(e2);
    if expLen == 0 {
      assert e1 == 0 == e2;
      assert Laws(g, g.identity, x, y);
      return g.identity;
    }
    var w := WindowBits(expLen);
    var tableSize := Pow2(w);
    var powerTable := BuildTable(g, x, y, w);
    result := Scan(g, x, e1, y, e2, expLen, w, tableSize, powerTable);
  }

  /** What the scan keeps for one exponent: its open window is short and its flushed part is known. */
  ghost predicate Scanning(e: nat, expLen: nat, i: nat, firstTime: bool, prevPosition: nat, power: nat, w: nat) {
    && Scanned(e, expLen, i, firstTime, prevPosition, power)
    && power + power < Pow2(w)
    && (firstTime ==> prevPosition == expLen - 1)
    && (i == 0 ==> !firstTime && prevPosition == 0)
  }

  /** The main loop over the bits, from the top down. */
  method Scan<E(!new)>(g: Group<E>, x: E, e1: nat, y: E, e2: nat, expLen: nat, w: nat, tableSize: nat,
      powerTable: seq<E>) returns (result: E)
    requires IsAbelian(g) && TableFilled(g, x, y, powerTable, w) && w >= 1 && tableSize == Pow2(w)
    requires expLen > 0 && BitCount(e1) <= expLen && BitCount(e2) <= expLen
    requires BitCount(e1) == expLen || BitCount(e2) == expLen
    ensures result == Linear(g, e1, x, e2, y)
  {
    hide IsGroup, IsAbelian, Linear, Shr, TableFilled, Scanned, BitCount, Flushed;
    result := g.identity;  // not read before the first flush sets it
    var power1: nat, power2: nat, prevPosition: nat, firstTime := 0, 0, expLen - 1, true;
    ScanStart(e1, expLen);
    ScanStart(e2, expLen);
    assert tableSize == Pow2(w - 1) + Pow2(w - 1);
    var i := expLen;
    while i > 0
      invariant i <= expLen
      invariant Scanning(e1, expLen, i, firstTime, prevPosition, power1, w)
      invariant Scanning(e2, expLen, i, firstTime, prevPosition, power2, w)
      invariant !firstTime ==> result == Linear(g, Flushed(e1, false, prevPosition), x, Flushed(e2, false, prevPosition), y)
      invariant i < expLen ==> Shr(e1, i) > 0 || Shr(e2, i) > 0
    {
      i := i - 1;
      power1, power2, prevPosition, firstTime, result :=
        ScanPosition(g, x, e1, y, e2, expLen, w, tableSize, powerTable, i, power1, power2, prevPosition, firstTime, result);
    }
    FlushedAll(e1);
    FlushedAll(e2);
  }

  /** The body of the main loop at bit i. */
  method ScanPosition<E(!new)>(g: Group<E>, x: E, e1: nat, y: E, e2: nat, ghost expLen: nat, w: nat, tableSize: nat,
      powerTable: seq<E>,
      i: nat, power1: nat, power2: nat, prevPosition: nat, firstTime: bool, result: E)
      returns (p1: nat, p2: nat, prev: nat, first: bool, r: E)
    requires IsAbelian(g) && TableFilled(g, x, y, powerTable, w) && w >= 1 && tableSize == Pow2(w) && i < expLen
    requires Scanning(e1, expLen, i + 1, firstTime, prevPosition, power1, w)
    requires Scanning(e2, expLen, i + 1, firstTime, prevPosition, power2, w)
    requires !firstTime ==> result == Linear(g, Flushed(e1, false, prevPosition), x, Flushed(e2, false, prevPosition), y)
    requires i + 1 < expLen ==> Shr(e1, i + 1) > 0 || Shr(e2, i + 1) > 0
    requires i + 1 == expLen ==> Shr(e1, i) > 0 || Shr(e2, i) > 0
    ensures Scanning(e1, expLen, i, first, prev, p1, w) && Scanning(e2, expLen, i, first, prev, p2, w)
    ensures !first ==> r == Linear(g, Flushed(e1, false, prev), x, Flushed(e2, false, prev), y)
    ensures Shr(e1, i) > 0 || Shr(e2, i) > 0
  {
    hide IsGroup, IsAbelian, Linear, Shr, Shl, TableFilled, Scanned, Flushed, Pow2, Bit;
    p1, p2, prev, first, r := 2 * power1 + Bit(e1, i), 2 * power2 + Bit(e2, i), prevPosition, firstTime, result;
    ScanBit(e1, expLen, i + 1, firstTime, prevPosition, power1);
    ScanBit(e2, expLen, i + 1, firstTime, prevPosition, power2);
    RoomForBit(power1, Bit(e1, i), w);
    RoomForBit(power2, Bit(e2, i), w);
    if i == 0 || 2 * p1 >= tableSize || 2 * p2 >= tableSize {
      FlushReady(e1, expLen, i, firstTime, prevPosition, p1);
      FlushReady(e2, expLen, i, firstTime, prevPosition, p2);
      r := Flush(g, x, y, powerTable, w, result, firstTime, prevPosition - i, p1, p2,
                 Flushed(e1, firstTime, prevPosition), Flushed(e2, firstTime, prevPosition));
      first, prev := false, i;
      p1, p2 := 0, 0;
    }
  }

  lemma {:induction false} RoomForBit(power: nat, bit: nat, w: nat)
    requires w >= 1 && power + power < Pow2(w) && bit <= 1
    ensures 2 * power + bit < Pow2(w)
  {
    assert Pow2(w) == Pow2(w - 1) + Pow2(w - 1);
  }

  lemma {:induction false} FlushedAll(e: nat)
    ensures Flushed(e, false, 0) == e
  {
  }

  lemma {:induction false} FlushReady(e: nat, expLen: nat, pos: nat, firstTime: bool, prevPosition: nat, power: nat)
    requires Scanned(e, expLen, pos, firstTime, prevPosition, power)
    requires firstTime ==> prevPosition == expLen - 1 && pos <= expLen - 1
    ensures pos <= prevPosition && power < Pow2(prevPosition - pos + 1)
    ensures firstTime ==> Shr(e, pos) == power && Flushed(e, firstTime, prevPosition) == 0
    ensures Flushed(e, false, pos) == Shl(Flushed(e, firstTime, prevPosition), prevPosition - pos) + power
    ensures Scanned(e, expLen, pos, false, pos, 0)
  {
    ShlOne(prevPosition - pos);
    ShiftByZero(Shr(e, pos));
  }
}
