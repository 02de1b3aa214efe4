/** The Fenwick (binary indexed) tree of `FenwickTree.java`: a one-based
    `long` array in which cell m holds the sum of the point values at
    positions m - lsb(m) + 1 .. m, so prefix sums and point updates each
    walk O(log n) cells.

    The point values the tree represents are the ghost sequence `values`;
    position 0 of the array is never part of any sum. Java's `long` is
    modelled by `int` (no overflow); the `int` index arithmetic that can
    wrap (`size + 1`, and `i + lsb(i)` on arrays of more than 2^30 cells)
    is modelled as Java evaluates it. */
module Fenwick {
  import opened Common

  // ---------------------------------------------------------------------
  // The lowest set bit

  ghost predicate IsPow2(n: int)
    decreases n
  {
    n == 1 || (n > 1 && n % 2 == 0 && IsPow2(n / 2))
  }

  /** Java's `lsb`, `Integer.lowestOneBit`, on the non-negative indices the
      tree uses: the largest power of two dividing i, and 0 for i = 0. */
  function Lsb(i: int): (r: int)
    requires i >= 0
    ensures i == 0 ==> r == 0
    ensures i >= 1 ==> 1 <= r <= i
    decreases i
  {
    if i == 0 then 0
    else if i % 2 == 1 then 1
    else 2 * Lsb(i / 2)
  }

  lemma {:induction false} LsbPow2(i: int)
    requires i >= 1
    ensures IsPow2(Lsb(i))
    decreases i
  {
    if i % 2 == 0 {
      LsbPow2(i / 2);
      assert (2 * Lsb(i / 2)) / 2 == Lsb(i / 2);
    }
  }

  lemma {:induction false} MulDiv(b: int, o: int)
    requires b > 0
    ensures (b * o) / b == o && (b * o) % b == 0
  {
    var q, r := (b * o) / b, (b * o) % b;
    assert b * (o - q) == r;
    MulBounds(b, o - q);
  }

  lemma {:induction false} MulBounds(b: int, d: int)
    requires b > 0
    ensures d >= 1 ==> b * d >= b
    ensures d <= -1 ==> b * d <= -b
  {
    if d >= 1 {
      assert b * d == b * (d - 1) + b;
    } else if d <= -1 {
      assert b * d == b * (d + 1) - b;
    }
  }

  /** lsb(i) is the lowest set bit: it divides i and leaves an odd
      quotient. */
  lemma {:induction false} LsbIsLowestBit(i: int)
    requires i >= 1
    ensures i % Lsb(i) == 0 && (i / Lsb(i)) % 2 == 1
    decreases i
  {
    if i % 2 == 0 {
      LsbIsLowestBit(i / 2);
      var h := Lsb(i / 2);
      var o := (i / 2) / h;
      assert i / 2 == h * o;
      assert i == (2 * h) * o;
      MulDiv(2 * h, o);
    }
  }

  lemma {:induction false} Pow2Double(q: int)
    requires IsPow2(q)
    ensures IsPow2(2 * q)
  {
    assert (2 * q) / 2 == q;
  }

  /** Powers of two are spaced at least a factor two apart. */
  lemma {:induction false} Pow2Gap(p: int, q: int)
    requires IsPow2(p) && IsPow2(q) && p < q
    ensures 2 * p <= q
    decreases q
  {
    if p > 1 {
      Pow2Gap(p / 2, q / 2);
    }
  }

  /** Adding less than lsb(x) to x: the sum's lowest bit is that of the
      smaller addend. */
  lemma {:induction false} LsbAdd(x: int, d: int)
    requires x >= 1 && 1 <= d < Lsb(x)
    ensures Lsb(x + d) == Lsb(d)
    decreases d
  {
    if d % 2 == 0 {
      LsbAdd(x / 2, d / 2);
      assert (x + d) / 2 == x / 2 + d / 2;
    }
  }

  /** Moving to the parent, c + lsb(c), at least doubles the lowest bit. */
  lemma {:induction false} LsbStep(c: int)
    requires c >= 1
    ensures Lsb(c + Lsb(c)) >= 2 * Lsb(c)
    decreases c
  {
    if c % 2 == 0 {
      LsbStep(c / 2);
      assert (c + Lsb(c)) / 2 == c / 2 + Lsb(c / 2);
    } else {
      assert Lsb(c + 1) == 2 * Lsb((c + 1) / 2);
    }
  }

  /** Subtracting a power of two below lsb(m) from m leaves that power as
      the lowest bit. */
  lemma {:induction false} LsbSub(m: int, q: int)
    requires m >= 1 && IsPow2(q) && q < Lsb(m)
    ensures Lsb(m - q) == q
    decreases q
  {
    if q > 1 {
      LsbSub(m / 2, q / 2);
      assert (m - q) / 2 == m / 2 - q / 2;
    }
  }

  // ---------------------------------------------------------------------
  // Java's `int` indices

  lemma {:induction false} LsbOfPow2(n: nat)
    ensures Lsb(Pow2(n)) == Pow2(n)
  {
    if n > 0 {
      LsbOfPow2(n - 1);
      assert Pow2(n) / 2 == Pow2(n - 1);
    }
  }

  lemma {:induction false} Pow2Add(a: nat, b: nat)
    ensures Pow2(a + b) == Pow2(a) * Pow2(b)
    decreases a
  {
    if a > 0 {
      Pow2Add(a - 1, b);
    }
  }

  /** lsb(2^30) = 2^30, so 2^30 is the first index whose parent
      i + lsb(i) no longer fits in an `int` (below it, i + lsb(i) <= 2 i). */
  lemma HalfRangeParent()
    ensures Lsb(0x4000_0000) == 0x4000_0000
  {
    assert Pow2(1) == 2;
    assert Pow2(2) == 4 by { Pow2Add(1, 1); }
    assert Pow2(4) == 16 by { Pow2Add(2, 2); }
    assert Pow2(8) == 256 by { Pow2Add(4, 4); }
    assert Pow2(16) == 0x1_0000 by { Pow2Add(8, 8); }
    assert Pow2(24) == 0x100_0000 by { Pow2Add(16, 8); }
    assert Pow2(28) == 0x1000_0000 by { Pow2Add(24, 4); }
    assert Pow2(30) == 0x4000_0000 by { Pow2Add(28, 2); }
    LsbOfPow2(30);
  }

  /** Whether the walk of `add` from i over n cells reaches a cell whose
      step i + lsb(i) passes 2^31 - 1, where Java's `int` index wraps to a
      negative value. */
  ghost predicate WalkWraps(i: int, n: int)
    requires i >= 1
    decreases n - i
  {
    i < n && (i + Lsb(i) >= 0x8000_0000 || WalkWraps(i + Lsb(i), n))
  }

  /** Only arrays of more than 2^30 cells let the walk wrap: the cell
      whose step wraps is itself at least 2^30. */
  lemma {:induction false} WrapNeedsLongArray(i: int, n: int)
    requires i >= 1 && WalkWraps(i, n)
    ensures n > 0x4000_0000
    decreases n - i
  {
    if i + Lsb(i) < 0x8000_0000 {
      WrapNeedsLongArray(i + Lsb(i), n);
    }
  }

  /** Every array of more than 2^30 cells has a walk that wraps: the one
      from 2^30. */
  lemma LongArrayWraps(n: int)
    requires n > 0x4000_0000
    ensures WalkWraps(0x4000_0000, n)
  {
    HalfRangeParent();
  }

  // ---------------------------------------------------------------------
  // Sums of point values

  /** values[1] + ... + values[n]; values[0] never counts. */
  ghost function PS(values: seq<int>, n: int): int
    requires 0 <= n < |values|
    decreases n
  {
    if n == 0 then 0 else PS(values, n - 1) + values[n]
  }

  /** What cell m of a correct tree holds: the sum over
      m - lsb(m) + 1 .. m. */
  ghost function Cell(values: seq<int>, m: int): int
    requires 1 <= m < |values|
  {
    PS(values, m) - PS(values, m - Lsb(m))
  }

  /** The tree invariant over an array and the point values it stands for. */
  ghost predicate Represents(tree: seq<int>, values: seq<int>)
  {
    |tree| == |values| &&
    forall m :: 1 <= m < |tree| ==> tree[m] == Cell(values, m)
  }

  lemma {:induction false} ZeroSums(values: seq<int>, n: int)
    requires 0 <= n < |values|
    requires forall k :: 0 <= k < |values| ==> values[k] == 0
    ensures PS(values, n) == 0
    decreases n
  {
    if n > 0 {
      ZeroSums(values, n - 1);
    }
  }

  /** Adding k at position i raises every prefix sum from i on by k and no
      other. */
  lemma {:induction false} PointUpdateSums(values: seq<int>, i: int, k: int, n: int)
    requires 1 <= i < |values| && 0 <= n < |values|
    ensures PS(values[i := values[i] + k], n) == PS(values, n) + (if n >= i then k else 0)
    decreases n
  {
    if n > 0 {
      PointUpdateSums(values, i, k, n - 1);
    }
  }

  /** Adding k at position i changes cell m by k when the range of
      positions m - lsb(m) + 1 .. m that the cell sums covers i, and
      leaves it alone otherwise. */
  lemma CellUpdate(values: seq<int>, i: int, k: int, m: int)
    requires 1 <= i < |values| && 1 <= m < |values|
    ensures Cell(values[i := values[i] + k], m) == Cell(values, m) + (if m - Lsb(m) < i <= m then k else 0)
  {
    PointUpdateSums(values, i, k, m);
    PointUpdateSums(values, i, k, m - Lsb(m));
  }

  /** The cells `add` does not visit keep their sums: those below i, and
      those strictly between a visited cell j and its parent j + lsb(j). */
  lemma SkippedCells(values: seq<int>, i: int, k: int, j: int)
    requires 1 <= i <= j < |values|
    ensures forall m :: 1 <= m < i ==> Cell(values[i := values[i] + k], m) == Cell(values, m)
    ensures forall m :: j < m < j + Lsb(j) && m < |values| ==> Cell(values[i := values[i] + k], m) == Cell(values, m)
  {
    forall m | 1 <= m < i
      ensures Cell(values[i := values[i] + k], m) == Cell(values, m)
    {
      CellUpdate(values, i, k, m);
    }
    forall m | j < m < j + Lsb(j) && m < |values|
      ensures Cell(values[i := values[i] + k], m) == Cell(values, m)
    {
      LsbAdd(j, m - j);
      CellUpdate(values, i, k, m);
    }
  }

  /** `lsb` linear-time construction: KidSum(m, i) is what the cells c < i
      with parent c + lsb(c) = m have pushed into cell m. */
  ghost function KidSum(values: seq<int>, m: int, i: int): int
    requires 1 <= i <= |values|
    decreases i
  {
    if i == 1 then 0
    else
      var c := i - 1;
      KidSum(values, m, c) + (if c + Lsb(c) == m then Cell(values, c) else 0)
  }

  /** Passing cell c adds its content to its parent's sum only. */
  lemma KidSumStep(values: seq<int>, m: int, c: int)
    requires 1 <= c < |values|
    ensures KidSum(values, m, c + 1) == KidSum(values, m, c) + (if c + Lsb(c) == m then Cell(values, c) else 0)
  {
  }

  /** A cell c with parent m lies within m's range, at a power-of-two
      distance below lsb(m). */
  lemma {:induction false} ChildOf(c: int, m: int)
    requires c >= 1 && c + Lsb(c) == m
    ensures IsPow2(m - c) && m - c < Lsb(m)
  {
    LsbStep(c);
    LsbPow2(c);
  }

  lemma {:induction false} NoKidsBelow(values: seq<int>, m: int, i: int)
    requires 1 <= m && 1 <= i <= |values| && i <= m - Lsb(m) + 1
    ensures KidSum(values, m, i) == 0
    decreases i
  {
    if i > 1 {
      NoKidsBelow(values, m, i - 1);
      if (i - 1) + Lsb(i - 1) == m {
        ChildOf(i - 1, m);
      }
    }
  }

  /** Between distances q and 2q below m (exclusive) no cell has parent m. */
  lemma {:induction false} NoKidsBetween(values: seq<int>, m: int, q: int, i: int)
    requires 1 <= m < |values| && IsPow2(q) && 2 * q <= Lsb(m)
    requires m - 2 * q + 1 <= i <= m - q
    ensures KidSum(values, m, i) == KidSum(values, m, m - 2 * q + 1)
    decreases i
  {
    if i > m - 2 * q + 1 {
      NoKidsBetween(values, m, q, i - 1);
      var c := i - 1;
      if c + Lsb(c) == m {
        ChildOf(c, m);
        if m - c < q {
          Pow2Gap(m - c, q);
        } else {
          Pow2Double(q);
          Pow2Gap(q, m - c);
          Pow2Gap(m - c, 2 * q);
        }
      }
    }
  }

  /** Once the cells down to distance q below m have been pushed, cell m
      has received the sum over m - lsb(m) + 1 .. m - q. */
  lemma {:induction false} KidsUpTo(values: seq<int>, m: int, q: int)
    requires 1 <= m < |values| && IsPow2(q) && q <= Lsb(m)
    ensures KidSum(values, m, m - q + 1) == PS(values, m - q) - PS(values, m - Lsb(m))
    decreases Lsb(m) - q
  {
    if q == Lsb(m) {
      NoKidsBelow(values, m, m - q + 1);
    } else {
      LsbPow2(m);
      Pow2Gap(q, Lsb(m));
      Pow2Double(q);
      KidsUpTo(values, m, 2 * q);
      KidsUpToNext(values, m, q);
    }
  }

  /** From distance 2q to distance q below m: no cell strictly between
      has parent m, and cell m - q adds the sum over m - 2q + 1 .. m - q. */
  lemma KidsUpToNext(values: seq<int>, m: int, q: int)
    requires 1 <= m < |values| && IsPow2(q) && 2 * q <= Lsb(m)
    requires KidSum(values, m, m - 2 * q + 1) == PS(values, m - 2 * q) - PS(values, m - Lsb(m))
    ensures KidSum(values, m, m - q + 1) == PS(values, m - q) - PS(values, m - Lsb(m))
  {
    NoKidsBetween(values, m, q, m - q);
    LsbSub(m, q);
    KidsUpToStep(values, m, q);
  }

  /** The inductive step of KidsUpTo, free of powers of two: cell m - q,
      whose parent is m, adds the sum over m - 2q + 1 .. m - q. */
  lemma {:induction false} KidsUpToStep(values: seq<int>, m: int, q: int)
    requires 1 <= m < |values| && 1 <= q && 2 * q <= Lsb(m) && Lsb(m - q) == q
    requires KidSum(values, m, m - q) == KidSum(values, m, m - 2 * q + 1)
    requires KidSum(values, m, m - 2 * q + 1) == PS(values, m - 2 * q) - PS(values, m - Lsb(m))
    ensures KidSum(values, m, m - q + 1) == PS(values, m - q) - PS(values, m - Lsb(m))
  {
    KidSumStep(values, m, m - q);
  }

  /** All the cells below m with parent m together cover
      m - lsb(m) + 1 .. m - 1. */
  lemma {:induction false} AllKids(values: seq<int>, m: int)
    requires 1 <= m < |values|
    ensures values[m] + KidSum(values, m, m) == Cell(values, m)
  {
    assert IsPow2(1);
    KidsUpTo(values, m, 1);
    assert m - 1 + 1 == m;
    assert KidSum(values, m, m) == PS(values, m - 1) - PS(values, m - Lsb(m));
    assert PS(values, m) == PS(values, m - 1) + values[m];
  }

  /** Cell m holds its final sum. */
  ghost predicate CellFinal(t: seq<int>, values: seq<int>, m: int)
    requires |t| == |values| && 1 <= m < |t|
  {
    t[m] == Cell(values, m)
  }

  /** Cell m holds its own value plus what its children below i pushed. */
  ghost predicate CellPartial(t: seq<int>, values: seq<int>, m: int, i: int)
    requires |t| == |values| && 1 <= i <= m < |t|
  {
    t[m] == values[m] + KidSum(values, m, i)
  }

  /** Halfway through the construction pass, before cell i is pushed:
      the cells below i are final, the others hold their own value plus
      what their children below i pushed. */
  ghost predicate BuildInvariant(t: seq<int>, values: seq<int>, i: int)
    requires |t| == |values| && 1 <= i
  {
    (forall m :: 1 <= m < i && m < |t| ==> CellFinal(t, values, m)) &&
    (forall m :: i <= m < |t| ==> CellPartial(t, values, m, i))
  }

  /** Before the pass no cell has received anything. */
  lemma BuildStart(values: seq<int>)
    requires |values| >= 1
    ensures BuildInvariant(values, values, 1)
  {
    forall m | 1 <= m < |values|
      ensures CellPartial(values, values, m, 1)
    {
    }
  }

  /** At the end of the pass every cell is final. */
  lemma {:induction false} BuildDone(t: seq<int>, values: seq<int>)
    requires |t| == |values| && 1 <= |t|
    requires BuildInvariant(t, values, |t|)
    ensures Represents(t, values)
  {
    forall m | 1 <= m < |t|
      ensures t[m] == Cell(values, m)
    {
      assert CellFinal(t, values, m);
    }
  }

  /** One iteration of the construction pass keeps the invariant: cell i
      is final, and pushing it into its parent j (when inside the array)
      brings every later cell up to date for i + 1. */
  lemma {:induction false} BuildStep(t: seq<int>, t': seq<int>, values: seq<int>, i: int)
    requires |t| == |values| && 1 <= i < |t|
    requires BuildInvariant(t, values, i)
    requires t' == if i + Lsb(i) < |t| then t[i + Lsb(i) := t[i + Lsb(i)] + t[i]] else t
    ensures BuildInvariant(t', values, i + 1)
  {
    assert CellPartial(t, values, i, i);
    AllKids(values, i);
    forall m | 1 <= m < i + 1 && m < |t'|
      ensures CellFinal(t', values, m)
    {
      if m < i {
        assert CellFinal(t, values, m);
      }
    }
    var next := i + 1;
    forall m | next <= m < |t'|
      ensures CellPartial(t', values, m, next)
    {
      assert CellPartial(t, values, m, i);
      KidSumStep(values, m, i);
    }
  }

  // ---------------------------------------------------------------------
  // The tree object

  /** Java's `FenwickTree`, over its `tree` array. */
  class FenwickTree {
    var tree: array<int>
    /** The point values; values[0] is never summed. */
    ghost var values: seq<int>

    /** A Java array has at most 2^31 - 1 cells. */
    ghost predicate Valid()
      reads this, tree
    {
      tree.Length < 0x8000_0000 && Represents(tree[..], values)
    }

    /** The allocation of `FenwickTree(size)` for a size whose array
        length size + 1 fits an `int`: `size + 1` cells, all zero, so every
        prefix sum is 0. */
    constructor(size: int)
      requires 0 <= size + 1 < 0x8000_0000
      ensures Valid() && fresh(tree)
      ensures tree.Length == size + 1 && values == seq(size + 1, _ => 0)
    {
      tree := new int[size + 1](_ => 0);
      values := seq(size + 1, _ => 0);
      new;
      forall m | 1 <= m < tree.Length
        ensures tree[m] == Cell(values, m)
      {
        ZeroSums(values, m);
        ZeroSums(values, m - Lsb(m));
      }
    }

    /** `FenwickTree(size)` for any `int` size: the `int` length size + 1 is
        negative for size < -1 and, by wrapping, for size = 2^31 - 1; Java
        then throws `NegativeArraySizeException`. */
    static method Create(size: Int32) returns (r: Result<FenwickTree>)
      ensures r.Err? <==> size < -1 || size == 0x7FFF_FFFF
      ensures r.Err? ==> r.error == NegativeArraySize
      ensures r.Ok? ==> fresh(r.value.tree) && r.value.Valid()
      ensures r.Ok? ==> r.value.tree.Length == size + 1 && r.value.values == seq(size + 1, _ => 0)
    {
      if size < -1 || size == 0x7FFF_FFFF {
        return Err(NegativeArraySize);
      }
      var f := new FenwickTree(size);
      return Ok(f);
    }

    /** Adopts an array that already represents the given values. */
    constructor Of(t: array<int>, ghost v: seq<int>)
      requires t.Length < 0x8000_0000 && Represents(t[..], v)
      ensures Valid() && tree == t && values == v
    {
      tree := t;
      values := v;
    }

    /** The construction pass of the array constructor, in place: every
        cell i, left to right, is added into its parent i + lsb(i) when that
        lies inside the array. On an array of at most 2^30 cells the array
        then represents the point values it held before. On a longer one the
        `int` parent index of cell 2^30 wraps to -2^31, which passes the
        `j < tree.length` test, and the read of `tree[j]` throws. */
    static method PushAll(t: array<int>) returns (r: Result<()>)
      requires t.Length < 0x8000_0000
      modifies t
      ensures r.Ok? <==> t.Length <= 0x4000_0000
      ensures r.Err? ==> r.error == IndexOutOfBounds
      ensures r.Ok? ==> Represents(t[..], old(t[..]))
    {
      ghost var v := t[..];
      if t.Length == 0 {
        return Ok(());
      }
      var i := 1;
      BuildStart(v);
      while i < t.Length
        invariant 1 <= i <= t.Length == |v|
        invariant i <= 0x4000_0000
        invariant BuildInvariant(t[..], v, i)
      {
        ghost var s := t[..];
        if i == 0x4000_0000 {
          HalfRangeParent();
        }
        var pushed := PushOne(t, i);
        if pushed.Err? {
          return pushed;
        }
        BuildStep(s, t[..], v, i);
        i := i + 1;
      }
      BuildDone(t[..], v);
      return Ok(());
    }

    /** One step of the pass: cell i is added into its parent, if any. A
        parent index past 2^31 - 1 wraps to a negative `int`, and the read
        of that cell throws before anything is written. */
    static method PushOne(t: array<int>, i: int) returns (r: Result<()>)
      requires 1 <= i < t.Length < 0x8000_0000
      modifies t
      ensures r.Err? <==> i + Lsb(i) >= 0x8000_0000
      ensures r.Err? ==> r.error == IndexOutOfBounds && t[..] == old(t[..])
      ensures r.Ok? ==> var j := i + Lsb(i);
        t[..] == if j < t.Length then old(t[..])[j := old(t[j]) + old(t[i])] else old(t[..])
    {
      var j := i + Lsb(i);
      if j >= 0x8000_0000 {
        return Err(IndexOutOfBounds);
      }
      if j < t.Length {
        t[j] := t[j] + t[i];
      }
      return Ok(());
    }

    /** `FenwickTree(long[] values)` over a nullable array: `null` is
        refused with `IllegalArgumentException`; otherwise the pass runs on
        a clone, so the caller's array is not touched, and fails on more
        than 2^30 cells. */
    static method FromValues(init: array?<int>) returns (r: Result<FenwickTree>)
      requires init != null ==> init.Length < 0x8000_0000
      ensures r.Err? <==> init == null || init.Length > 0x4000_0000
      ensures init == null ==> r == Err(IllegalArgument)
      ensures init != null && r.Err? ==> r.error == IndexOutOfBounds
      ensures r.Ok? ==> fresh(r.value.tree) && r.value.Valid() && r.value.values == init[..]
    {
      if init == null {
        return Err(IllegalArgument);
      }
      var t := new int[init.Length](k requires 0 <= k < init.Length reads init => init[k]);
      assert t[..] == init[..];
      var built := PushAll(t);
      if built.Err? {
        return Err(built.error);
      }
      var f := new FenwickTree.Of(t, init[..]);
      return Ok(f);
    }

    /** Java's `prefixSum(i)`: 0 for i = 0, the sum over 1 .. i inside the
        array, and an out-of-bounds exception at the first read otherwise. */
    method PrefixSum(i: int) returns (r: Result<int>)
      requires Valid()
      ensures i == 0 ==> r == Ok(0)
      ensures 0 < i < tree.Length ==> r == Ok(PS(values, i))
      ensures (i < 0 || i >= tree.Length) && i != 0 ==> r == Err(IndexOutOfBounds)
    {
      if i != 0 && !(0 <= i < tree.Length) {
        return Err(IndexOutOfBounds);
      }
      if i == 0 {
        return Ok(0);
      }
      var sum := 0;
      var j := i;
      while j != 0
        invariant 0 <= j < tree.Length
        invariant sum + PS(values, j) == PS(values, i)
        decreases j
      {
        sum := sum + tree[j];
        j := j - Lsb(j);
      }
      return Ok(sum);
    }

    /** Java's `sum(i, j)`: `IllegalArgumentException` when j < i; otherwise
        `prefixSum(j) - prefixSum(i - 1)`, whose failures it passes on. For
        1 <= i <= j inside the array that is values[i] + ... + values[j].
        (For i = -2^31, Java's `i - 1` wraps to 2^31 - 1, which is out of
        bounds as well.) */
    method Sum(i: int, j: int) returns (r: Result<int>)
      requires Valid()
      ensures j < i ==> r == Err(IllegalArgument)
      ensures i <= j ==> (r.Ok? <==> 1 <= i && j < tree.Length)
      ensures r.Ok? ==> r.value == PS(values, j) - PS(values, i - 1)
      ensures r.Err? && i <= j ==> r.error == IndexOutOfBounds
    {
      if j < i {
        return Err(IllegalArgument);
      }
      var hi := PrefixSum(j);
      if hi.Err? {
        return Err(hi.error);
      }
      var lo := PrefixSum(i - 1);
      if lo.Err? {
        return Err(lo.error);
      }
      return Ok(hi.value - lo.value);
    }

    /** Java's `add(i, k)`: add k at position i by walking up through the
        parents i, i + lsb(i), ... while inside the array. A negative index
        fails at the first write; i = 0 never leaves the loop on a non-empty
        array, since lsb(0) = 0; an index past the end changes nothing. A
        walk that wraps (possible only on arrays of more than 2^30 cells)
        has written every cell of the path when it fails, so the values are
        updated and the call still ends in an out-of-bounds exception. */
    method Add(i: int, k: int) returns (r: Result<()>)
      requires Valid()
      modifies this, tree
      ensures Valid() && tree == old(tree)
      ensures r.Ok? <==> (i >= 1 && !WalkWraps(i, tree.Length)) || (i == 0 && tree.Length == 0)
      ensures i < 0 ==> r == Err(IndexOutOfBounds)
      ensures i == 0 && tree.Length > 0 ==> r == Err(NonTermination)
      ensures i >= 1 && WalkWraps(i, tree.Length) ==> r == Err(IndexOutOfBounds)
      ensures values == if 1 <= i < tree.Length then old(values)[i := old(values)[i] + k]
                        else old(values)
    {
      if i < 0 {
        return Err(IndexOutOfBounds);
      }
      if i == 0 && tree.Length > 0 {
        return Err(NonTermination);
      }
      if i >= tree.Length {
        return Ok(());
      }
      ghost var v' := values[i := values[i] + k];
      var wrapped := Climb(i, k, values);
      values := v';
      if wrapped {
        return Err(IndexOutOfBounds);
      }
      return Ok(());
    }

    /** The loop of `add` for 1 <= i inside the array: every cell on the
        path i, i + lsb(i), ... grows by k, so the array comes to represent
        the point values with k added at i. `wrapped` tells whether a step
        passed 2^31 - 1: Java's index is then negative, passes the loop
        test and fails at the next write, which the model's unbounded index
        replaces by leaving the loop. */
    method Climb(i: int, k: int, ghost v: seq<int>) returns (wrapped: bool)
      requires Represents(tree[..], v) && 1 <= i < tree.Length < 0x8000_0000
      modifies tree
      ensures Represents(tree[..], v[i := v[i] + k])
      ensures wrapped <==> WalkWraps(i, tree.Length)
    {
      ghost var v' := v[i := v[i] + k];
      SkippedCells(v, i, k, i);
      var j := i;
      wrapped := false;
      while j < tree.Length
        invariant |v| == |v'| == tree.Length
        invariant i <= j && j - Lsb(j) < i
        invariant forall m :: 1 <= m < tree.Length ==> tree[m] == if m < j then Cell(v', m) else Cell(v, m)
        invariant wrapped ==> j >= 0x8000_0000
        invariant WalkWraps(i, tree.Length) <==> wrapped || WalkWraps(j, tree.Length)
        decreases tree.Length - j
      {
        CellUpdate(v, i, k, j);
        SkippedCells(v, i, k, j);
        tree[j] := tree[j] + k;
        LsbStep(j);
        if j + Lsb(j) >= 0x8000_0000 {
          wrapped := true;
        }
        j := j + Lsb(j);
      }
    }

    /** Java's `set(i, k)`: read the point value with `sum(i, i)` and add the
        difference. An index outside 1 .. length - 1 fails inside `sum`
        before anything changes; inside, the value becomes k, and the call
        still fails when the walk of `add` wraps. */
    method Set(i: int, k: int) returns (r: Result<()>)
      requires Valid()
      modifies this, tree
      ensures Valid() && tree == old(tree)
      ensures r.Ok? <==> 1 <= i < tree.Length && !WalkWraps(i, tree.Length)
      ensures r.Err? ==> r.error == IndexOutOfBounds
      ensures values == if 1 <= i < tree.Length then old(values)[i := k] else old(values)
    {
      var value := Sum(i, i);
      if value.Err? {
        return Err(value.error);
      }
      assert value.value == values[i];
      r := Add(i, k - value.value);
      assert values == old(values)[i := k];
    }
  }
}
