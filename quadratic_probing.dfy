/** The hash table of `HashTableQuadraticProbing.java`: open addressing over
    two parallel arrays, one of keys and one of values. A key's home slot is
    its normalized hash code, and the n-th probe goes to the home slot plus
    the n-th triangular number `P(n)`, all in Java's wrapping 32-bit
    arithmetic. Removal leaves a tombstone, which lookups skip and inserts
    reuse. The keys' `hashCode` is the constructor parameter `hash`, keys are
    compared with Dafny's equality (`equals`), and values are never `null`,
    so a `null` value slot is `None`. */
module QuadraticProbing {
  import opened Common

  const DefaultCapacity := 8
  /** The default load factor 0.45, as the fraction 9/20. */
  const DefaultLoadNum := 9
  const DefaultLoadDen := 20

  /** 2^32: the 32-bit probe counter `x` takes every value once in this
      many steps, after which the probe sequence repeats. */
  const Period := 0x1_0000_0000

  const IntMax := 0x7FFF_FFFF

  // ---------------------------------------------------------------------
  // Java int arithmetic

  /** An integer reduced to Java's `int` by two's-complement wrap-around. */
  function Wrap32(v: int): (r: Int32)
    ensures (v - r) % Period == 0
    ensures -0x8000_0000 <= v < 0x8000_0000 ==> r == v
  {
    (v + 0x8000_0000) % Period - 0x8000_0000
  }

  /** Values that differ by a multiple of 2^32 wrap to the same `int`. */
  lemma WrapCongruent(a: int, b: int)
    requires (a - b) % Period == 0
    ensures Wrap32(a) == Wrap32(b)
  {
    var q := (a - b) / Period;
    assert a + 0x8000_0000 == b + 0x8000_0000 + q * Period;
    ModShift(b + 0x8000_0000, q);
  }

  /** Adding a multiple of 2^32 leaves the remainder modulo 2^32 alone. */
  lemma ModShift(x: int, q: int)
    ensures (x + q * Period) % Period == x % Period
  {
    var d, m := x / Period, x % Period;
    assert x + q * Period == (d + q) * Period + m;
  }

  /** Wrapping an intermediate result changes nothing: `int` addition is
      addition modulo 2^32. */
  lemma WrapAdd(a: int, b: int)
    ensures Wrap32(Wrap32(a) + b) == Wrap32(a + b)
  {
    WrapCongruent(Wrap32(a) + b, a + b);
  }

  lemma EvenProduct(x: int)
    ensures (x * x + x) % 2 == 0
  {
    var h := x / 2;
    if x % 2 == 0 {
      assert x * x + x == 2 * (2 * h * h + h);
    } else {
      assert x == 2 * h + 1;
      assert x * x + x == 2 * (2 * h * h + 3 * h + 1);
    }
  }

  /** `P(x) = (x*x + x) >> 1` on Java `int`s: the product and the sum wrap,
      and the arithmetic shift is division by 2 rounding down, which is
      Dafny's division by a positive divisor. */
  function P(x: Int32): Int32
  {
    Wrap32(x * x + x) / 2
  }

  /** The product in `P` is always even, so the shift loses nothing: twice
      `P(x)` is the wrapped product, so `P(x)` is the triangular number
      x(x+1)/2 modulo 2^32, and exactly that number while the product fits
      in an `int`. */
  lemma PValue(x: Int32)
    ensures 2 * P(x) == Wrap32(x * x + x)
    ensures (x * x + x - 2 * P(x)) % Period == 0
    ensures 0 <= x * x + x < 0x8000_0000 ==> P(x) == x * (x + 1) / 2
  {
    var prod := x * x + x;
    EvenProduct(x);
    WrapEven(prod);
    if 0 <= prod < 0x8000_0000 {
      assert x * (x + 1) == prod;
    }
  }

  /** Wrapping keeps an even number even, 2^32 being even. */
  lemma WrapEven(v: int)
    requires v % 2 == 0
    ensures Wrap32(v) % 2 == 0
  {
    var w := Wrap32(v);
    var q := (v - w) / Period;
    assert v - w == q * Period;
    assert w == v - 2 * (q * 0x8000_0000);
  }



  /** The slot of the n-th probe from home slot h: `normalizeIndex(h +
      P(x))` with `x` the 32-bit counter after n increments (the home slot
      itself for n = 0, since `P(0)` is 0). */
  function Probe(h: int, n: int, cap: int): (i: int)
    requires cap > 0
    ensures 0 <= i < cap
  {
    NormalizeIndex(Wrap32(h + P(Wrap32(n))), cap)
  }

  /** The first probe is the home slot. */
  lemma ProbeStart(h: int, cap: int)
    requires 0 <= h < cap
    requires cap < 0x8000_0000
    ensures Probe(h, 0, cap) == h
  {
    var x := Wrap32(0);
    assert x == 0;
    var p := P(x);
    assert p == 0;
    var v := Wrap32(h + p);
    assert v == h;
    SmallMod(h, cap);
  }

  lemma SmallMod(h: int, cap: int)
    requires 0 <= h < cap
    ensures h % cap == h
  {
  }

  /** One step of the probe loop: with the counter `x` at n + 1 (wrapped),
      `normalizeIndex(h + P(x))` is probe n + 1, and `x++` moves the counter
      to n + 2. */
  lemma ProbeNext(h: int, n: int, cap: int, x: Int32)
    requires cap > 0 && x == Wrap32(n + 1)
    ensures NormalizeIndex(Wrap32(h + P(x)), cap) == Probe(h, n + 1, cap)
    ensures Wrap32(x + 1) == Wrap32(n + 2)
  {
    WrapAdd(n + 1, 1);
  }

  /** Line 119, `i = normalizeIndex(hash + P(x++))`, on a counter `x` at
      n + 1: the slot of probe n + 1 and the counter at n + 2. */
  method NextProbe(h: int, cap: int, x: Int32, ghost n: int) returns (i: int, x': Int32)
    requires cap > 0 && x == Wrap32(n + 1)
    ensures i == Probe(h, n + 1, cap) && x' == Wrap32(n + 2)
  {
    ProbeNext(h, n, cap, x);
    i := NormalizeIndex(Wrap32(h + P(x)), cap);
    x' := Wrap32(x + 1);
  }

  /** The probe sequence repeats after 2^32 steps. */
  lemma ProbePeriodic(h: int, n: int, cap: int)
    requires cap > 0 && n >= 0
    ensures Probe(h, n, cap) == Probe(h, n % Period, cap)
  {
    WrapCongruent(n, n % Period);
  }

  /** `threshold = (int) (capacity * loadFactor)` for a load factor
      num / den: the cast truncates toward zero and saturates at the
      bounds of `int`. A negative capacity only arises after `capacity *=
      2` has overflowed. */
  function Threshold(capacity: int, num: int, den: int): (t: int)
    requires num > 0 && den > 0
    ensures capacity >= 0 ==> 0 <= t <= IntMax && t <= capacity * num / den
    ensures capacity >= 0 ==> t == capacity * num / den || t == IntMax
    ensures capacity < 0 ==> -0x8000_0000 <= t <= 0
  {
    if capacity >= 0 then
      var t := capacity * num / den;
      if t > IntMax then IntMax else t
    else
      var t := -((-capacity * num) / den);
      if t < -0x8000_0000 then -0x8000_0000 else t
  }

  /** Doubling the capacity at least doubles the threshold, up to
      saturation. */
  lemma ThresholdGrows(capacity: int, num: int, den: int)
    requires capacity >= 0 && num > 0 && den > 0
    ensures Threshold(2 * capacity, num, den) >= Threshold(capacity, num, den)
    ensures 2 * Threshold(capacity, num, den) <= IntMax ==>
      Threshold(2 * capacity, num, den) >= 2 * Threshold(capacity, num, den)
    ensures 1 <= Threshold(capacity, num, den) < IntMax ==>
      Threshold(2 * capacity, num, den) > Threshold(capacity, num, den)
  {
    var a := capacity * num;
    var q := a / den;
    assert 2 * capacity * num == 2 * a;
    MulDivLower(q, den, a);
    MulDivLower(2 * q, den, 2 * a);
  }

  /** If m * den fits below b then b / den is at least m. */
  lemma MulDivLower(m: int, den: int, b: int)
    requires den > 0 && b >= 0 && m * den <= b
    ensures b / den >= m
  {
    var d := b / den;
    assert b == d * den + b % den;
    assert (d + 1) * den == d * den + den;
    if d < m {
      MulMono(d + 1, m, den);
    }
  }

  lemma MulMono(a: int, b: int, c: int)
    requires a <= b && c >= 0
    ensures a * c <= b * c
  {
    assert b * c - a * c == (b - a) * c;
  }

  // ---------------------------------------------------------------------
  // The key table and what it stands for

  /** One slot of `keyTable`: `null`, the `TOMBSTONE` marker left by a
      removal, or a key. */
  datatype Slot<K> = Null | Tombstone | Key(key: K)

  /** A live slot holds a key; only live slots have a value. */
  ghost predicate Paired<K, V>(ks: seq<Slot<K>>, vs: seq<Option<V>>)
  {
    |ks| == |vs| && forall i :: 0 <= i < |ks| ==> (ks[i].Key? <==> vs[i].Some?)
  }

  /** No key is live in two slots. */
  ghost predicate Distinct<K>(ks: seq<Slot<K>>)
  {
    forall i, j :: 0 <= i < |ks| && 0 <= j < |ks| && i != j && ks[i].Key? && ks[j].Key? ==> ks[i].key != ks[j].key
  }

  /** The key-to-value map the two arrays stand for, built slot by slot. */
  ghost function LiveMap<K, V>(ks: seq<Slot<K>>, vs: seq<Option<V>>): map<K, V>
    requires |ks| == |vs|
    decreases |ks|
  {
    if |ks| == 0 then map[]
    else
      var m := LiveMap(ks[..|ks| - 1], vs[..|vs| - 1]);
      var last, value := ks[|ks| - 1], vs[|vs| - 1];
      if last.Key? && value.Some? then m[last.key := value.value] else m
  }

  /** The slots that hold a key: `keyCount` counts them. */
  ghost function LiveSlots<K>(ks: seq<Slot<K>>): set<int>
  {
    set i | 0 <= i < |ks| && ks[i].Key?
  }

  /** The slots that are not `null`: `usedBuckets` counts them. */
  ghost function UsedSlots<K>(ks: seq<Slot<K>>): set<int>
  {
    set i | 0 <= i < |ks| && !ks[i].Null?
  }

  /** The binding of a live slot is in the map. */
  lemma {:induction false} LiveMapAt<K, V>(ks: seq<Slot<K>>, vs: seq<Option<V>>, i: int)
    requires Paired(ks, vs) && Distinct(ks) && 0 <= i < |ks| && ks[i].Key?
    ensures ks[i].key in LiveMap(ks, vs) && LiveMap(ks, vs)[ks[i].key] == vs[i].value
    decreases |ks|
  {
    var n := |ks| - 1;
    if i < n {
      var ks0, vs0 := ks[..n], vs[..n];
      assert Paired(ks0, vs0) && Distinct(ks0) && ks0[i] == ks[i] && vs0[i] == vs[i];
      LiveMapAt(ks0, vs0, i);
      assert ks[n].Key? ==> ks[n].key != ks[i].key;
    }
  }

  /** Every key of the map is live in some slot, with its value beside it. */
  lemma {:induction false} LiveMapWhere<K, V>(ks: seq<Slot<K>>, vs: seq<Option<V>>, k: K) returns (i: int)
    requires |ks| == |vs| && k in LiveMap(ks, vs)
    ensures 0 <= i < |ks| && ks[i] == Key(k) && vs[i] == Some(LiveMap(ks, vs)[k])
    decreases |ks|
  {
    var n := |ks| - 1;
    if ks[n] == Key(k) && vs[n].Some? {
      i := n;
    } else {
      i := LiveMapWhere(ks[..n], vs[..n], k);
    }
  }

  // ---------------------------------------------------------------------
  // Probing

  /** The home slot of a key: `normalizeIndex(key.hashCode())`. */
  function Home<K>(hash: K -> Int32, k: K, cap: int): int
    requires cap > 0
  {
    NormalizeIndex(hash(k), cap)
  }

  /** Where all three probe loops stop for key k: a `null` slot or the
      slot holding k. Tombstones and other keys are passed over. */
  predicate Stops<K(==)>(ks: seq<Slot<K>>, k: K, h: int, n: int)
    requires |ks| > 0
  {
    var s := ks[Probe(h, n, |ks|)];
    s.Null? || (s.Key? && s.key == k)
  }

  /** The first probe step, from step n on and below 2^32, at which a loop
      looking for k from home slot h stops; `None` when there is none, and
      then, the probe sequence being periodic, the loop never stops. */
  function Scan<K(==)>(ks: seq<Slot<K>>, k: K, h: int, n: nat): (r: Option<nat>)
    requires |ks| > 0
    decreases Period - n
    ensures r.Some? ==> n <= r.value < Period && Stops(ks, k, h, r.value)
    ensures forall m :: n <= m < (if r.Some? then r.value else Period) ==> !Stops(ks, k, h, m)
  {
    if n >= Period then None
    else if Stops(ks, k, h, n) then Some(n)
    else Scan(ks, k, h, n + 1)
  }

  /** The first probe step in [n, m) that meets a tombstone: the `j` that
      `insert` and `get` record. */
  function FirstTomb<K>(ks: seq<Slot<K>>, h: int, n: nat, m: nat): (r: Option<nat>)
    requires |ks| > 0 && n <= m
    decreases m - n
    ensures r.Some? ==> n <= r.value < m && ks[Probe(h, r.value, |ks|)].Tombstone?
    ensures forall q :: n <= q < (if r.Some? then r.value else m) ==> !ks[Probe(h, q, |ks|)].Tombstone?
  {
    if n == m then None
    else if ks[Probe(h, n, |ks|)].Tombstone? then Some(n)
    else FirstTomb(ks, h, n + 1, m)
  }

  /** The tombstone steps below m + 1 are those below m, and m itself if its
      slot is a tombstone. */
  lemma {:induction false} FirstTombNext<K>(ks: seq<Slot<K>>, h: int, m: nat)
    requires |ks| > 0
    ensures var r := FirstTomb(ks, h, 0, m);
            FirstTomb(ks, h, 0, m + 1) ==
              if r.Some? then r
              else if ks[Probe(h, m, |ks|)].Tombstone? then Some(m) else None
  {
    var r := FirstTomb(ks, h, 0, m);
    var r' := FirstTomb(ks, h, 0, m + 1);
    if r.Some? {
      assert r' == r;
    } else if ks[Probe(h, m, |ks|)].Tombstone? {
      assert r' == Some(m);
    } else {
      assert r' == None;
    }
  }

  /** When no stopping step lies below 2^32, none lies anywhere: the Java
      loop runs forever. */
  lemma NeverStops<K>(ks: seq<Slot<K>>, k: K, h: int, n: nat)
    requires |ks| > 0 && Scan(ks, k, h, 0) == None
    ensures !Stops(ks, k, h, n)
  {
    ProbePeriodic(h, n, |ks|);
    assert !Stops(ks, k, h, n % Period);
  }

  /** No probe before step n meets a `null` slot. */
  ghost predicate PathClear<K>(ks: seq<Slot<K>>, h: int, n: int)
    requires |ks| > 0
  {
    forall m :: 0 <= m < n ==> !ks[Probe(h, m, |ks|)].Null?
  }

  /** The probe invariant: the key in each live slot i is met by the probe
      sequence from its home slot at step `steps[i]`, below 2^32, with no
      `null` slot before it. */
  ghost predicate Reachable<K>(ks: seq<Slot<K>>, hash: K -> Int32, steps: seq<int>)
    requires |ks| > 0
  {
    && |steps| == |ks|
    && forall i :: 0 <= i < |ks| && ks[i].Key? ==>
         var h := Home(hash, ks[i].key, |ks|);
         0 <= steps[i] < Period && Probe(h, steps[i], |ks|) == i && PathClear(ks, h, steps[i])
  }

  /** A key in the table is found: the probe loop from its home slot stops,
      below 2^32, at the slot holding it. */
  lemma {:induction false} ScanFinds<K>(ks: seq<Slot<K>>, hash: K -> Int32, steps: seq<int>, s: int)
    requires |ks| > 0 && Distinct(ks) && Reachable(ks, hash, steps)
    requires 0 <= s < |ks| && ks[s].Key?
    ensures var h := Home(hash, ks[s].key, |ks|);
            var r := Scan(ks, ks[s].key, h, 0);
            r.Some? && r.value <= steps[s] && Probe(h, r.value, |ks|) == s
  {
    var k := ks[s].key;
    var h := Home(hash, k, |ks|);
    var t := steps[s];
    var r := Scan(ks, k, h, 0);
    assert Stops(ks, k, h, t);
    assert r.Some? && r.value <= t;
    var slot := Probe(h, r.value, |ks|);
    if r.value < t {
      assert !ks[slot].Null?;
    }
    assert ks[slot] == Key(k);
  }

  /** A key not in the table is never found: the probe loop, if it stops,
      stops at a `null` slot. */
  lemma ScanMisses<K, V>(ks: seq<Slot<K>>, vs: seq<Option<V>>, k: K, h: int)
    requires |ks| > 0 && Paired(ks, vs) && Distinct(ks) && k !in LiveMap(ks, vs)
    ensures var r := Scan(ks, k, h, 0);
            r.Some? ==> ks[Probe(h, r.value, |ks|)].Null?
  {
    var r := Scan(ks, k, h, 0);
    if r.Some? {
      var i := Probe(h, r.value, |ks|);
      if ks[i].Key? {
        LiveMapAt(ks, vs, i);
      }
    }
  }

  // ---------------------------------------------------------------------
  // Slot updates

  /** Turning one non-`null` slot into another non-`null` slot keeps every
      probe path clear. */
  lemma ClearKept<K>(ks: seq<Slot<K>>, ks': seq<Slot<K>>, h: int, n: int)
    requires |ks| > 0 && |ks'| == |ks| && PathClear(ks, h, n)
    requires forall i :: 0 <= i < |ks| && !ks[i].Null? ==> !ks'[i].Null?
    ensures PathClear(ks', h, n)
  {
    forall m | 0 <= m < n
      ensures !ks'[Probe(h, m, |ks|)].Null?
    {
      assert !ks[Probe(h, m, |ks|)].Null?;
    }
  }

  /** The probe invariant survives an update that makes no slot `null` and
      gives each newly filled slot a step at which its key is reached. */
  lemma ReachableKept<K>(ks: seq<Slot<K>>, ks': seq<Slot<K>>, hash: K -> Int32, steps: seq<int>, steps': seq<int>)
    requires |ks| > 0 && |ks'| == |ks| && |steps'| == |ks| && Reachable(ks, hash, steps)
    requires forall i :: 0 <= i < |ks| && !ks[i].Null? ==> !ks'[i].Null?
    requires forall i :: 0 <= i < |ks| && ks'[i].Key? ==>
      (ks'[i] == ks[i] && steps'[i] == steps[i]) ||
      (var h := Home(hash, ks'[i].key, |ks|);
       0 <= steps'[i] < Period && Probe(h, steps'[i], |ks|) == i && PathClear(ks, h, steps'[i]))
    ensures Reachable(ks', hash, steps')
  {
    forall i | 0 <= i < |ks| && ks'[i].Key?
      ensures var h := Home(hash, ks'[i].key, |ks'|);
              0 <= steps'[i] < Period && Probe(h, steps'[i], |ks'|) == i && PathClear(ks', h, steps'[i])
    {
      ClearKept(ks, ks', Home(hash, ks'[i].key, |ks|), steps'[i]);
    }
  }

  /** Writing slot t changes the live and used slot sets at t alone. */
  lemma SlotSets<K>(ks: seq<Slot<K>>, t: int, x: Slot<K>)
    requires 0 <= t < |ks|
    ensures LiveSlots(ks[t := x]) == LiveSlots(ks) - {t} + (if x.Key? then {t} else {})
    ensures UsedSlots(ks[t := x]) == UsedSlots(ks) - {t} + (if x.Null? then {} else {t})
  {
  }

  /** Lines 105-114: a key not in the table goes into slot t, a `null` slot
      or a tombstone that its probe sequence reaches at step n with no
      `null` slot before. The table stays consistent, the map gains the
      binding, one more slot is live, and the slot is used. */
  lemma PlaceValid<K, V>(ks: seq<Slot<K>>, vs: seq<Option<V>>, hash: K -> Int32, steps: seq<int>, t: int, k: K, v: V, n: int)
    requires |ks| > 0 && Paired(ks, vs) && Distinct(ks) && Reachable(ks, hash, steps)
    requires 0 <= t < |ks| && !ks[t].Key? && k !in LiveMap(ks, vs)
    requires 0 <= n < Period && Probe(Home(hash, k, |ks|), n, |ks|) == t && PathClear(ks, Home(hash, k, |ks|), n)
    ensures var ks' := ks[t := Key(k)];
            var vs' := vs[t := Some(v)];
            && Paired(ks', vs') && Distinct(ks') && Reachable(ks', hash, steps[t := n])
            && LiveMap(ks', vs') == LiveMap(ks, vs)[k := v]
            && |LiveSlots(ks')| == |LiveSlots(ks)| + 1
            && |UsedSlots(ks')| == |UsedSlots(ks)| + (if ks[t].Null? then 1 else 0)
  {
    PlaceShape(ks, vs, t, k, v);
    ReachableKept(ks, ks[t := Key(k)], hash, steps, steps[t := n]);
    PlaceMap(ks, vs, t, k, v);
    PlaceCount(ks, t, k);
  }

  lemma PlaceShape<K, V>(ks: seq<Slot<K>>, vs: seq<Option<V>>, t: int, k: K, v: V)
    requires Paired(ks, vs) && Distinct(ks)
    requires 0 <= t < |ks| && !ks[t].Key? && k !in LiveMap(ks, vs)
    ensures Paired(ks[t := Key(k)], vs[t := Some(v)]) && Distinct(ks[t := Key(k)])
  {
    forall i | 0 <= i < |ks| && i != t && ks[i].Key?
      ensures ks[i].key != k
    {
      LiveMapAt(ks, vs, i);
    }
  }

  lemma PlaceMap<K, V>(ks: seq<Slot<K>>, vs: seq<Option<V>>, t: int, k: K, v: V)
    requires Paired(ks, vs) && Distinct(ks)
    requires 0 <= t < |ks| && !ks[t].Key? && k !in LiveMap(ks, vs)
    requires Paired(ks[t := Key(k)], vs[t := Some(v)]) && Distinct(ks[t := Key(k)])
    ensures LiveMap(ks[t := Key(k)], vs[t := Some(v)]) == LiveMap(ks, vs)[k := v]
  {
    var ks' := ks[t := Key(k)];
    var vs' := vs[t := Some(v)];
    LiveMapAt(ks', vs', t);
    forall q | q in LiveMap(ks', vs')
      ensures q in LiveMap(ks, vs)[k := v] && LiveMap(ks', vs')[q] == LiveMap(ks, vs)[k := v][q]
    {
      var i := LiveMapWhere(ks', vs', q);
      if i != t {
        LiveMapAt(ks, vs, i);
      }
    }
    forall q | q in LiveMap(ks, vs)
      ensures q in LiveMap(ks', vs')
    {
      var i := LiveMapWhere(ks, vs, q);
      LiveMapAt(ks', vs', i);
    }
  }

  lemma PlaceCount<K>(ks: seq<Slot<K>>, t: int, k: K)
    requires 0 <= t < |ks| && !ks[t].Key?
    ensures |LiveSlots(ks[t := Key(k)])| == |LiveSlots(ks)| + 1
    ensures |UsedSlots(ks[t := Key(k)])| == |UsedSlots(ks)| + (if ks[t].Null? then 1 else 0)
  {
    SlotSets(ks, t, Key(k));
    assert t !in LiveSlots(ks);
    if ks[t].Null? {
      assert t !in UsedSlots(ks);
    } else {
      assert t in UsedSlots(ks);
    }
  }

  /** Line 91: the value of the live slot s is overwritten. */
  lemma OverwriteValid<K, V>(ks: seq<Slot<K>>, vs: seq<Option<V>>, s: int, v: V)
    requires Paired(ks, vs) && Distinct(ks) && 0 <= s < |ks| && ks[s].Key?
    ensures Paired(ks, vs[s := Some(v)])
    ensures LiveMap(ks, vs[s := Some(v)]) == LiveMap(ks, vs)[ks[s].key := v]
  {
    var vs' := vs[s := Some(v)];
    LiveMapAt(ks, vs', s);
    forall q | q in LiveMap(ks, vs')
      ensures q in LiveMap(ks, vs)[ks[s].key := v] && LiveMap(ks, vs')[q] == LiveMap(ks, vs)[ks[s].key := v][q]
    {
      var i := LiveMapWhere(ks, vs', q);
      LiveMapAt(ks, vs, i);
    }
    forall q | q in LiveMap(ks, vs)
      ensures q in LiveMap(ks, vs')
    {
      var i := LiveMapWhere(ks, vs, q);
      LiveMapAt(ks, vs', i);
    }
  }

  /** Lines 94-97 and 148-152: the key of the live slot s moves, with value
      v, to the tombstone t that its probe sequence reaches at step n with
      no `null` slot before, and s becomes a tombstone. The map rebinds the
      key to v; the live and used slot counts stay. */
  lemma MoveValid<K, V>(ks: seq<Slot<K>>, vs: seq<Option<V>>, hash: K -> Int32, steps: seq<int>, s: int, t: int, v: V, n: int)
    requires |ks| > 0 && Paired(ks, vs) && Distinct(ks) && Reachable(ks, hash, steps)
    requires 0 <= s < |ks| && ks[s].Key? && 0 <= t < |ks| && ks[t].Tombstone?
    requires var h := Home(hash, ks[s].key, |ks|);
             0 <= n < Period && Probe(h, n, |ks|) == t && PathClear(ks, h, n)
    ensures var ks' := ks[s := Tombstone][t := ks[s]];
            var vs' := vs[s := None][t := Some(v)];
            && Paired(ks', vs') && Distinct(ks') && Reachable(ks', hash, steps[t := n])
            && LiveMap(ks', vs') == LiveMap(ks, vs)[ks[s].key := v]
            && |LiveSlots(ks')| == |LiveSlots(ks)|
            && |UsedSlots(ks')| == |UsedSlots(ks)|
  {
    var k := ks[s].key;
    var h := Home(hash, k, |ks|);
    var ks1, vs1 := ks[s := Tombstone], vs[s := None];
    DeleteValid(ks, vs, hash, steps, s);
    ClearKept(ks, ks1, h, n);
    PlaceValid(ks1, vs1, hash, steps, t, k, v, n);
    RebindMap(LiveMap(ks, vs), k, v);
  }

  lemma RebindMap<K, V>(m: map<K, V>, k: K, v: V)
    ensures (m - {k})[k := v] == m[k := v]
  {
  }

  /** Lines 178-182: the live slot s becomes a tombstone. The key leaves
      the map and one slot fewer is live; the used slots stay. */
  lemma DeleteValid<K, V>(ks: seq<Slot<K>>, vs: seq<Option<V>>, hash: K -> Int32, steps: seq<int>, s: int)
    requires |ks| > 0 && Paired(ks, vs) && Distinct(ks) && Reachable(ks, hash, steps)
    requires 0 <= s < |ks| && ks[s].Key?
    ensures var ks' := ks[s := Tombstone];
            var vs' := vs[s := None];
            && Paired(ks', vs') && Distinct(ks') && Reachable(ks', hash, steps)
            && LiveMap(ks', vs') == LiveMap(ks, vs) - {ks[s].key}
            && |LiveSlots(ks')| == |LiveSlots(ks)| - 1
            && UsedSlots(ks') == UsedSlots(ks)
  {
    ReachableKept(ks, ks[s := Tombstone], hash, steps, steps);
    DeleteMap(ks, vs, s);
    DeleteCount(ks, s);
  }

  lemma DeleteMap<K, V>(ks: seq<Slot<K>>, vs: seq<Option<V>>, s: int)
    requires Paired(ks, vs) && Distinct(ks) && 0 <= s < |ks| && ks[s].Key?
    ensures Paired(ks[s := Tombstone], vs[s := None]) && Distinct(ks[s := Tombstone])
    ensures LiveMap(ks[s := Tombstone], vs[s := None]) == LiveMap(ks, vs) - {ks[s].key}
  {
    var k := ks[s].key;
    var ks' := ks[s := Tombstone];
    var vs' := vs[s := None];
    forall q | q in LiveMap(ks', vs')
      ensures q in LiveMap(ks, vs) - {k} && LiveMap(ks', vs')[q] == LiveMap(ks, vs)[q]
    {
      var i := LiveMapWhere(ks', vs', q);
      LiveMapAt(ks, vs, i);
    }
    forall q | q in LiveMap(ks, vs) && q != k
      ensures q in LiveMap(ks', vs')
    {
      var i := LiveMapWhere(ks, vs, q);
      LiveMapAt(ks', vs', i);
    }
  }

  lemma DeleteCount<K>(ks: seq<Slot<K>>, s: int)
    requires 0 <= s < |ks| && ks[s].Key?
    ensures |LiveSlots(ks[s := Tombstone])| == |LiveSlots(ks)| - 1
    ensures UsedSlots(ks[s := Tombstone]) == UsedSlots(ks)
  {
    SlotSets(ks, s, Tombstone);
    assert s in LiveSlots(ks) && s in UsedSlots(ks);
  }

  // ---------------------------------------------------------------------
  // What the probe loops find

  /** Steps at which the loop does not stop can be skipped. */
  lemma {:induction false} ScanSkip<K>(ks: seq<Slot<K>>, k: K, h: int, a: nat, b: nat)
    requires |ks| > 0 && a <= b <= Period
    requires forall m :: a <= m < b ==> !Stops(ks, k, h, m)
    ensures Scan(ks, k, h, a) == Scan(ks, k, h, b)
    decreases b - a
  {
    if a < b {
      ScanSkip(ks, k, h, a + 1, b);
    }
  }

  /** The slot of the first tombstone before step n, or -1: the `j` of
      `insert` and `get`. */
  function TombSlot<K>(ks: seq<Slot<K>>, h: int, n: nat): (j: int)
    requires |ks| > 0
    ensures j == -1 || (0 <= j < |ks| && ks[j].Tombstone?)
  {
    var ft := FirstTomb(ks, h, 0, n);
    if ft.Some? then Probe(h, ft.value, |ks|) else -1
  }

  /** A key is in the table exactly when the probe loop stops at a live
      slot, and that slot then holds the key and its value; otherwise the
      loop stops at a `null` slot or never. */
  lemma Lookup<K, V>(ks: seq<Slot<K>>, vs: seq<Option<V>>, hash: K -> Int32, steps: seq<int>, k: K)
    requires |ks| > 0 && Paired(ks, vs) && Distinct(ks) && Reachable(ks, hash, steps)
    ensures var h := Home(hash, k, |ks|);
            var r := Scan(ks, k, h, 0);
            && (k in LiveMap(ks, vs) <==> r.Some? && ks[Probe(h, r.value, |ks|)].Key?)
            && (k in LiveMap(ks, vs) ==>
                  ks[Probe(h, r.value, |ks|)] == Key(k) && vs[Probe(h, r.value, |ks|)] == Some(LiveMap(ks, vs)[k]))
            && (k !in LiveMap(ks, vs) && r.Some? ==> ks[Probe(h, r.value, |ks|)].Null?)
  {
    if k in LiveMap(ks, vs) {
      var s := LiveMapWhere(ks, vs, k);
      ScanFinds(ks, hash, steps, s);
    } else {
      ScanMisses(ks, vs, k, Home(hash, k, |ks|));
    }
  }

  /** No tombstone anywhere: a freshly built or resized table. */
  ghost predicate NoTombs<K>(ks: seq<Slot<K>>)
  {
    forall i :: 0 <= i < |ks| ==> !ks[i].Tombstone?
  }

  // ---------------------------------------------------------------------
  // The tables after each operation

  /** Lines 80-120: the two tables after `insert` writes the pair (k, v)
      where its probe loop stops. A live slot (the key itself) gets the new
      value, or, past a tombstone, the pair moves into the first tombstone
      and the old slot becomes one; a `null` slot, or the first tombstone
      before it, receives the pair. */
  ghost function Inserted<K, V>(ks: seq<Slot<K>>, vs: seq<Option<V>>, k: K, v: V, h: int): (seq<Slot<K>>, seq<Option<V>>)
    requires |ks| > 0 && |vs| == |ks| && Scan(ks, k, h, 0).Some?
  {
    var n := Scan(ks, k, h, 0).value;
    Written(ks, vs, Probe(h, n, |ks|), TombSlot(ks, h, n), k, v)
  }

  /** The writes of lines 88-117 once the loop has stopped at slot i,
      having passed the first tombstone j (-1 for none). */
  function Written<K, V>(ks: seq<Slot<K>>, vs: seq<Option<V>>, i: int, j: int, k: K, v: V): (seq<Slot<K>>, seq<Option<V>>)
    requires |vs| == |ks| && 0 <= i < |ks| && -1 <= j < |ks|
  {
    if ks[i].Key? then
      if j == -1 then (ks, vs[i := Some(v)])
      else (ks[i := Tombstone][j := Key(k)], vs[i := None][j := Some(v)])
    else if j == -1 then (ks[i := Key(k)], vs[i := Some(v)])
    else (ks[j := Key(k)], vs[j := Some(v)])
  }

  /** The loop of `resizeTable` (lines 228-230) on values: from the new
      arrays (tk, tv), the live pairs of old slots i, i + 1, ... are
      inserted in turn, as `insert` writes them. `None` when one of those
      inserts finds no slot to stop at, where Java loops forever. */
  ghost function Refill<K, V>(ks: seq<Slot<K>>, vs: seq<Option<V>>, i: nat,
                                  tk: seq<Slot<K>>, tv: seq<Option<V>>, hash: K -> Int32)
    : (r: Option<(seq<Slot<K>>, seq<Option<V>>)>)
    requires Paired(ks, vs) && i <= |ks| && |tk| > 0 && |tv| == |tk|
    ensures r.Some? ==> |r.value.0| == |r.value.1| == |tk|
    decreases |ks| - i
  {
    if i == |ks| then Some((tk, tv))
    else if ks[i].Key? then
      var k := ks[i].key;
      var h := Home(hash, k, |tk|);
      if Scan(tk, k, h, 0).None? then None
      else
        var t := Inserted(tk, tv, k, vs[i].value, h);
        Refill(ks, vs, i + 1, t.0, t.1, hash)
    else Refill(ks, vs, i + 1, tk, tv, hash)
  }

  /** One turn of the refill: a dead old slot i changes nothing; a live
      one is inserted, unless its probe loop never stops. */
  lemma RefillStep<K, V>(ks: seq<Slot<K>>, vs: seq<Option<V>>, i: nat,
                         tk: seq<Slot<K>>, tv: seq<Option<V>>, hash: K -> Int32)
    requires Paired(ks, vs) && i < |ks| && |tk| > 0 && |tv| == |tk|
    ensures !ks[i].Key? ==> Refill(ks, vs, i, tk, tv, hash) == Refill(ks, vs, i + 1, tk, tv, hash)
    ensures ks[i].Key? && Scan(tk, ks[i].key, Home(hash, ks[i].key, |tk|), 0).None? ==> Refill(ks, vs, i, tk, tv, hash) == None
    ensures ks[i].Key? && Scan(tk, ks[i].key, Home(hash, ks[i].key, |tk|), 0).Some? ==>
              var t := Inserted(tk, tv, ks[i].key, vs[i].value, Home(hash, ks[i].key, |tk|));
              Refill(ks, vs, i, tk, tv, hash) == Refill(ks, vs, i + 1, t.0, t.1, hash)
  {
  }

  /** One re-insertion took the refill from (tk, tv) at old slot i to
      (tk', tv') at slot i + 1 (ok), or never stopped (not ok). */
  ghost predicate RefillsTo<K, V>(ks: seq<Slot<K>>, vs: seq<Option<V>>, i: nat, tk: seq<Slot<K>>, tv: seq<Option<V>>,
                                  tk': seq<Slot<K>>, tv': seq<Option<V>>, hash: K -> Int32, ok: bool)
    requires Paired(ks, vs) && i < |ks| && |tk| > 0 && |tv| == |tk| && |tk'| > 0 && |tv'| == |tk'|
  {
    Refill(ks, vs, i, tk, tv, hash) == if ok then Refill(ks, vs, i + 1, tk', tv', hash) else None
  }

  /** Whether `insert` of k returns on a table whose `usedBuckets` has
      reached the threshold: `resizeTable` refills arrays of twice the
      length without a probe loop that never stops, and then the probe
      loop for k stops in the refilled arrays. */
  ghost predicate GrowInsertStops<K, V>(ks: seq<Slot<K>>, vs: seq<Option<V>>, k: K, hash: K -> Int32)
    requires Paired(ks, vs) && |ks| > 0
  {
    var t := Refill(ks, vs, 0, seq(2 * |ks|, _ => Null), seq(2 * |ks|, _ => None), hash);
    t.Some? && Scan(t.value.0, k, Home(hash, k, 2 * |ks|), 0).Some?
  }

  /** Lines 144-156: the two tables after `get` finds its key; past a
      tombstone the pair moves into the first tombstone. */
  ghost function Relocated<K, V>(ks: seq<Slot<K>>, vs: seq<Option<V>>, k: K, h: int): (seq<Slot<K>>, seq<Option<V>>)
    requires |ks| > 0 && |vs| == |ks| && Scan(ks, k, h, 0).Some?
  {
    var n := Scan(ks, k, h, 0).value;
    Moved(ks, vs, Probe(h, n, |ks|), TombSlot(ks, h, n))
  }

  /** The writes of lines 147-152 once the loop has found its key in slot
      i, having passed the first tombstone j (-1 for none). */
  function Moved<K, V>(ks: seq<Slot<K>>, vs: seq<Option<V>>, i: int, j: int): (seq<Slot<K>>, seq<Option<V>>)
    requires |vs| == |ks| && 0 <= i < |ks| && -1 <= j < |ks|
  {
    if j == -1 then (ks, vs) else (ks[j := ks[i]][i := Tombstone], vs[j := vs[i]][i := None])
  }

  /** Lines 177-183: the two tables after `remove` finds its key: the slot
      becomes a tombstone and its value `null`. */
  ghost function Removed<K, V>(ks: seq<Slot<K>>, vs: seq<Option<V>>, k: K, h: int): (seq<Slot<K>>, seq<Option<V>>)
    requires |ks| > 0 && |vs| == |ks| && Scan(ks, k, h, 0).Some?
  {
    var i := Probe(h, Scan(ks, k, h, 0).value, |ks|);
    (ks[i := Tombstone], vs[i := None])
  }

  // ---------------------------------------------------------------------
  // Counting and listing the live slots

  /** The live keys in slot order: what `keys()` lists. */
  ghost function LiveKeys<K>(ks: seq<Slot<K>>): seq<K>
    decreases |ks|
  {
    if |ks| == 0 then []
    else LiveKeys(ks[..|ks| - 1]) + (if ks[|ks| - 1].Key? then [ks[|ks| - 1].key] else [])
  }

  /** The values of the live slots in slot order: what `values()` lists. */
  ghost function LiveValues<K, V>(ks: seq<Slot<K>>, vs: seq<Option<V>>): seq<V>
    requires |ks| == |vs|
    decreases |ks|
  {
    if |ks| == 0 then []
    else
      var last, value := ks[|ks| - 1], vs[|vs| - 1];
      LiveValues(ks[..|ks| - 1], vs[..|vs| - 1]) + (if last.Key? && value.Some? then [value.value] else [])
  }

  /** The live slots of a prefix one longer. */
  lemma LiveSlotsSnoc<K>(ks: seq<Slot<K>>, i: int)
    requires 0 <= i < |ks|
    ensures LiveSlots(ks[..i + 1]) == LiveSlots(ks[..i]) + (if ks[i].Key? then {i} else {})
  {
  }

  /** A prefix of a consistent table is consistent. */
  lemma PrefixValid<K, V>(ks: seq<Slot<K>>, vs: seq<Option<V>>, n: int)
    requires Paired(ks, vs) && Distinct(ks) && 0 <= n <= |ks|
    ensures Paired(ks[..n], vs[..n]) && Distinct(ks[..n])
  {
  }

  /** The key of a live slot is not live before it. */
  lemma LastIsNew<K, V>(ks: seq<Slot<K>>, vs: seq<Option<V>>, n: int)
    requires Paired(ks, vs) && Distinct(ks) && 0 <= n < |ks| && ks[n].Key?
    ensures ks[n].key !in LiveMap(ks[..n], vs[..n])
  {
    PrefixValid(ks, vs, n);
    if ks[n].key in LiveMap(ks[..n], vs[..n]) {
      var i := LiveMapWhere(ks[..n], vs[..n], ks[n].key);
    }
  }

  /** The keys listed, the values listed, the live slots and the map all
      have the same size. */
  lemma {:induction false} LiveCount<K, V>(ks: seq<Slot<K>>, vs: seq<Option<V>>)
    requires Paired(ks, vs) && Distinct(ks)
    ensures |LiveKeys(ks)| == |LiveValues(ks, vs)| == |LiveSlots(ks)| == |LiveMap(ks, vs)|
    decreases |ks|
  {
    if |ks| > 0 {
      var n := |ks| - 1;
      PrefixValid(ks, vs, n);
      LiveCount(ks[..n], vs[..n]);
      LiveSlotsSnoc(ks, n);
      assert ks[..n + 1] == ks;
      if ks[n].Key? {
        LastIsNew(ks, vs, n);
      }
    }
  }

  /** The listed keys are exactly the map's keys, each listed beside its
      value, and no key is listed twice. */
  lemma {:induction false} LiveListed<K, V>(ks: seq<Slot<K>>, vs: seq<Option<V>>)
    requires Paired(ks, vs) && Distinct(ks)
    ensures |LiveKeys(ks)| == |LiveValues(ks, vs)|
    ensures forall q :: q in LiveMap(ks, vs) <==> q in LiveKeys(ks)
    ensures forall a :: 0 <= a < |LiveKeys(ks)| ==>
              LiveKeys(ks)[a] in LiveMap(ks, vs) && LiveMap(ks, vs)[LiveKeys(ks)[a]] == LiveValues(ks, vs)[a]
    ensures forall a, b :: 0 <= a < b < |LiveKeys(ks)| ==> LiveKeys(ks)[a] != LiveKeys(ks)[b]
    decreases |ks|
  {
    if |ks| > 0 {
      var n := |ks| - 1;
      PrefixValid(ks, vs, n);
      LiveListed(ks[..n], vs[..n]);
      if ks[n].Key? {
        LastIsNew(ks, vs, n);
      }
    }
  }

  /** Before the step where the probe loop stops, no slot is `null`. */
  lemma ClearBefore<K>(ks: seq<Slot<K>>, k: K, h: int, n: nat, m: nat)
    requires |ks| > 0 && Scan(ks, k, h, 0) == Some(n) && m <= n
    ensures PathClear(ks, h, m)
  {
    forall q | 0 <= q < m
      ensures !ks[Probe(h, q, |ks|)].Null?
    {
      assert !Stops(ks, k, h, q);
    }
  }

  /** Whether `insert` passes a tombstone before the step where it stops. */
  ghost function PassesTomb<K>(ks: seq<Slot<K>>, k: K, h: int): bool
    requires |ks| > 0 && Scan(ks, k, h, 0).Some?
  {
    TombSlot(ks, h, Scan(ks, k, h, 0).value) != -1
  }

  /** What the two arrays and the two counters of a table satisfy between
      operations. */
  ghost predicate Consistent<K, V>(ks: seq<Slot<K>>, vs: seq<Option<V>>, hash: K -> Int32, steps: seq<int>, keyCount: int, usedBuckets: int)
  {
    && |ks| > 0 && Paired(ks, vs) && Distinct(ks) && Reachable(ks, hash, steps)
    && keyCount == |LiveSlots(ks)| && usedBuckets == |UsedSlots(ks)|
  }

  /** `insert`'s probe loop, when it stops, keeps the table consistent:
      the map gains the binding, `keyCount` grows for a new key and
      `usedBuckets` for a new key that reuses no tombstone. */
  lemma InsertStep<K, V>(ks: seq<Slot<K>>, vs: seq<Option<V>>, hash: K -> Int32, steps: seq<int>, kc: int, ub: int,
                         k: K, v: V, n: nat, i: int, j: int)
    returns (steps': seq<int>)
    requires Consistent(ks, vs, hash, steps, kc, ub)
    requires Scan(ks, k, Home(hash, k, |ks|), 0) == Some(n)
    requires i == Probe(Home(hash, k, |ks|), n, |ks|) && j == TombSlot(ks, Home(hash, k, |ks|), n)
    ensures var t := Written(ks, vs, i, j, k, v);
            && Consistent(t.0, t.1, hash, steps', kc + (if ks[i].Key? then 0 else 1),
                          ub + (if ks[i].Key? || j != -1 then 0 else 1))
            && LiveMap(t.0, t.1) == LiveMap(ks, vs)[k := v]
    ensures ks[i].Key? <==> k in LiveMap(ks, vs)
    ensures ks[i].Key? ==> vs[i] == Some(LiveMap(ks, vs)[k])
    ensures j != -1 <==> PassesTomb(ks, k, Home(hash, k, |ks|))
  {
    var h := Home(hash, k, |ks|);
    var tomb := FirstTomb(ks, h, 0, n);
    Lookup(ks, vs, hash, steps, k);
    if ks[i].Key? {
      if j == -1 {
        OverwriteValid(ks, vs, i, v);
        steps' := steps;
      } else {
        ClearBefore(ks, k, h, n, tomb.value);
        MoveValid(ks, vs, hash, steps, i, j, v, tomb.value);
        steps' := steps[j := tomb.value];
      }
    } else {
      if j == -1 {
        ClearBefore(ks, k, h, n, n);
        PlaceValid(ks, vs, hash, steps, i, k, v, n);
        steps' := steps[i := n];
      } else {
        ClearBefore(ks, k, h, n, tomb.value);
        PlaceValid(ks, vs, hash, steps, j, k, v, tomb.value);
        steps' := steps[j := tomb.value];
      }
    }
  }

  /** `get`'s relocation past a tombstone keeps the table consistent and
      changes neither the map nor the counters. */
  lemma RelocateStep<K, V>(ks: seq<Slot<K>>, vs: seq<Option<V>>, hash: K -> Int32, steps: seq<int>, kc: int, ub: int,
                           k: K, n: nat, i: int, j: int)
    returns (steps': seq<int>)
    requires Consistent(ks, vs, hash, steps, kc, ub)
    requires Scan(ks, k, Home(hash, k, |ks|), 0) == Some(n)
    requires i == Probe(Home(hash, k, |ks|), n, |ks|) && j == TombSlot(ks, Home(hash, k, |ks|), n)
    requires ks[i].Key?
    ensures var t := Moved(ks, vs, i, j);
            Consistent(t.0, t.1, hash, steps', kc, ub) && LiveMap(t.0, t.1) == LiveMap(ks, vs)
  {
    var h := Home(hash, k, |ks|);
    Lookup(ks, vs, hash, steps, k);
    if j == -1 {
      steps' := steps;
    } else {
      var tomb := FirstTomb(ks, h, 0, n);
      var v := vs[i].value;
      ClearBefore(ks, k, h, n, tomb.value);
      MoveValid(ks, vs, hash, steps, i, j, v, tomb.value);
      SwapUpdates(ks, j, i, ks[i], Tombstone);
      SwapUpdates(vs, j, i, vs[i], None);
      RebindSame(LiveMap(ks, vs), k);
      steps' := steps[j := tomb.value];
    }
  }

  lemma SwapUpdates<T>(s: seq<T>, i: int, j: int, a: T, b: T)
    requires 0 <= i < |s| && 0 <= j < |s| && i != j
    ensures s[i := a][j := b] == s[j := b][i := a]
  {
  }

  lemma RebindSame<K, V>(m: map<K, V>, k: K)
    requires k in m
    ensures m[k := m[k]] == m
  {
  }

  /** `remove` turning the slot of its key into a tombstone keeps the table
      consistent with one key fewer and the same used slots. */
  lemma RemoveStep<K, V>(ks: seq<Slot<K>>, vs: seq<Option<V>>, hash: K -> Int32, steps: seq<int>, kc: int, ub: int,
                         k: K, n: nat, i: int)
    requires Consistent(ks, vs, hash, steps, kc, ub)
    requires Scan(ks, k, Home(hash, k, |ks|), 0) == Some(n)
    requires i == Probe(Home(hash, k, |ks|), n, |ks|) && ks[i].Key?
    ensures Consistent(ks[i := Tombstone], vs[i := None], hash, steps, kc - 1, ub)
    ensures LiveMap(ks[i := Tombstone], vs[i := None]) == LiveMap(ks, vs) - {k}
  {
    Lookup(ks, vs, hash, steps, k);
    DeleteValid(ks, vs, hash, steps, i);
  }

  /** A table with no used slot is the blank table `resizeTable` allocates. */
  lemma BlankTable<K, V>(ks: seq<Slot<K>>, vs: seq<Option<V>>)
    requires Paired(ks, vs) && UsedSlots(ks) == {}
    ensures ks == seq(|ks|, _ => Null) && vs == seq(|vs|, _ => None)
  {
    forall i | 0 <= i < |ks|
      ensures ks[i] == Null && vs[i] == None
    {
      assert i !in UsedSlots(ks);
    }
  }

  /** A table of `null` slots: what the constructor, `clear` and
      `resizeTable` start from. It is consistent with zero counts, stands
      for the empty map and holds no tombstone. */
  lemma EmptyTable<K, V>(ks: seq<Slot<K>>, vs: seq<Option<V>>, hash: K -> Int32, steps: seq<int>)
    requires |ks| > 0 && |vs| == |ks| && |steps| == |ks|
    requires forall i :: 0 <= i < |ks| ==> ks[i].Null? && vs[i].None?
    ensures Consistent(ks, vs, hash, steps, 0, 0) && LiveMap(ks, vs) == map[] && NoTombs(ks)
  {
    assert LiveSlots(ks) == {};
    assert UsedSlots(ks) == {};
    LiveCount(ks, vs);
  }

  /** In a table of `null` slots every probe loop stops at once. */
  lemma EmptyScan<K>(ks: seq<Slot<K>>, k: K, h: int)
    requires |ks| > 0 && forall i :: 0 <= i < |ks| ==> ks[i].Null?
    ensures Scan(ks, k, h, 0) == Some(0)
  {
    assert Stops(ks, k, h, 0);
  }

  /** Without tombstones, `insert` passes none and leaves none. */
  lemma InsertedNoTombs<K, V>(ks: seq<Slot<K>>, vs: seq<Option<V>>, k: K, v: V, h: int)
    requires |ks| > 0 && |vs| == |ks| && Scan(ks, k, h, 0).Some? && NoTombs(ks)
    ensures !PassesTomb(ks, k, h) && NoTombs(Inserted(ks, vs, k, v, h).0)
  {
    var n := Scan(ks, k, h, 0).value;
    var j := TombSlot(ks, h, n);
    assert j == -1;
  }

  /** The map of a prefix one slot longer. */
  lemma LiveMapSnoc<K, V>(ks: seq<Slot<K>>, vs: seq<Option<V>>, i: int)
    requires |ks| == |vs| && 0 <= i < |ks|
    ensures LiveMap(ks[..i + 1], vs[..i + 1]) ==
              if ks[i].Key? && vs[i].Some? then LiveMap(ks[..i], vs[..i])[ks[i].key := vs[i].value]
              else LiveMap(ks[..i], vs[..i])
  {
    assert ks[..i + 1][..i] == ks[..i];
    assert vs[..i + 1][..i] == vs[..i];
  }

  /** Live slots of a prefix are live slots of the whole, and live slots
      are used. */
  lemma SlotBounds<K>(ks: seq<Slot<K>>, i: int)
    requires 0 <= i <= |ks|
    ensures |LiveSlots(ks[..i])| <= |LiveSlots(ks)| <= |UsedSlots(ks)|
  {
    assert LiveSlots(ks[..i]) <= LiveSlots(ks);
    assert LiveSlots(ks) <= UsedSlots(ks);
    SubsetCard(LiveSlots(ks[..i]), LiveSlots(ks));
    SubsetCard(LiveSlots(ks), UsedSlots(ks));
  }

  /** A table never has more used slots than slots. */
  lemma {:induction false} UsedBound<K>(ks: seq<Slot<K>>)
    ensures |UsedSlots(ks)| <= |ks|
    decreases |ks|
  {
    if |ks| > 0 {
      var n := |ks| - 1;
      UsedBound(ks[..n]);
      assert UsedSlots(ks) <= UsedSlots(ks[..n]) + {n};
      SubsetCard(UsedSlots(ks), UsedSlots(ks[..n]) + {n});
    }
  }

  /** A table with `usedBuckets` at most its threshold fits, with a slot
      to spare, in twice its capacity: its live slots stay below the
      doubled threshold, which saturates at `IntMax` only for capacities
      far larger than the slot count. */
  lemma GrowRoom<K, V>(ks: seq<Slot<K>>, vs: seq<Option<V>>, hash: K -> Int32, steps: seq<int>, kc: int, ub: int,
                       capacity: int, num: int, den: int)
    requires Consistent(ks, vs, hash, steps, kc, ub) && |ks| == capacity < 0x4000_0000 && num > 0 && den > 0
    requires ub <= Threshold(capacity, num, den) && Threshold(capacity, num, den) >= 1
    ensures kc == |LiveSlots(ks)| == |LiveMap(ks, vs)| < Threshold(2 * capacity, num, den)
  {
    LiveCount(ks, vs);
    SlotBounds(ks, |ks|);
    UsedBound(ks);
    ThresholdGrows(capacity, num, den);
  }

  lemma SubsetCard(a: set<int>, b: set<int>)
    requires a <= b
    ensures |a| <= |b|
  {
    assert b == a + (b - a);
  }

  // ---------------------------------------------------------------------
  // The table object

  class HashTableQuadraticProbing<K(==), V> {
    /** The keys' `hashCode`. */
    const hash: K -> Int32
    /** `loadFactor`, as the fraction loadNum / loadDen. */
    const loadNum: int
    const loadDen: int
    var capacity: int
    var threshold: int
    var modificationCount: int
    /** Slots that are not `null`, tombstones included. */
    var usedBuckets: int
    /** Slots that hold a key. */
    var keyCount: int
    var keyTable: array<Slot<K>>
    var valueTable: array<Option<V>>
    var containsFlag: bool
    /** For each live slot, the probe step at which its key reaches it. */
    ghost var steps: seq<int>

    ghost predicate Valid()
      reads this`capacity, this`threshold, this`usedBuckets, this`keyCount, this`keyTable, this`valueTable, this`steps, keyTable, valueTable
    {
      && loadNum > 0 && loadDen > 0
      && DefaultCapacity <= capacity < 0x8000_0000
      && keyTable.Length == capacity && valueTable.Length == capacity
      && keyTable as object != valueTable as object
      && threshold == Threshold(capacity, loadNum, loadDen) && threshold >= 1
      && usedBuckets <= threshold
      && Consistent(keyTable[..], valueTable[..], hash, steps, keyCount, usedBuckets)
    }

    /** The key-to-value map the table stands for. */
    ghost function Mapping(): map<K, V>
      reads this`keyTable, this`valueTable, keyTable, valueTable
      requires keyTable.Length == valueTable.Length
    {
      LiveMap(keyTable[..], valueTable[..])
    }

    /** `HashTableQuadraticProbing(capacity, loadFactor)` when both are
        legal: `max(capacity, DEFAULT_CAPACITY)` slots, all `null`, and
        zero counts. */
    constructor (initialCapacity: int, num: int, den: int, hashCode: K -> Int32)
      requires 0 < initialCapacity < 0x8000_0000 && num > 0 && den > 0
      requires Threshold(Max(initialCapacity, DefaultCapacity), num, den) >= 1
      ensures Valid() && fresh(keyTable) && fresh(valueTable)
      ensures capacity == Max(initialCapacity, DefaultCapacity)
      ensures loadNum == num && loadDen == den && hash == hashCode
      ensures keyCount == 0 && usedBuckets == 0 && modificationCount == 0 && !containsFlag
      ensures Mapping() == map[]
      ensures forall i :: 0 <= i < capacity ==> keyTable[i].Null? && valueTable[i].None?
    {
      hash := hashCode;
      loadNum := num;
      loadDen := den;
      capacity := Max(initialCapacity, DefaultCapacity);
      threshold := Threshold(Max(initialCapacity, DefaultCapacity), num, den);
      keyTable := new Slot<K>[Max(initialCapacity, DefaultCapacity)](_ => Null);
      valueTable := new Option<V>[Max(initialCapacity, DefaultCapacity)](_ => None);
      modificationCount := 0;
      usedBuckets := 0;
      keyCount := 0;
      containsFlag := false;
      steps := seq(Max(initialCapacity, DefaultCapacity), _ => 0);
      new;
      EmptyTable(keyTable[..], valueTable[..], hash, steps);
    }

    /** The designated constructor with its argument checks: a capacity or
        a load factor that is not positive is an
        `IllegalArgumentException`. The load factor is passed as the
        fraction num / den. */
    static method Create(initialCapacity: int, num: int, den: int, hashCode: K -> Int32)
      returns (r: Result<HashTableQuadraticProbing<K, V>>)
      requires initialCapacity < 0x8000_0000 && den > 0
      requires num > 0 ==> Threshold(Max(initialCapacity, DefaultCapacity), num, den) >= 1
      ensures r.Err? <==> initialCapacity <= 0 || num <= 0
      ensures r.Err? ==> r.error == IllegalArgument
      ensures r.Ok? ==> fresh(r.value) && fresh(r.value.keyTable) && fresh(r.value.valueTable) && r.value.Valid()
      ensures r.Ok? ==> r.value.capacity == Max(initialCapacity, DefaultCapacity) && r.value.Mapping() == map[]
    {
      if initialCapacity <= 0 {
        return Err(IllegalArgument);
      }
      if num <= 0 {
        return Err(IllegalArgument);
      }
      var t := new HashTableQuadraticProbing(initialCapacity, num, den, hashCode);
      return Ok(t);
    }

    /** `size()`: the number of keys in the map. */
    function Size(): (n: int)
      reads this`capacity, this`threshold, this`usedBuckets, this`keyCount, this`keyTable, this`valueTable, this`steps, keyTable, valueTable
      requires Valid()
      ensures n == |Mapping()|
    {
      LiveCount(keyTable[..], valueTable[..]);
      keyCount
    }

    function IsEmpty(): (b: bool)
      reads this`capacity, this`threshold, this`usedBuckets, this`keyCount, this`keyTable, this`valueTable, this`steps, keyTable, valueTable
      requires Valid()
      ensures b <==> Mapping() == map[]
    {
      Size() == 0
    }

    /** The probe loop shared by `insert`, `get` and `remove`: from the home
        slot, step through the probe sequence until a `null` slot or the
        key. On return n is the step it stopped at, i its slot and j the
        first tombstone passed (-1 for none). The step counter n, which the
        Java loops do not keep, bounds the loop: the probe sequence repeats
        after 2^32 steps, so n == 2^32 means the Java loop runs forever. */
    method Seek(key: K) returns (i: int, j: int, n: nat)
      requires 0 < capacity < 0x8000_0000 && keyTable.Length == capacity
      ensures n <= Period
      ensures var h := Home(hash, key, capacity);
              Scan(keyTable[..], key, h, 0) == (if n < Period then Some(n) else None)
      ensures n < Period ==> i == Probe(Home(hash, key, capacity), n, capacity)
      ensures n < Period ==> j == TombSlot(keyTable[..], Home(hash, key, capacity), n)
    {
      ghost var ks := keyTable[..];
      var h := NormalizeIndex(hash(key), capacity);
      assert |ks| == capacity;
      i, j := h, -1;
      var x: Int32 := 1;
      n := 0;
      ProbeStart(h, capacity);
      while n < Period
        invariant 0 <= n <= Period
        invariant x == Wrap32(n + 1)
        invariant i == Probe(h, n, capacity)
        invariant forall m :: 0 <= m < n ==> !Stops(ks, key, h, m)
        invariant j == TombSlot(ks, h, n)
        decreases Period - n
      {
        if keyTable[i].Tombstone? {
          if j == -1 {
            j := i;
          }
        } else if keyTable[i].Key? {
          if keyTable[i].key == key {
            ScanSkip(ks, key, h, 0, n);
            return;
          }
        } else {
          ScanSkip(ks, key, h, 0, n);
          return;
        }
        assert !Stops(ks, key, h, n);
        FirstTombNext(ks, h, n);
        i, x := NextProbe(h, capacity, x, n);
        n := n + 1;
      }
      ScanSkip(ks, key, h, 0, n);
    }
  
    /** The writes of `insert` once its probe loop has stopped at slot i,
        having passed the first tombstone j (-1 for none): the slots as
        `Written` says, `keyCount` up for a new key, `usedBuckets` up for a
        new key in a `null` slot, `modificationCount` up by one. The result
        is the value slot i held. */
    method Store(i: int, j: int, key: K, value: V, ghost ks: seq<Slot<K>>, ghost vs: seq<Option<V>>, ghost steps': seq<int>)
      returns (oldValue: Option<V>)
      requires keyTable.Length == valueTable.Length && keyTable as object != valueTable as object
      requires keyTable[..] == ks && valueTable[..] == vs
      requires 0 <= i < keyTable.Length && -1 <= j < keyTable.Length && j != i
      modifies this, keyTable, valueTable
      ensures keyTable == old(keyTable) && valueTable == old(valueTable)
      ensures capacity == old(capacity) && threshold == old(threshold) && containsFlag == old(containsFlag)
      ensures keyTable[..] == Written(ks, vs, i, j, key, value).0
      ensures valueTable[..] == Written(ks, vs, i, j, key, value).1
      ensures keyCount == old(keyCount) + (if ks[i].Key? then 0 else 1)
      ensures usedBuckets == old(usedBuckets) + (if ks[i].Key? || j != -1 then 0 else 1)
      ensures modificationCount == old(modificationCount) + 1 && steps == steps'
      ensures oldValue == vs[i]
    {
      oldValue := valueTable[i];
      if keyTable[i].Key? {
        if j == -1 {
          valueTable[i] := Some(value);
        } else {
          keyTable[i] := Tombstone;
          valueTable[i] := None;
          keyTable[j] := Key(key);
          valueTable[j] := Some(value);
        }
      } else {
        if j == -1 {
          usedBuckets := usedBuckets + 1;
          keyCount := keyCount + 1;
          keyTable[i] := Key(key);
          valueTable[i] := Some(value);
        } else {
          keyCount := keyCount + 1;
          keyTable[j] := Key(key);
          valueTable[j] := Some(value);
        }
      }
      modificationCount := modificationCount + 1;
      steps := steps';
    }

    /** Lines 77-120, the probe loop of `insert`, on a table with a slot to
        spare: the pair (key, value) is written where the loop stops, as
        `Inserted` says. The result is the old value of a present key and
        `None` (`null`) for a new one; `keyCount` grows for a new key and
        `usedBuckets` only if no tombstone was reused. When no step stops
        the loop, Java loops forever. */
    method Put(key: K, value: V) returns (r: Result<Option<V>>)
      requires Valid() && usedBuckets < threshold
      modifies this, keyTable, valueTable
      ensures r.Err? <==> old(Scan(keyTable[..], key, Home(hash, key, capacity), 0)).None?
      ensures r.Err? ==> r == Err(NonTermination) && unchanged(this) && unchanged(keyTable) && unchanged(valueTable)
      ensures r.Ok? ==> Valid() && keyTable == old(keyTable) && valueTable == old(valueTable)
      ensures r.Ok? ==> capacity == old(capacity) && threshold == old(threshold) && containsFlag == old(containsFlag)
      ensures r.Ok? ==> modificationCount == old(modificationCount) + 1
      ensures r.Ok? ==> (keyTable[..], valueTable[..]) ==
                          old(Inserted(keyTable[..], valueTable[..], key, value, Home(hash, key, capacity)))
      ensures r.Ok? ==> Mapping() == old(Mapping())[key := value]
      ensures r.Ok? ==> r.value == (if key in old(Mapping()) then Some(old(Mapping())[key]) else None)
      ensures r.Ok? ==> keyCount == old(keyCount) + (if key in old(Mapping()) then 0 else 1)
      ensures r.Ok? ==> usedBuckets == old(usedBuckets) +
                          (if key in old(Mapping()) || old(PassesTomb(keyTable[..], key, Home(hash, key, capacity))) then 0 else 1)
    {
      ghost var ks, vs := keyTable[..], valueTable[..];
      ghost var h := Home(hash, key, capacity);
      var i, j, n := Seek(key);
      if n == Period {
        return Err(NonTermination);
      }
      ghost var steps' := InsertStep(ks, vs, hash, steps, keyCount, usedBuckets, key, value, n, i, j);
      ghost var t := Written(ks, vs, i, j, key, value);
      assert Inserted(ks, vs, key, value, h) == t;
      var found := keyTable[i].Key?;
      var oldValue := Store(i, j, key, value, ks, vs, steps');
      assert keyTable[..] == t.0 && valueTable[..] == t.1;
      r := Ok(if found then oldValue else None);
    }

    /** Lines 209-226 of `resizeTable`: the new capacity and threshold,
        fresh arrays of `null` slots and zero counts. */
    method Allocate(newCapacity: int)
      requires DefaultCapacity <= newCapacity < 0x8000_0000 && loadNum > 0 && loadDen > 0
      requires Threshold(newCapacity, loadNum, loadDen) >= 1
      modifies this
      ensures Valid() && fresh(keyTable) && fresh(valueTable)
      ensures capacity == newCapacity && threshold == Threshold(newCapacity, loadNum, loadDen)
      ensures keyCount == 0 && usedBuckets == 0 && Mapping() == map[] && NoTombs(keyTable[..])
      ensures modificationCount == old(modificationCount) && containsFlag == old(containsFlag)
    {
      var ks := new Slot<K>[newCapacity](_ => Null);
      var vs := new Option<V>[newCapacity](_ => None);
      ghost var zeros := seq(newCapacity, _ => 0);
      EmptyTable(ks[..], vs[..], hash, zeros);
      capacity, threshold := newCapacity, Threshold(newCapacity, loadNum, loadDen);
      keyTable, valueTable, keyCount, usedBuckets, steps := ks, vs, 0, 0, zeros;
    }

    /** The `insert` call of line 229: a key not yet in a table without
        tombstones, with a slot to spare. The pair lands in a `null` slot,
        so both counts grow by one and no tombstone appears, unless the
        probe loop never stops. */
    method Readd(key: K, value: V, ghost ks: seq<Slot<K>>, ghost vs: seq<Option<V>>, ghost i: nat,
                 ghost tk: seq<Slot<K>>, ghost tv: seq<Option<V>>)
      returns (r: Result<Option<V>>)
      requires Valid() && NoTombs(keyTable[..]) && key !in Mapping()
      requires usedBuckets < threshold && keyCount == usedBuckets
      requires Paired(ks, vs) && i < |ks| && ks[i] == Key(key) && vs[i] == Some(value)
      requires tk == keyTable[..] && tv == valueTable[..]
      modifies this, keyTable, valueTable
      ensures r.Err? <==> old(Scan(keyTable[..], key, Home(hash, key, capacity), 0)).None?
      ensures r.Err? ==> r.error == NonTermination
      ensures r.Ok? ==> Valid() && keyTable == old(keyTable) && valueTable == old(valueTable)
      ensures r.Ok? ==> Mapping() == old(Mapping())[key := value] && NoTombs(keyTable[..])
      ensures r.Ok? ==> keyCount == usedBuckets == old(keyCount) + 1
      ensures r.Ok? ==> capacity == old(capacity) && threshold == old(threshold) && containsFlag == old(containsFlag)
      ensures r.Ok? ==> modificationCount == old(modificationCount) + 1
      ensures keyTable.Length > 0 && keyTable.Length == valueTable.Length
      ensures RefillsTo(ks, vs, i, tk, tv, keyTable[..], valueTable[..], hash, r.Ok?)
    {
      RefillStep(ks, vs, i, tk, tv, hash);
      r := Put(key, value);
      if r.Ok? {
        InsertedNoTombs(tk, tv, key, value, Home(hash, key, capacity));
      }
    }

    /** Lines 231-232 of `resizeTable`: a visited slot of the old arrays
        is set to `null`. */
    static method Forget(oldKeys: array<Slot<K>>, oldValues: array<Option<V>>, i: int)
      requires 0 <= i < oldKeys.Length && i < oldValues.Length
      modifies oldKeys, oldValues
      ensures oldKeys[..] == old(oldKeys[..])[i := Null]
      ensures oldKeys as object != oldValues as object ==> oldValues[..] == old(oldValues[..])[i := None]
    {
      oldKeys[i] := Null;
      oldValues[i] := None;
    }

    /** One turn of the loop of `resizeTable` (lines 228-230): the pair of
        old slot i, when live, is re-inserted, so the table comes to hold
        the map of the old slots up to and including i. */
    method TransferSlot(slot: Slot<K>, value: Option<V>, ghost ks: seq<Slot<K>>, ghost vs: seq<Option<V>>, i: int,
                        ghost tk: seq<Slot<K>>, ghost tv: seq<Option<V>>)
      returns (r: Result<()>)
      requires Paired(ks, vs) && Distinct(ks) && 0 <= i < |ks| && slot == ks[i] && value == vs[i]
      requires tk == keyTable[..] && tv == valueTable[..]
      requires Valid() && Mapping() == LiveMap(ks[..i], vs[..i]) && NoTombs(keyTable[..])
      requires keyCount == usedBuckets == |LiveSlots(ks[..i])| && |LiveSlots(ks)| < threshold
      modifies this, keyTable, valueTable
      ensures r.Err? ==> r.error == NonTermination
      ensures r.Ok? ==> Valid() && keyTable == old(keyTable) && valueTable == old(valueTable)
      ensures r.Ok? ==> Mapping() == LiveMap(ks[..i + 1], vs[..i + 1]) && NoTombs(keyTable[..])
      ensures r.Ok? ==> keyCount == usedBuckets == |LiveSlots(ks[..i + 1])|
      ensures r.Ok? ==> capacity == old(capacity) && threshold == old(threshold) && containsFlag == old(containsFlag)
      ensures r.Ok? ==> modificationCount == old(modificationCount) + keyCount - old(keyCount)
      ensures keyTable.Length > 0 && keyTable.Length == valueTable.Length
      ensures RefillsTo(ks, vs, i, tk, tv, keyTable[..], valueTable[..], hash, r.Ok?)
    {
      if slot.Key? {
        LiveSlotsSnoc(ks, i);
        LiveMapSnoc(ks, vs, i);
        LastIsNew(ks, vs, i);
        SlotBounds(ks, i);
        var g := Readd(slot.key, value.value, ks, vs, i, tk, tv);
        if g.Err? {
          return Err(g.error);
        }
      } else {
        LiveSlotsSnoc(ks, i);
        LiveMapSnoc(ks, vs, i);
        assert RefillsTo(ks, vs, i, tk, tv, tk, tv, hash, true) by {
          RefillStep(ks, vs, i, tk, tv, hash);
        }
      }
      r := Ok(());
    }

    /** Lines 227-233 of `resizeTable`: the live pairs of the old arrays
        re-inserted, in slot order, into the new table, which ends up
        holding exactly their map, without tombstones. */
    method Transfer(oldKeys: array<Slot<K>>, oldValues: array<Option<V>>, ghost ks: seq<Slot<K>>, ghost vs: seq<Option<V>>)
      returns (r: Result<()>)
      requires Valid() && keyCount == 0 && usedBuckets == 0 && Mapping() == map[] && NoTombs(keyTable[..])
      requires oldKeys[..] == ks && oldValues[..] == vs && Paired(ks, vs) && Distinct(ks)
      requires oldKeys as object != oldValues as object
      requires {oldKeys, oldValues} !! {keyTable as object, valueTable}
      requires |LiveSlots(ks)| < threshold
      modifies this, keyTable, valueTable, oldKeys, oldValues
      ensures r.Err? <==> old(Refill(ks, vs, 0, keyTable[..], valueTable[..], hash)).None?
      ensures r.Err? ==> r.error == NonTermination
      ensures r.Ok? ==> old(Refill(ks, vs, 0, keyTable[..], valueTable[..], hash)) == Some((keyTable[..], valueTable[..]))
      ensures r.Ok? ==> Valid() && keyTable == old(keyTable) && valueTable == old(valueTable)
      ensures r.Ok? ==> Mapping() == LiveMap(ks, vs) && NoTombs(keyTable[..])
      ensures r.Ok? ==> keyCount == usedBuckets == |LiveSlots(ks)|
      ensures r.Ok? ==> capacity == old(capacity) && threshold == old(threshold) && containsFlag == old(containsFlag)
      ensures r.Ok? ==> modificationCount == old(modificationCount) + keyCount
    {
      assert ks[..0] == [] && vs[..0] == [];
      ghost var refill := Refill(ks, vs, 0, keyTable[..], valueTable[..], hash);
      for i := 0 to oldKeys.Length
        invariant Valid() && keyTable == old(keyTable) && valueTable == old(valueTable)
        invariant capacity == old(capacity) && threshold == old(threshold) && containsFlag == old(containsFlag)
        invariant forall m :: i <= m < |ks| ==> oldKeys[m] == ks[m] && oldValues[m] == vs[m]
        invariant Mapping() == LiveMap(ks[..i], vs[..i]) && NoTombs(keyTable[..])
        invariant keyCount == usedBuckets == |LiveSlots(ks[..i])|
        invariant modificationCount == old(modificationCount) + keyCount
        invariant refill == Refill(ks, vs, i, keyTable[..], valueTable[..], hash)
      {
        var g := TransferSlot(oldKeys[i], oldValues[i], ks, vs, i, keyTable[..], valueTable[..]);
        if g.Err? {
          return g;
        }
        Forget(oldKeys, oldValues, i);
      }
      assert ks[..|ks|] == ks && vs[..|vs|] == vs;
      r := Ok(());
    }

    /** `resizeTable` (lines 208-234): the capacity doubles, the threshold
        follows, and every live pair of the old arrays is re-inserted, in
        slot order, into fresh arrays of `null` slots, each old slot being
        set to `null` once visited. The map is preserved and the tombstones
        are gone, so `keyCount == usedBuckets`. Doubling a capacity of 2^30
        or more overflows to a negative `int`, and the allocation throws
        after `capacity` and `threshold` have been overwritten. A
        re-insertion whose probe loop never stops (possible when the
        capacity is not a power of two) never returns. */
    method Resize() returns (r: Result<()>)
      requires Valid()
      modifies this, keyTable, valueTable
      ensures r.Err? ==> r.error == (if old(capacity) >= 0x4000_0000 then NegativeArraySize else NonTermination)
      ensures old(capacity) < 0x4000_0000 ==>
                (r.Err? <==> old(Refill(keyTable[..], valueTable[..], 0, seq(2 * capacity, _ => Null), seq(2 * capacity, _ => None), hash)).None?)
      ensures r.Ok? ==>
                old(Refill(keyTable[..], valueTable[..], 0, seq(2 * capacity, _ => Null), seq(2 * capacity, _ => None), hash))
                == Some((keyTable[..], valueTable[..]))
      ensures r.Err? && r.error == NegativeArraySize ==>
                capacity == Wrap32(2 * old(capacity)) && threshold == Threshold(capacity, loadNum, loadDen) &&
                keyTable == old(keyTable) && valueTable == old(valueTable) && unchanged(keyTable) && unchanged(valueTable)
      ensures r.Ok? ==> Valid() && fresh(keyTable) && fresh(valueTable)
      ensures r.Ok? ==> capacity == 2 * old(capacity) && threshold == Threshold(2 * old(capacity), loadNum, loadDen)
      ensures r.Ok? ==> Mapping() == old(Mapping()) && NoTombs(keyTable[..])
      ensures r.Ok? ==> keyCount == usedBuckets == old(keyCount) && usedBuckets < threshold
      ensures r.Ok? ==> modificationCount == old(modificationCount) + old(keyCount) && containsFlag == old(containsFlag)
    {
      if capacity >= 0x4000_0000 {
        capacity := Wrap32(2 * capacity);
        threshold := Threshold(capacity, loadNum, loadDen);
        return Err(NegativeArraySize);
      }
      ghost var ks, vs := keyTable[..], valueTable[..];
      GrowRoom(ks, vs, hash, steps, keyCount, usedBuckets, capacity, loadNum, loadDen);
      var oldKeys, oldValues := keyTable, valueTable;
      Allocate(2 * capacity);
      BlankTable(keyTable[..], valueTable[..]);
      r := Transfer(oldKeys, oldValues, ks, vs);
    }

    /** `insert` (lines 73-121). A `null` key is an
        `IllegalArgumentException`. Once `usedBuckets` has reached the
        threshold the table is resized first. The pair is then written
        where the probe loop stops: the map gains the binding, the old
        value of a present key is returned (`null` for a new key) and
        `keyCount` grows by one for a new key only. */
    method Insert(key: Option<K>, value: V) returns (r: Result<Option<V>>)
      requires Valid()
      modifies this, keyTable, valueTable
      ensures key.None? ==> r == Err(IllegalArgument) && unchanged(this) && unchanged(keyTable) && unchanged(valueTable)
      ensures r.Err? && old(usedBuckets) < old(threshold) ==>
                unchanged(this) && unchanged(keyTable) && unchanged(valueTable)
      ensures r.Err? && key.Some? ==> r.error == NonTermination || (r.error == NegativeArraySize && old(capacity) >= 0x4000_0000)
      ensures key.Some? && old(usedBuckets) < old(threshold) ==>
                (r.Ok? <==> old(Scan(keyTable[..], key.value, Home(hash, key.value, capacity), 0)).Some?)
      ensures key.Some? && old(usedBuckets) >= old(threshold) ==>
                (r.Ok? <==> old(capacity) < 0x4000_0000 && old(GrowInsertStops(keyTable[..], valueTable[..], key.value, hash)))
      ensures r.Ok? ==> key.Some? && Valid()
      ensures r.Ok? ==> Mapping() == old(Mapping())[key.value := value]
      ensures r.Ok? ==> r.value == (if key.value in old(Mapping()) then Some(old(Mapping())[key.value]) else None)
      ensures r.Ok? ==> keyCount == old(keyCount) + (if key.value in old(Mapping()) then 0 else 1)
      ensures r.Ok? ==> capacity == if old(usedBuckets) >= old(threshold) then 2 * old(capacity) else old(capacity)
    {
      if key.None? {
        return Err(IllegalArgument);
      }
      if usedBuckets >= threshold {
        var g := Resize();
        if g.Err? {
          return Err(g.error);
        }
      }
      r := Put(key.value, value);
    }

    /** The writes of `get` once its probe loop has found its key in slot i,
        having passed the first tombstone j (-1 for none): `containsFlag`
        is set and, past a tombstone, the pair moves as `Moved` says. The
        result is the value returned, the one slot i held. */
    method Relocate(i: int, j: int, ghost ks: seq<Slot<K>>, ghost vs: seq<Option<V>>, ghost steps': seq<int>)
      returns (value: Option<V>)
      requires keyTable.Length == valueTable.Length && keyTable as object != valueTable as object
      requires keyTable[..] == ks && valueTable[..] == vs
      requires 0 <= i < keyTable.Length && -1 <= j < keyTable.Length && j != i
      modifies this, keyTable, valueTable
      ensures keyTable == old(keyTable) && valueTable == old(valueTable)
      ensures capacity == old(capacity) && threshold == old(threshold)
      ensures keyCount == old(keyCount) && usedBuckets == old(usedBuckets) && modificationCount == old(modificationCount)
      ensures keyTable[..] == Moved(ks, vs, i, j).0
      ensures valueTable[..] == Moved(ks, vs, i, j).1
      ensures containsFlag && steps == steps' && value == vs[i]
    {
      containsFlag := true;
      if j != -1 {
        keyTable[j] := keyTable[i];
        valueTable[j] := valueTable[i];
        keyTable[i] := Tombstone;
        valueTable[i] := None;
        value := valueTable[j];
      } else {
        value := valueTable[i];
      }
      steps := steps';
    }

    /** `get` as written (lines 129-165). A `null` key is an
        `IllegalArgumentException`. A present key yields its value, sets
        `containsFlag` and, past a tombstone, moves to the first tombstone,
        leaving the map and the counters as they were. For an absent key
        the loop reaches a `null` slot and calls `equals` on it (line 144),
        a `NullPointerException`, or it never stops; either way nothing
        changes. */
    method Get(key: Option<K>) returns (r: Result<V>)
      requires Valid()
      modifies this, keyTable, valueTable
      ensures key.None? ==> r == Err(IllegalArgument)
      ensures key.Some? ==> (r.Ok? <==> key.value in old(Mapping()))
      ensures key.Some? && r.Err? ==>
                r.error == (if old(Scan(keyTable[..], key.value, Home(hash, key.value, capacity), 0)).Some?
                            then NullPointer else NonTermination)
      ensures r.Err? ==> unchanged(this) && unchanged(keyTable) && unchanged(valueTable)
      ensures r.Err? ==> Valid() && Mapping() == old(Mapping())
      ensures r.Ok? ==> r.value == old(Mapping())[key.value] && containsFlag
      ensures r.Ok? ==> Valid() && keyTable == old(keyTable) && valueTable == old(valueTable)
      ensures r.Ok? ==> old(Scan(keyTable[..], key.value, Home(hash, key.value, capacity), 0)).Some? &&
                        (keyTable[..], valueTable[..]) ==
                          old(Relocated(keyTable[..], valueTable[..], key.value, Home(hash, key.value, capacity)))
      ensures r.Ok? ==> Mapping() == old(Mapping())
      ensures r.Ok? ==> capacity == old(capacity) && threshold == old(threshold)
      ensures r.Ok? ==> keyCount == old(keyCount) && usedBuckets == old(usedBuckets)
      ensures r.Ok? ==> modificationCount == old(modificationCount)
    {
      if key.None? {
        return Err(IllegalArgument);
      }
      var k := key.value;
      ghost var ks, vs := keyTable[..], valueTable[..];
      var i, j, n := Seek(k);
      Lookup(ks, vs, hash, steps, k);
      if n == Period {
        return Err(NonTermination);
      }
      if keyTable[i].Null? {
        return Err(NullPointer);
      }
      ghost var steps' := RelocateStep(ks, vs, hash, steps, keyCount, usedBuckets, k, n, i, j);
      var value := Relocate(i, j, ks, vs, steps');
      r := Ok(value.value);
    }

    /** Sets `containsFlag`, and nothing else. */
    method SetFlag(b: bool)
      modifies this`containsFlag
      ensures containsFlag == b
    {
      containsFlag := b;
    }

    /** `get` as evidently intended: it behaves as `get` except that an
        absent key whose probe loop reaches a `null` slot yields `null` and
        clears `containsFlag`, with nothing else changed. */
    method GetIntended(key: Option<K>) returns (r: Result<Option<V>>)
      requires Valid()
      modifies this, keyTable, valueTable
      ensures key.None? ==> r == Err(IllegalArgument)
      ensures key.Some? ==> (r.Ok? && r.value.Some? <==> key.value in old(Mapping()))
      ensures key.Some? && r.Err? ==> r.error == NonTermination && key.value !in old(Mapping())
      ensures key.Some? && key.value !in old(Mapping()) &&
              old(Scan(keyTable[..], key.value, Home(hash, key.value, capacity), 0)).Some? ==>
                r == Ok(None) && !containsFlag
      ensures key.Some? && old(Scan(keyTable[..], key.value, Home(hash, key.value, capacity), 0)).None? ==>
                r == Err(NonTermination)
      ensures r.Err? ==> unchanged(this) && unchanged(keyTable) && unchanged(valueTable)
      ensures r.Ok? ==> containsFlag == r.value.Some?
      ensures r.Ok? && r.value.Some? ==> r.value.value == old(Mapping())[key.value]
      ensures r.Ok? ==> Valid() && keyTable == old(keyTable) && valueTable == old(valueTable)
      ensures r.Ok? ==> Mapping() == old(Mapping())
      ensures r.Ok? ==> capacity == old(capacity) && threshold == old(threshold)
      ensures r.Ok? ==> keyCount == old(keyCount) && usedBuckets == old(usedBuckets)
      ensures r.Ok? ==> modificationCount == old(modificationCount)
    {
      var g := Get(key);
      if g.Ok? {
        return Ok(Some(g.value));
      } else if g.error == NullPointer {
        SetFlag(false);
        return Ok(None);
      }
      r := Err(g.error);
    }

    /** `hasKey` as written (lines 123-126): `get`, then `containsFlag`.
        Since an absent key makes `get` throw, the flag is only ever read
        after a successful lookup. */
    method HasKey(key: Option<K>) returns (r: Result<bool>)
      requires Valid()
      modifies this, keyTable, valueTable
      ensures key.None? ==> r == Err(IllegalArgument)
      ensures key.Some? ==> (r == Ok(true) <==> key.value in old(Mapping()))
      ensures r.Ok? ==> r.value && Valid() && Mapping() == old(Mapping())
      ensures r.Err? ==> unchanged(this) && unchanged(keyTable) && unchanged(valueTable)
    {
      var g := Get(key);
      if g.Err? {
        return Err(g.error);
      }
      r := Ok(containsFlag);
    }

    /** `hasKey` over the intended `get`: whether the key is in the map,
        unless the probe loop never stops. */
    method HasKeyIntended(key: Option<K>) returns (r: Result<bool>)
      requires Valid()
      modifies this, keyTable, valueTable
      ensures key.None? ==> r == Err(IllegalArgument)
      ensures key.Some? && r.Ok? ==> r.value == (key.value in old(Mapping()))
      ensures key.Some? && r.Err? ==> r.error == NonTermination && key.value !in old(Mapping())
      ensures key.Some? ==> (r.Ok? <==> old(Scan(keyTable[..], key.value, Home(hash, key.value, capacity), 0)).Some?)
      ensures r.Ok? ==> Valid() && Mapping() == old(Mapping())
    {
      var g := GetIntended(key);
      if g.Err? {
        return Err(g.error);
      }
      r := Ok(containsFlag);
    }

    /** The writes of `remove` once its probe loop has found its key in
        slot i: a tombstone and a `null` value, one key fewer, one more
        modification. The result is the value slot i held. */
    method Delete(i: int, ghost ks: seq<Slot<K>>, ghost vs: seq<Option<V>>) returns (oldValue: Option<V>)
      requires keyTable.Length == valueTable.Length && keyTable as object != valueTable as object
      requires keyTable[..] == ks && valueTable[..] == vs && 0 <= i < keyTable.Length
      modifies this, keyTable, valueTable
      ensures keyTable == old(keyTable) && valueTable == old(valueTable)
      ensures capacity == old(capacity) && threshold == old(threshold) && containsFlag == old(containsFlag)
      ensures keyTable[..] == ks[i := Tombstone] && valueTable[..] == vs[i := None]
      ensures keyCount == old(keyCount) - 1 && usedBuckets == old(usedBuckets)
      ensures modificationCount == old(modificationCount) + 1 && steps == old(steps)
      ensures oldValue == vs[i]
    {
      keyCount := keyCount - 1;
      modificationCount := modificationCount + 1;
      oldValue := valueTable[i];
      keyTable[i] := Tombstone;
      valueTable[i] := None;
    }

    /** `remove` as written (lines 167-186). A `null` key is an
        `IllegalArgumentException`. A present key leaves a tombstone and
        the map, and its value is returned. The guard of line 176 tests the
        array, never `null`, instead of the slot, so an absent key whose
        probe loop reaches a `null` slot calls `equals` on it: a
        `NullPointerException`. Without a stop the loop never ends. */
    method Remove(key: Option<K>) returns (r: Result<V>)
      requires Valid()
      modifies this, keyTable, valueTable
      ensures key.None? ==> r == Err(IllegalArgument)
      ensures key.Some? ==> (r.Ok? <==> key.value in old(Mapping()))
      ensures key.Some? && r.Err? ==>
                r.error == (if old(Scan(keyTable[..], key.value, Home(hash, key.value, capacity), 0)).Some?
                            then NullPointer else NonTermination)
      ensures r.Err? ==> unchanged(this) && unchanged(keyTable) && unchanged(valueTable)
      ensures r.Err? ==> Valid() && Mapping() == old(Mapping())
      ensures r.Ok? ==> r.value == old(Mapping())[key.value]
      ensures r.Ok? ==> Valid() && keyTable == old(keyTable) && valueTable == old(valueTable)
      ensures r.Ok? ==> old(Scan(keyTable[..], key.value, Home(hash, key.value, capacity), 0)).Some? &&
                        (keyTable[..], valueTable[..]) ==
                          old(Removed(keyTable[..], valueTable[..], key.value, Home(hash, key.value, capacity)))
      ensures r.Ok? ==> Mapping() == old(Mapping()) - {key.value}
      ensures r.Ok? ==> capacity == old(capacity) && threshold == old(threshold) && containsFlag == old(containsFlag)
      ensures r.Ok? ==> keyCount == old(keyCount) - 1 && usedBuckets == old(usedBuckets)
      ensures r.Ok? ==> modificationCount == old(modificationCount) + 1
    {
      if key.None? {
        return Err(IllegalArgument);
      }
      var k := key.value;
      ghost var ks, vs := keyTable[..], valueTable[..];
      var i, _, n := Seek(k);
      Lookup(ks, vs, hash, steps, k);
      if n == Period {
        return Err(NonTermination);
      }
      if keyTable[i].Null? {
        return Err(NullPointer);
      }
      RemoveStep(ks, vs, hash, steps, keyCount, usedBuckets, k, n, i);
      var oldValue := Delete(i, ks, vs);
      r := Ok(oldValue.value);
    }

    /** `remove` as evidently intended: it behaves as `remove` except that
        an absent key whose probe loop reaches a `null` slot yields `null`
        and changes nothing. */
    method RemoveIntended(key: Option<K>) returns (r: Result<Option<V>>)
      requires Valid()
      modifies this, keyTable, valueTable
      ensures key.None? ==> r == Err(IllegalArgument)
      ensures key.Some? ==> (r.Ok? && r.value.Some? <==> key.value in old(Mapping()))
      ensures key.Some? && r.Err? ==> r.error == NonTermination && key.value !in old(Mapping())
      ensures key.Some? && key.value !in old(Mapping()) &&
              old(Scan(keyTable[..], key.value, Home(hash, key.value, capacity), 0)).Some? ==>
                r == Ok(None)
      ensures key.Some? && old(Scan(keyTable[..], key.value, Home(hash, key.value, capacity), 0)).None? ==>
                r == Err(NonTermination)
      ensures (r.Err? || (r.Ok? && r.value.None?)) ==> unchanged(this) && unchanged(keyTable) && unchanged(valueTable)
      ensures r.Ok? && r.value.Some? ==> r.value.value == old(Mapping())[key.value]
      ensures r.Ok? ==> Valid() && keyTable == old(keyTable) && valueTable == old(valueTable)
      ensures r.Ok? ==> Mapping() == old(Mapping()) - {key.value}
      ensures r.Ok? && r.value.Some? ==> keyCount == old(keyCount) - 1 && modificationCount == old(modificationCount) + 1
    {
      var g := Remove(key);
      if g.Ok? {
        return Ok(Some(g.value));
      } else if g.error == NullPointer {
        return Ok(None);
      }
      r := Err(g.error);
    }

    /** `clear` (lines 59-66): every slot `null`, zero counts, one more
        modification; the map is empty. */
    method Clear()
      requires Valid()
      modifies this, keyTable, valueTable
      ensures Valid() && keyTable == old(keyTable) && valueTable == old(valueTable)
      ensures forall i :: 0 <= i < capacity ==> keyTable[i].Null? && valueTable[i].None?
      ensures Mapping() == map[] && NoTombs(keyTable[..])
      ensures keyCount == 0 && usedBuckets == 0 && modificationCount == old(modificationCount) + 1
      ensures capacity == old(capacity) && threshold == old(threshold) && containsFlag == old(containsFlag)
    {
      for i := 0 to capacity
        invariant forall m :: 0 <= m < i ==> keyTable[m].Null? && valueTable[m].None?
        modifies keyTable, valueTable
      {
        keyTable[i] := Null;
        valueTable[i] := None;
      }
      keyCount, usedBuckets := 0, 0;
      modificationCount := modificationCount + 1;
      EmptyTable(keyTable[..], valueTable[..], hash, steps);
    }

    /** The loop of `keys` (lines 190-194): the keys of the live slots, in
        slot order. */
    static method ListKeys(keyTable: array<Slot<K>>) returns (keys: seq<K>)
      ensures keys == LiveKeys(keyTable[..])
    {
      keys := [];
      for i := 0 to keyTable.Length
        invariant keys == LiveKeys(keyTable[..i])
      {
        assert keyTable[..i + 1][..i] == keyTable[..i];
        if keyTable[i].Key? {
          keys := keys + [keyTable[i].key];
        }
      }
      assert keyTable[..keyTable.Length] == keyTable[..];
    }

    /** The loop of `values` (lines 200-204): the values of the live slots,
        in slot order. */
    static method ListValues(keyTable: array<Slot<K>>, valueTable: array<Option<V>>) returns (values: seq<V>)
      requires keyTable.Length == valueTable.Length && Paired(keyTable[..], valueTable[..])
      ensures values == LiveValues(keyTable[..], valueTable[..])
    {
      values := [];
      for i := 0 to keyTable.Length
        invariant values == LiveValues(keyTable[..i], valueTable[..i])
      {
        assert keyTable[..i + 1][..i] == keyTable[..i] && valueTable[..i + 1][..i] == valueTable[..i];
        if keyTable[i].Key? {
          values := values + [valueTable[i].value];
        }
      }
      assert keyTable[..keyTable.Length] == keyTable[..] && valueTable[..valueTable.Length] == valueTable[..];
    }

    /** `keys` (lines 188-196): the live keys in slot order. They are the
        map's keys, each once. */
    method Keys() returns (keys: seq<K>)
      requires Valid()
      ensures keys == LiveKeys(keyTable[..])
      ensures |keys| == |Mapping()|
      ensures forall k :: k in keys <==> k in Mapping()
      ensures forall a, b :: 0 <= a < b < |keys| ==> keys[a] != keys[b]
    {
      keys := ListKeys(keyTable);
      LiveCount(keyTable[..], valueTable[..]);
      LiveListed(keyTable[..], valueTable[..]);
    }

    /** `values` (lines 198-206): the values of the live slots in slot
        order, position by position the values of the keys `keys` lists. */
    method Values() returns (values: seq<V>)
      requires Valid()
      ensures values == LiveValues(keyTable[..], valueTable[..])
      ensures |values| == |Mapping()| == |LiveKeys(keyTable[..])|
      ensures forall a :: 0 <= a < |values| ==> LiveKeys(keyTable[..])[a] in Mapping() && values[a] == Mapping()[LiveKeys(keyTable[..])[a]]
    {
      values := ListValues(keyTable, valueTable);
      LiveCount(keyTable[..], valueTable[..]);
      LiveListed(keyTable[..], valueTable[..]);
    }
  }

  /** `get` and `remove` of a key on a new table: the home slot of the key
      is `null`, and both calls throw `NullPointerException` where `null`
      (not found) was meant. */
  method AbsentKeyFails<K(==), V>(hash: K -> Int32, k: K) returns (g: Result<V>, r: Result<V>)
    ensures g == Err(NullPointer) && r == Err(NullPointer)
  {
    var t := new HashTableQuadraticProbing<K, V>(DefaultCapacity, DefaultLoadNum, DefaultLoadDen, hash);
    EmptyScan(t.keyTable[..], k, Home(hash, k, t.capacity));
    g := t.Get(Some(k));
    EmptyScan(t.keyTable[..], k, Home(hash, k, t.capacity));
    r := t.Remove(Some(k));
  }
}
