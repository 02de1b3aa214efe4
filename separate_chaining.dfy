/** The hash table of `HashTableSeparateChaining.java`: an array of
    buckets, each either absent (`null`) or a list of entries, where the
    entry for a key always sits in the bucket its hash code normalizes to.
    The keys' `hashCode` is the constructor parameter `hash`, and keys are
    compared with Dafny's equality (`equals`). Values are never `null`, so a
    Java `null` result is `None`. */
module SeparateChaining {
  import opened Common

  const DefaultCapacity := 3
  /** The default load factor 0.75, as the fraction 3/4. */
  const DefaultLoadNum := 3
  const DefaultLoadDen := 4

  /** The resize threshold `(int) (capacity * maxLoadFactor)` for a load
      factor num / den: the largest integer not above the product, which
      the cast reaches for the non-negative products the table forms. */
  function Threshold(capacity: int, num: int, den: int): (t: int)
    requires den > 0
    ensures t * den <= capacity * num < (t + 1) * den
    ensures 0 <= capacity * num ==> 0 <= t
  {
    capacity * num / den
  }

  /** `Entry`: a key, its hash code (cached when the entry is made) and its
      value. */
  datatype Entry<K, V> = Entry(hash: Int32, key: K, value: V)

  /** `Entry.equals(Entry)`: same hash and equal keys. */
  predicate EntryEquals<K(==), V>(a: Entry<K, V>, b: Entry<K, V>)
  {
    a.hash == b.hash && a.key == b.key
  }

  /** One slot of the table: `None` is a `null` bucket. */
  type Bucket<K, V> = Option<seq<Entry<K, V>>>

  function Items<K, V>(b: Bucket<K, V>): seq<Entry<K, V>>
  {
    if b.Some? then b.value else []
  }

  /** The entries of the table, bucket by bucket in index order: the order
      in which `keys` and `values` list them. */
  function Flatten<K, V>(bs: seq<Bucket<K, V>>): seq<Entry<K, V>>
  {
    if bs == [] then [] else Flatten(bs[..|bs| - 1]) + Items(bs[|bs| - 1])
  }

  ghost predicate KeysUnique<K, V>(s: seq<Entry<K, V>>)
  {
    forall a, b :: 0 <= a < b < |s| ==> s[a].key != s[b].key
  }

  ghost predicate BucketKeysUnique<K, V>(bs: seq<Bucket<K, V>>)
  {
    forall i :: 0 <= i < |bs| ==> KeysUnique(Items(bs[i]))
  }

  /** Every entry carries its key's hash code and sits in the bucket that
      hash code normalizes to under capacity `cap`. */
  ghost predicate WellPlaced<K, V>(bs: seq<Bucket<K, V>>, hash: K -> Int32, cap: int)
    requires cap > 0
  {
    forall i, e :: 0 <= i < |bs| && e in Items(bs[i]) ==>
      e.hash == hash(e.key) && NormalizeIndex(e.hash, cap) == i
  }

  /** The key-to-value map a sequence of entries stands for. */
  ghost function MapOf<K, V>(s: seq<Entry<K, V>>): map<K, V>
  {
    if s == [] then map[] else MapOf(s[..|s| - 1])[s[|s| - 1].key := s[|s| - 1].value]
  }

  /** The keys of a sequence of entries, in order. */
  function KeysOf<K, V>(s: seq<Entry<K, V>>): (r: seq<K>)
    ensures |r| == |s| && forall j :: 0 <= j < |s| ==> r[j] == s[j].key
  {
    if s == [] then [] else KeysOf(s[..|s| - 1]) + [s[|s| - 1].key]
  }

  /** The values of a sequence of entries, in order. */
  function ValuesOf<K, V>(s: seq<Entry<K, V>>): (r: seq<V>)
    ensures |r| == |s| && forall j :: 0 <= j < |s| ==> r[j] == s[j].value
  {
    if s == [] then [] else ValuesOf(s[..|s| - 1]) + [s[|s| - 1].value]
  }

  /** The position of the first entry of a bucket with key k, or -1: the
      entry `bucketSeekEntry` finds. */
  function KeyIndex<K(==), V>(b: seq<Entry<K, V>>, k: K): (p: int)
    ensures -1 <= p < |b|
    ensures p == -1 <==> forall q :: 0 <= q < |b| ==> b[q].key != k
    ensures 0 <= p ==> b[p].key == k && forall q :: 0 <= q < p ==> b[q].key != k
  {
    if b == [] then -1
    else if b[0].key == k then 0
    else
      var p := KeyIndex(b[1..], k);
      assert forall q :: 1 <= q < |b| ==> b[q] == b[1..][q - 1];
      if p == -1 then -1 else p + 1
  }

  /** A table of n absent buckets. */
  ghost function NoBuckets<K, V>(n: nat): (bs: seq<Bucket<K, V>>)
    ensures |bs| == n && forall i :: 0 <= i < n ==> bs[i].None?
  {
    if n == 0 then [] else NoBuckets(n - 1) + [None]
  }

  /** A bucket with the first entry for key k taken out, the others
      keeping their order. */
  function WithoutKey<K(==), V>(b: seq<Entry<K, V>>, k: K): seq<Entry<K, V>>
  {
    var p := KeyIndex(b, k);
    if p == -1 then b else b[..p] + b[p + 1..]
  }

  /** The buckets the resize pass builds from the entries s: each entry in
      turn is appended to the bucket its hash code normalizes to under the
      new capacity, and a bucket stays absent until its first entry
      arrives. */
  ghost function Rehash<K, V>(s: seq<Entry<K, V>>, cap: int): (bs: seq<Bucket<K, V>>)
    requires cap > 0
    ensures |bs| == cap
  {
    if s == [] then NoBuckets(cap)
    else
      var bs := Rehash(s[..|s| - 1], cap);
      var j := NormalizeIndex(s[|s| - 1].hash, cap);
      bs[j := Some(Items(bs[j]) + [s[|s| - 1]])]
  }

  // ---------------------------------------------------------------------
  // Lemmas about the flattened table

  lemma MultisetCancel<T>(a: multiset<T>, b: multiset<T>, c: multiset<T>, d: multiset<T>)
    requires a + b == c + (b + d)
    ensures a == c + d
  {
    forall o ensures a[o] == (c + d)[o] {
      assert (a + b)[o] == (c + (b + d))[o];
    }
  }

  lemma {:induction false} FlattenHas<K, V>(bs: seq<Bucket<K, V>>, i: int, e: Entry<K, V>)
    requires 0 <= i < |bs| && e in Items(bs[i])
    ensures e in Flatten(bs)
  {
    if i < |bs| - 1 {
      FlattenHas(bs[..|bs| - 1], i, e);
    }
  }

  lemma {:induction false} FlattenWhere<K, V>(bs: seq<Bucket<K, V>>, e: Entry<K, V>) returns (i: int)
    requires e in Flatten(bs)
    ensures 0 <= i < |bs| && e in Items(bs[i])
  {
    if e in Items(bs[|bs| - 1]) {
      i := |bs| - 1;
    } else {
      i := FlattenWhere(bs[..|bs| - 1], e);
    }
  }

  lemma {:induction false} FlattenNone<K, V>(bs: seq<Bucket<K, V>>)
    requires forall i :: 0 <= i < |bs| ==> bs[i].None?
    ensures Flatten(bs) == []
  {
    if bs != [] {
      FlattenNone(bs[..|bs| - 1]);
    }
  }

  /** Replacing one bucket replaces its entries in the flattened table and
      leaves every other entry where it was. */
  lemma {:induction false} FlattenUpdate<K, V>(bs: seq<Bucket<K, V>>, i: int, x: Bucket<K, V>)
    requires 0 <= i < |bs|
    ensures multiset(Flatten(bs[i := x])) + multiset(Items(bs[i])) == multiset(Flatten(bs)) + multiset(Items(x))
  {
    var n := |bs|;
    var bs' := bs[i := x];
    var init := bs[..n - 1];
    assert Flatten(bs) == Flatten(init) + Items(bs[n - 1]);
    if i == n - 1 {
      assert bs'[..n - 1] == init;
      assert Flatten(bs') == Flatten(init) + Items(x);
      MultisetCommute(multiset(Flatten(init)), multiset(Items(x)), multiset(Items(bs[i])));
    } else {
      assert bs'[..n - 1] == init[i := x];
      assert Flatten(bs') == Flatten(init[i := x]) + Items(bs[n - 1]);
      assert init[i] == bs[i];
      FlattenUpdate(init, i, x);
      MultisetShift(multiset(Flatten(init[i := x])), multiset(Items(bs[i])), multiset(Flatten(init)), multiset(Items(x)), multiset(Items(bs[n - 1])));
    }
  }

  lemma MultisetCommute<T>(c: multiset<T>, d: multiset<T>, b: multiset<T>)
    ensures (c + d) + b == (c + b) + d
  {
  }

  lemma MultisetShift<T>(a: multiset<T>, b: multiset<T>, c: multiset<T>, d: multiset<T>, l: multiset<T>)
    requires a + b == c + d
    ensures (a + l) + b == (c + l) + d
  {
    calc {
      (a + l) + b;
      (a + b) + l;
      (c + d) + l;
      (c + l) + d;
    }
  }

  /** Replacing one bucket changes the number of entries by the
      difference of the two buckets' sizes. */
  lemma {:induction false} FlattenLength<K, V>(bs: seq<Bucket<K, V>>, i: int, x: Bucket<K, V>)
    requires 0 <= i < |bs|
    ensures |Flatten(bs[i := x])| + |Items(bs[i])| == |Flatten(bs)| + |Items(x)|
  {
    var n := |bs|;
    var init := bs[..n - 1];
    assert Flatten(bs) == Flatten(init) + Items(bs[n - 1]);
    if i == n - 1 {
      assert bs[i := x][..n - 1] == init;
    } else {
      assert bs[i := x][..n - 1] == init[i := x];
      assert init[i] == bs[i];
      FlattenLength(init, i, x);
    }
  }

  /** Replacing an absent bucket by an empty one changes no entry. */
  lemma {:induction false} FlattenEmptyBucket<K, V>(bs: seq<Bucket<K, V>>, i: int)
    requires 0 <= i < |bs| && bs[i].None?
    ensures Flatten(bs[i := Some([])]) == Flatten(bs)
  {
    var n := |bs|;
    if i < n - 1 {
      assert bs[i := Some([])][..n - 1] == bs[..n - 1][i := Some([])];
      FlattenEmptyBucket(bs[..n - 1], i);
    } else {
      assert bs[i := Some([])][..n - 1] == bs[..n - 1];
    }
  }

  lemma MultisetSwap<T>(a: multiset<T>, r: multiset<T>, x: multiset<T>, c: multiset<T>, y: multiset<T>)
    requires a + (r + x) == c + (r + y)
    ensures a + x == c + y
  {
    forall o ensures (a + x)[o] == (c + y)[o] {
      assert (a + (r + x))[o] == (c + (r + y))[o];
    }
  }

  /** Appending an entry to a bucket adds it to the table's entries. */
  lemma FlattenAppend<K, V>(bs: seq<Bucket<K, V>>, i: int, e: Entry<K, V>)
    requires 0 <= i < |bs|
    ensures multiset(Flatten(bs[i := Some(Items(bs[i]) + [e])])) == multiset(Flatten(bs)) + multiset{e}
  {
    var b := Items(bs[i]);
    FlattenUpdate(bs, i, Some(b + [e]));
    assert multiset(b + [e]) == multiset(b) + multiset{e};
    MultisetCancel(multiset(Flatten(bs[i := Some(b + [e])])), multiset(b), multiset(Flatten(bs)), multiset{e});
  }

  /** The entries of a sequence other than the one at position p, with
      that one put back or replaced. */
  lemma SplitAt<T>(b: seq<T>, p: int, e: T)
    requires 0 <= p < |b|
    ensures multiset(b) == multiset(b[..p] + b[p + 1..]) + multiset{b[p]}
    ensures multiset(b[p := e]) == multiset(b[..p] + b[p + 1..]) + multiset{e}
  {
    assert b == b[..p] + [b[p]] + b[p + 1..];
    assert b[p := e] == b[..p] + [e] + b[p + 1..];
    calc {
      multiset(b);
      multiset(b[..p]) + multiset{b[p]} + multiset(b[p + 1..]);
      multiset(b[..p]) + multiset(b[p + 1..]) + multiset{b[p]};
      multiset(b[..p] + b[p + 1..]) + multiset{b[p]};
    }
    calc {
      multiset(b[p := e]);
      multiset(b[..p]) + multiset{e} + multiset(b[p + 1..]);
      multiset(b[..p]) + multiset(b[p + 1..]) + multiset{e};
      multiset(b[..p] + b[p + 1..]) + multiset{e};
    }
  }

  /** Taking one entry out of a bucket keeps its keys distinct and adds
      no entry. */
  lemma DeleteKeepsUnique<K, V>(b: seq<Entry<K, V>>, p: int)
    requires KeysUnique(b) && 0 <= p < |b|
    ensures KeysUnique(b[..p] + b[p + 1..])
    ensures forall e :: e in b[..p] + b[p + 1..] ==> e in b
  {
    var c := b[..p] + b[p + 1..];
    forall u, v | 0 <= u < v < |c| ensures c[u].key != c[v].key {
      var u' := if u < p then u else u + 1;
      var v' := if v < p then v else v + 1;
      assert c[u] == b[u'] && c[v] == b[v'];
    }
    forall e | e in c ensures e in b {
      var u :| 0 <= u < |c| && c[u] == e;
      assert c[u] == b[if u < p then u else u + 1];
    }
  }

  /** Replacing the entry at position p of a bucket by e replaces it among
      the table's entries. */
  lemma FlattenReplace<K, V>(bs: seq<Bucket<K, V>>, i: int, p: int, e: Entry<K, V>)
    requires 0 <= i < |bs| && 0 <= p < |Items(bs[i])|
    ensures multiset(Flatten(bs[i := Some(Items(bs[i])[p := e])])) + multiset{Items(bs[i])[p]} == multiset(Flatten(bs)) + multiset{e}
  {
    var b := Items(bs[i]);
    FlattenUpdate(bs, i, Some(b[p := e]));
    SplitAt(b, p, e);
    MultisetSwap(multiset(Flatten(bs[i := Some(b[p := e])])), multiset(b[..p] + b[p + 1..]), multiset{b[p]}, multiset(Flatten(bs)), multiset{e});
  }

  /** Taking the entry at position p out of a bucket takes it out of the
      table's entries. */
  lemma FlattenDelete<K, V>(bs: seq<Bucket<K, V>>, i: int, p: int)
    requires 0 <= i < |bs| && 0 <= p < |Items(bs[i])|
    ensures var b := Items(bs[i]);
            multiset(Flatten(bs[i := Some(b[..p] + b[p + 1..])])) + multiset{b[p]} == multiset(Flatten(bs))
  {
    var b := Items(bs[i]);
    var c := b[..p] + b[p + 1..];
    FlattenUpdate(bs, i, Some(c));
    SplitAt(b, p, b[p]);
    MultisetSwap(multiset(Flatten(bs[i := Some(c)])), multiset(c), multiset{b[p]}, multiset(Flatten(bs)), multiset{});
    assert multiset(Flatten(bs)) + multiset{} == multiset(Flatten(bs));
  }

  /** A bucket replaced by one whose entries all belong in it, with
      distinct keys, keeps the table well placed with distinct keys per
      bucket. */
  lemma PlacedUpdate<K, V>(bs: seq<Bucket<K, V>>, hash: K -> Int32, cap: int, i: int, x: Bucket<K, V>)
    requires cap > 0 && 0 <= i < |bs| && WellPlaced(bs, hash, cap) && BucketKeysUnique(bs)
    requires forall e :: e in Items(x) ==> e.hash == hash(e.key) && NormalizeIndex(e.hash, cap) == i
    requires KeysUnique(Items(x))
    ensures WellPlaced(bs[i := x], hash, cap) && BucketKeysUnique(bs[i := x])
  {
  }

  /** Within a well-placed table whose buckets hold distinct keys, no key
      appears twice in the whole table: equal keys have equal hash codes and
      so share a bucket. */
  lemma {:induction false} FlattenKeysUnique<K, V>(bs: seq<Bucket<K, V>>, hash: K -> Int32, cap: int)
    requires cap > 0 && WellPlaced(bs, hash, cap) && BucketKeysUnique(bs)
    ensures KeysUnique(Flatten(bs))
  {
    if bs != [] {
      var n := |bs|;
      var init := bs[..n - 1];
      FlattenKeysUnique(init, hash, cap);
      var f := Flatten(init);
      var l := Items(bs[n - 1]);
      var g := Flatten(bs);
      assert g == f + l;
      forall a, b | 0 <= a < |f| <= b < |g|
        ensures g[a].key != g[b].key
      {
        var i := FlattenWhere(init, f[a]);
        assert l[b - |f|] in Items(bs[n - 1]);
      }
    }
  }

  // ---------------------------------------------------------------------
  // Lemmas about the map a sequence of entries stands for

  /** The keys of the map are the keys of the entries. */
  lemma {:induction false} MapOfHas<K, V>(s: seq<Entry<K, V>>, k: K)
    ensures k in MapOf(s) <==> k in KeysOf(s)
  {
    if s != [] {
      MapOfHas(s[..|s| - 1], k);
    }
  }

  /** With unique keys, the map sends the key of every entry to that
      entry's value. */
  lemma {:induction false} MapOfValue<K, V>(s: seq<Entry<K, V>>, j: int)
    requires KeysUnique(s) && 0 <= j < |s|
    ensures s[j].key in MapOf(s) && MapOf(s)[s[j].key] == s[j].value
  {
    if j < |s| - 1 {
      var init := s[..|s| - 1];
      assert KeysUnique(init) by {
        forall a, b | 0 <= a < b < |init| ensures init[a].key != init[b].key {
          assert init[a] == s[a] && init[b] == s[b];
        }
      }
      MapOfValue(init, j);
    }
  }

  /** With unique keys, the map has exactly one key per entry. */
  lemma {:induction false} MapOfSize<K, V>(s: seq<Entry<K, V>>)
    requires KeysUnique(s)
    ensures |MapOf(s)| == |s|
  {
    if s != [] {
      var init := s[..|s| - 1];
      assert KeysUnique(init) by {
        forall a, b | 0 <= a < b < |init| ensures init[a].key != init[b].key {
          assert init[a] == s[a] && init[b] == s[b];
        }
      }
      MapOfSize(init);
      MapOfHas(init, s[|s| - 1].key);
    }
  }

  /** Both directions of the map in terms of the entries: the key of each
      entry maps to its value, and each key of the map is the key of some
      entry. */
  lemma MapOfChar<K, V>(s: seq<Entry<K, V>>)
    requires KeysUnique(s)
    ensures forall e :: e in s ==> e.key in MapOf(s) && MapOf(s)[e.key] == e.value
    ensures forall k :: k in MapOf(s) ==> exists j :: 0 <= j < |s| && s[j].key == k && MapOf(s)[k] == s[j].value
  {
    forall e | e in s
      ensures e.key in MapOf(s) && MapOf(s)[e.key] == e.value
    {
      var j :| 0 <= j < |s| && s[j] == e;
      MapOfValue(s, j);
    }
    forall k | k in MapOf(s)
      ensures exists j :: 0 <= j < |s| && s[j].key == k && MapOf(s)[k] == s[j].value
    {
      MapOfHas(s, k);
      var j :| 0 <= j < |s| && KeysOf(s)[j] == k;
      MapOfValue(s, j);
    }
  }

  /** An entry occurs at most once in a sequence with unique keys. */
  lemma {:induction false} UniqueCount<K, V>(s: seq<Entry<K, V>>, e: Entry<K, V>)
    requires KeysUnique(s)
    ensures multiset(s)[e] <= 1
  {
    if s != [] {
      var init := s[..|s| - 1];
      assert s == init + [s[|s| - 1]];
      assert KeysUnique(init) by {
        forall a, b | 0 <= a < b < |init| ensures init[a].key != init[b].key {
          assert init[a] == s[a] && init[b] == s[b];
        }
      }
      UniqueCount(init, e);
      assert s[|s| - 1] !in init by {
        forall j | 0 <= j < |init| ensures init[j] != s[|s| - 1] {
          assert s[j].key != s[|s| - 1].key;
        }
      }
    }
  }

  /** An entry of a sequence with unique keys is the map's binding for its
      key. */
  lemma {:induction false} MapOfEntry<K, V>(s: seq<Entry<K, V>>, e: Entry<K, V>)
    requires KeysUnique(s) && e in multiset(s)
    ensures e.key in MapOf(s) && MapOf(s)[e.key] == e.value
  {
    assert e in s;
    var j :| 0 <= j < |s| && s[j] == e;
    MapOfValue(s, j);
  }

  /** Each binding of the map comes from an entry of the sequence. */
  lemma {:induction false} MapOfWitness<K, V>(s: seq<Entry<K, V>>, k: K) returns (e: Entry<K, V>)
    requires KeysUnique(s) && k in MapOf(s)
    ensures e in multiset(s) && e.key == k && e.value == MapOf(s)[k]
  {
    MapOfHas(s, k);
    var j :| 0 <= j < |s| && KeysOf(s)[j] == k;
    MapOfValue(s, j);
    e := s[j];
    assert e in s;
  }

  /** Two sequences with the same entries and unique keys stand for the
      same map, whatever their order. */
  lemma MapOfSame<K, V>(s: seq<Entry<K, V>>, t: seq<Entry<K, V>>)
    requires KeysUnique(s) && KeysUnique(t) && multiset(s) == multiset(t)
    ensures MapOf(s) == MapOf(t)
  {
    forall k | k in MapOf(s)
      ensures k in MapOf(t) && MapOf(t)[k] == MapOf(s)[k]
    {
      var w := MapOfWitness(s, k);
      MapOfEntry(t, w);
    }
    forall k | k in MapOf(t)
      ensures k in MapOf(s)
    {
      var w := MapOfWitness(t, k);
      MapOfEntry(s, w);
    }
  }

  /** Adding an entry with a new key adds that key and value to the map. */
  lemma MapOfAdd<K, V>(s: seq<Entry<K, V>>, t: seq<Entry<K, V>>, e: Entry<K, V>)
    requires KeysUnique(s) && KeysUnique(t) && multiset(t) == multiset(s) + multiset{e}
    ensures MapOf(t) == MapOf(s)[e.key := e.value]
  {
    MapOfEntry(t, e);
    forall k | k in MapOf(s) && k != e.key
      ensures k in MapOf(t) && MapOf(t)[k] == MapOf(s)[k]
    {
      var w := MapOfWitness(s, k);
      MapOfEntry(t, w);
    }
    forall k | k in MapOf(t) && k != e.key
      ensures k in MapOf(s)
    {
      var w := MapOfWitness(t, k);
      assert w != e;
      MapOfEntry(s, w);
    }
  }

  /** Taking out an entry takes its key out of the map. */
  lemma MapOfRemove<K, V>(s: seq<Entry<K, V>>, t: seq<Entry<K, V>>, x: Entry<K, V>)
    requires KeysUnique(s) && KeysUnique(t) && multiset(t) + multiset{x} == multiset(s)
    ensures MapOf(t) == MapOf(s) - {x.key}
  {
    assert x in multiset(s);
    UniqueCount(s, x);
    MapOfEntry(s, x);
    forall k | k in MapOf(s) && k != x.key
      ensures k in MapOf(t) && MapOf(t)[k] == MapOf(s)[k]
    {
      var w := MapOfWitness(s, k);
      assert w != x;
      MapOfEntry(t, w);
    }
    forall k | k in MapOf(t)
      ensures k in MapOf(s) && k != x.key
    {
      var w := MapOfWitness(t, k);
      assert (multiset(t) + multiset{x})[x] == multiset(s)[x];
      assert w != x;
      MapOfEntry(s, w);
    }
  }

  /** Replacing an entry by one with the same key overwrites that key's
      value in the map. */
  lemma MapOfReplace<K, V>(s: seq<Entry<K, V>>, t: seq<Entry<K, V>>, x: Entry<K, V>, e: Entry<K, V>)
    requires KeysUnique(s) && KeysUnique(t) && x in s && x.key == e.key
    requires multiset(t) + multiset{x} == multiset(s) + multiset{e}
    ensures MapOf(t) == MapOf(s)[e.key := e.value]
  {
    assert (multiset(t) + multiset{x})[e] == (multiset(s) + multiset{e})[e];
    MapOfEntry(t, e);
    forall k | k in MapOf(s) && k != e.key
      ensures k in MapOf(t) && MapOf(t)[k] == MapOf(s)[k]
    {
      var w := MapOfWitness(s, k);
      assert (multiset(t) + multiset{x})[w] == (multiset(s) + multiset{e})[w];
      MapOfEntry(t, w);
    }
    forall k | k in MapOf(t) && k != e.key
      ensures k in MapOf(s)
    {
      var w := MapOfWitness(t, k);
      assert (multiset(t) + multiset{x})[w] == (multiset(s) + multiset{e})[w];
      MapOfEntry(s, w);
    }
  }

  // ---------------------------------------------------------------------
  // Lookup and rehashing

  /** Appending an entry with a new key to the bucket its hash code
      selects keeps the table valid, adds one entry and binds its key. */
  lemma AppendValid<K, V>(bs: seq<Bucket<K, V>>, hash: K -> Int32, cap: int, i: int, e: Entry<K, V>)
    requires cap > 0 && 0 <= i < |bs| && WellPlaced(bs, hash, cap) && BucketKeysUnique(bs)
    requires bs[i].Some? && e.hash == hash(e.key) && NormalizeIndex(e.hash, cap) == i
    requires KeyIndex(bs[i].value, e.key) == -1
    ensures var bs' := bs[i := Some(bs[i].value + [e])];
            && WellPlaced(bs', hash, cap) && BucketKeysUnique(bs')
            && |Flatten(bs')| == |Flatten(bs)| + 1
            && MapOf(Flatten(bs')) == MapOf(Flatten(bs))[e.key := e.value]
  {
    var b := bs[i].value;
    var bs' := bs[i := Some(b + [e])];
    FlattenAppend(bs, i, e);
    assert KeysUnique(b + [e]);
    PlacedUpdate(bs, hash, cap, i, Some(b + [e]));
    FlattenKeysUnique(bs, hash, cap);
    FlattenKeysUnique(bs', hash, cap);
    MapOfAdd(Flatten(bs), Flatten(bs'), e);
    FlattenLength(bs, i, Some(b + [e]));
  }

  /** Overwriting the entry at position p of bucket i by one with the same
      key keeps the table valid and its size, and rebinds that key. */
  lemma ReplaceValid<K, V>(bs: seq<Bucket<K, V>>, hash: K -> Int32, cap: int, i: int, p: int, e: Entry<K, V>)
    requires cap > 0 && 0 <= i < |bs| && WellPlaced(bs, hash, cap) && BucketKeysUnique(bs)
    requires bs[i].Some? && 0 <= p < |bs[i].value|
    requires e.key == bs[i].value[p].key && e.hash == hash(e.key)
    ensures var bs' := bs[i := Some(bs[i].value[p := e])];
            && WellPlaced(bs', hash, cap) && BucketKeysUnique(bs')
            && |Flatten(bs')| == |Flatten(bs)|
            && MapOf(Flatten(bs')) == MapOf(Flatten(bs))[e.key := e.value]
  {
    var b := bs[i].value;
    var bs' := bs[i := Some(b[p := e])];
    FlattenReplace(bs, i, p, e);
    assert KeysUnique(b[p := e]);
    PlacedUpdate(bs, hash, cap, i, Some(b[p := e]));
    FlattenKeysUnique(bs, hash, cap);
    FlattenKeysUnique(bs', hash, cap);
    FlattenHas(bs, i, b[p]);
    MapOfReplace(Flatten(bs), Flatten(bs'), b[p], e);
    FlattenLength(bs, i, Some(b[p := e]));
  }

  /** Deleting the entry at position p of bucket i keeps the table valid,
      takes one entry away and takes that entry's key out of the map. */
  lemma DeleteValid<K, V>(bs: seq<Bucket<K, V>>, hash: K -> Int32, cap: int, i: int, p: int)
    requires cap > 0 && 0 <= i < |bs| && WellPlaced(bs, hash, cap) && BucketKeysUnique(bs)
    requires bs[i].Some? && 0 <= p < |bs[i].value|
    ensures var b := bs[i].value;
            var bs' := bs[i := Some(b[..p] + b[p + 1..])];
            && WellPlaced(bs', hash, cap) && BucketKeysUnique(bs')
            && |Flatten(bs')| == |Flatten(bs)| - 1
            && MapOf(Flatten(bs')) == MapOf(Flatten(bs)) - {b[p].key}
  {
    var b := bs[i].value;
    var bs' := bs[i := Some(b[..p] + b[p + 1..])];
    FlattenDelete(bs, i, p);
    DeleteKeepsUnique(b, p);
    PlacedUpdate(bs, hash, cap, i, Some(b[..p] + b[p + 1..]));
    FlattenKeysUnique(bs, hash, cap);
    FlattenKeysUnique(bs', hash, cap);
    MapOfRemove(Flatten(bs), Flatten(bs'), b[p]);
    FlattenLength(bs, i, Some(b[..p] + b[p + 1..]));
  }

  /** In a well-placed table with distinct keys per bucket, a key is in the
      table's map exactly when the bucket its hash code selects holds it,
      and then the map gives that entry's value: looking in one bucket is
      enough. */
  lemma BucketLookup<K, V>(bs: seq<Bucket<K, V>>, hash: K -> Int32, cap: int, k: K)
    requires cap > 0 && |bs| == cap && WellPlaced(bs, hash, cap) && BucketKeysUnique(bs)
    ensures var b := Items(bs[NormalizeIndex(hash(k), cap)]);
            (k in MapOf(Flatten(bs)) <==> KeyIndex(b, k) >= 0) &&
            (KeyIndex(b, k) >= 0 ==> MapOf(Flatten(bs))[k] == b[KeyIndex(b, k)].value)
  {
    var i := NormalizeIndex(hash(k), cap);
    var b := Items(bs[i]);
    var f := Flatten(bs);
    FlattenKeysUnique(bs, hash, cap);
    MapOfChar(f);
    var p := KeyIndex(b, k);
    if p >= 0 {
      FlattenHas(bs, i, b[p]);
    }
    if k in MapOf(f) {
      var j :| 0 <= j < |f| && f[j].key == k && MapOf(f)[k] == f[j].value;
      var i' := FlattenWhere(bs, f[j]);
      assert f[j] in b;
    }
  }

  /** The resize pass keeps every entry, and nothing else. */
  lemma {:induction false} RehashFlatten<K, V>(s: seq<Entry<K, V>>, cap: int)
    requires cap > 0
    ensures multiset(Flatten(Rehash(s, cap))) == multiset(s)
  {
    if s == [] {
      FlattenNone(Rehash(s, cap));
    } else {
      var n := |s|;
      var init := s[..n - 1];
      var e := s[n - 1];
      assert s == init + [e];
      RehashFlatten(init, cap);
      var bs := Rehash(init, cap);
      var j := NormalizeIndex(e.hash, cap);
      var nb := Items(bs[j]) + [e];
      assert Rehash(s, cap) == bs[j := Some(nb)];
      FlattenUpdate(bs, j, Some(nb));
      var a, b, c := multiset(Flatten(bs[j := Some(nb)])), multiset(Items(bs[j])), multiset(init);
      assert a + b == c + (b + multiset{e});
      MultisetCancel(a, b, c, multiset{e});
    }
  }

  /** The resize pass puts each entry in the bucket its hash code selects
      under the new capacity and keeps the keys of every bucket
      distinct. */
  lemma {:induction false} RehashPlaced<K, V>(s: seq<Entry<K, V>>, cap: int, hash: K -> Int32)
    requires cap > 0 && KeysUnique(s)
    requires forall e :: e in s ==> e.hash == hash(e.key)
    ensures WellPlaced(Rehash(s, cap), hash, cap)
    ensures BucketKeysUnique(Rehash(s, cap))
  {
    if s != [] {
      var n := |s|;
      var init := s[..n - 1];
      var e := s[n - 1];
      assert s == init + [e];
      assert KeysUnique(init) by {
        forall a, b | 0 <= a < b < |init| ensures init[a].key != init[b].key {
          assert init[a] == s[a] && init[b] == s[b];
        }
      }
      RehashPlaced(init, cap, hash);
      var bs := Rehash(init, cap);
      var j := NormalizeIndex(e.hash, cap);
      var nb := Items(bs[j]) + [e];
      assert Rehash(s, cap) == bs[j := Some(nb)];
      RehashFreshKey(s, cap);
      PlacedUpdate(bs, hash, cap, j, Some(nb));
    }
  }

  /** The last entry's key is new to the bucket the resize pass appends it
      to, because the keys of the entries are distinct. */
  lemma {:induction false} RehashFreshKey<K, V>(s: seq<Entry<K, V>>, cap: int)
    requires cap > 0 && KeysUnique(s) && s != []
    ensures var bs := Rehash(s[..|s| - 1], cap);
            var e := s[|s| - 1];
            var b := Items(bs[NormalizeIndex(e.hash, cap)]);
            KeysUnique(b) ==> KeysUnique(b + [e])
  {
    var n := |s|;
    var init := s[..n - 1];
    var e := s[n - 1];
    RehashFlatten(init, cap);
    var bs := Rehash(init, cap);
    var j := NormalizeIndex(e.hash, cap);
    forall a | 0 <= a < |Items(bs[j])|
      ensures Items(bs[j])[a].key != e.key
    {
      FlattenHas(bs, j, Items(bs[j])[a]);
      assert Items(bs[j])[a] in multiset(init);
      var c :| 0 <= c < |init| && init[c] == Items(bs[j])[a];
      assert s[c] == init[c];
    }
  }

  lemma SnocSlice<T>(a: seq<T>, b: seq<T>, p: int)
    requires 0 <= p < |b|
    ensures a + b[..p + 1] == (a + b[..p]) + [b[p]]
    ensures a + b[..0] == a
  {
    assert b[..p + 1] == b[..p] + [b[p]];
  }

  /** The entries of the first i + 1 buckets: those of the first i, then
      bucket i's. */
  lemma FlattenSnoc<K, V>(bs: seq<Bucket<K, V>>, i: int)
    requires 0 <= i < |bs|
    ensures Flatten(bs[..i + 1]) == Flatten(bs[..i]) + Items(bs[i])
    ensures bs[i].None? ==> Flatten(bs[..i + 1]) == Flatten(bs[..i])
  {
    assert bs[..i + 1][..i] == bs[..i];
  }

  lemma RehashSnoc<K, V>(s: seq<Entry<K, V>>, e: Entry<K, V>, cap: int)
    requires cap > 0
    ensures var bs := Rehash(s, cap);
            var j := NormalizeIndex(e.hash, cap);
            Rehash(s + [e], cap) == bs[j := Some(Items(bs[j]) + [e])]
  {
    assert (s + [e])[..|s|] == s;
  }

  /** Rehashing a valid table into any capacity gives a valid table with
      the same number of entries and the same map. */
  lemma RehashValid<K, V>(bs: seq<Bucket<K, V>>, cap: int, cap': int, hash: K -> Int32)
    requires cap > 0 && cap' > 0 && WellPlaced(bs, hash, cap) && BucketKeysUnique(bs)
    ensures var bs' := Rehash(Flatten(bs), cap');
            && WellPlaced(bs', hash, cap') && BucketKeysUnique(bs')
            && |Flatten(bs')| == |Flatten(bs)|
            && MapOf(Flatten(bs')) == MapOf(Flatten(bs))
  {
    var f := Flatten(bs);
    FlattenKeysUnique(bs, hash, cap);
    forall e | e in f
      ensures e.hash == hash(e.key)
    {
      var q := FlattenWhere(bs, e);
    }
    RehashFlatten(f, cap');
    RehashPlaced(f, cap', hash);
    var bs' := Rehash(f, cap');
    FlattenKeysUnique(bs', hash, cap');
    MapOfSame(f, Flatten(bs'));
    assert |multiset(Flatten(bs'))| == |Flatten(bs')|;
    assert |multiset(f)| == |f|;
  }

  lemma KeysValuesSnoc<K, V>(s: seq<Entry<K, V>>, e: Entry<K, V>)
    ensures KeysOf(s + [e]) == KeysOf(s) + [e.key]
    ensures ValuesOf(s + [e]) == ValuesOf(s) + [e.value]
  {
    assert (s + [e])[..|s|] == s;
  }

  // ---------------------------------------------------------------------
  // The table object

  class HashTableSeparateChaining<K(==), V> {
    /** The keys' `hashCode`. */
    const hash: K -> Int32
    /** `maxLoadFactor`, as the fraction loadNum / loadDen. */
    const loadNum: int
    const loadDen: int
    var capacity: int
    var size: int
    var threshold: int
    var table: array<Bucket<K, V>>

    ghost predicate Valid()
      reads this, table
    {
      && loadNum > 0 && loadDen > 0
      && capacity >= DefaultCapacity && table.Length == capacity
      && threshold == Threshold(capacity, loadNum, loadDen)
      && WellPlaced(table[..], hash, capacity)
      && BucketKeysUnique(table[..])
      && size == |Flatten(table[..])|
    }

    /** The key-to-value map the table stands for. */
    ghost function Mapping(): map<K, V>
      reads this, table
    {
      MapOf(Flatten(table[..]))
    }

    /** The bucket `normalizeIndex(key.hashCode())` selects. */
    function Index(k: K): int
      reads this
      requires capacity > 0
    {
      NormalizeIndex(hash(k), capacity)
    }

    /** `HashTableSeparateChaining(capacity, maxLoadFactor)` when both are
        legal: at least `DEFAULT_CAPACITY` buckets, all absent. */
    constructor (initialCapacity: int, num: int, den: int, hashCode: K -> Int32)
      requires initialCapacity >= 0 && num > 0 && den > 0
      ensures Valid() && fresh(table)
      ensures capacity == Max(DefaultCapacity, initialCapacity)
      ensures loadNum == num && loadDen == den && hash == hashCode
      ensures size == 0 && Mapping() == map[]
      ensures forall i :: 0 <= i < table.Length ==> table[i].None?
    {
      hash := hashCode;
      loadNum := num;
      loadDen := den;
      capacity := Max(DefaultCapacity, initialCapacity);
      threshold := Threshold(Max(DefaultCapacity, initialCapacity), num, den);
      table := new Bucket<K, V>[Max(DefaultCapacity, initialCapacity)](_ => None);
      size := 0;
      new;
      FlattenNone(table[..]);
    }

    /** The designated constructor with its argument checks: a negative
        capacity or a load factor that is not positive is an
        `IllegalArgumentException`. The load factor is passed as the
        fraction num / den. */
    static method Create(initialCapacity: int, num: int, den: int, hashCode: K -> Int32)
      returns (r: Result<HashTableSeparateChaining<K, V>>)
      requires den > 0
      ensures r.Err? <==> initialCapacity < 0 || num <= 0
      ensures r.Err? ==> r.error == IllegalArgument
      ensures r.Ok? ==> fresh(r.value) && fresh(r.value.table) && r.value.Valid()
      ensures r.Ok? ==> r.value.capacity == Max(DefaultCapacity, initialCapacity) && r.value.Mapping() == map[]
    {
      if initialCapacity < 0 || num <= 0 {
        return Err(IllegalArgument);
      }
      var t := new HashTableSeparateChaining(initialCapacity, num, den, hashCode);
      return Ok(t);
    }

    /** `size()`: the number of keys in the map. */
    function Size(): (n: int)
      reads this, table
      requires Valid()
      ensures n == |Mapping()|
    {
      FlattenKeysUnique(table[..], hash, capacity);
      MapOfSize(Flatten(table[..]));
      size
    }

    function IsEmpty(): (b: bool)
      reads this, table
      requires Valid()
      ensures b <==> Mapping() == map[]
    {
      Size() == 0
    }

    /** `Entry.equals` on the table's own entries singles each entry out:
        two positions of the table hold equal entries only if they are the
        same position. */
    lemma EntriesDistinct()
      requires Valid()
      ensures forall a, b :: 0 <= a < |Flatten(table[..])| && 0 <= b < |Flatten(table[..])| ==>
                (EntryEquals(Flatten(table[..])[a], Flatten(table[..])[b]) <==> a == b)
    {
      FlattenKeysUnique(table[..], hash, capacity);
    }

    /** `clear`: every bucket becomes `null` and the size 0. */
    method Clear()
      requires Valid()
      modifies this, table
      ensures Valid() && table == old(table)
      ensures capacity == old(capacity) && threshold == old(threshold)
      ensures size == 0 && Mapping() == map[]
      ensures forall i :: 0 <= i < table.Length ==> table[i].None?
    {
      forall i | 0 <= i < table.Length {
        table[i] := None;
      }
      size := 0;
      FlattenNone(table[..]);
    }

    /** `bucketSeekEntry`: the position, in bucket `bucketIndex`, of the
        entry with the given key, or -1 (`null`) for a `null` key, an
        absent bucket or a key the bucket does not hold. */
    method SeekEntry(bucketIndex: int, key: Option<K>) returns (p: int)
      requires 0 <= bucketIndex < table.Length
      ensures key.None? ==> p == -1
      ensures key.Some? ==> p == KeyIndex(Items(table[bucketIndex]), key.value)
    {
      if key.None? {
        return -1;
      }
      var bucket := table[bucketIndex];
      if bucket.None? {
        return -1;
      }
      var b := bucket.value;
      var q := 0;
      while q < |b|
        invariant 0 <= q <= |b|
        invariant forall c :: 0 <= c < q ==> b[c].key != key.value
      {
        if b[q].key == key.value {
          return q;
        }
        q := q + 1;
      }
      return -1;
    }

    /** `hasKey`: a `null` key fails on `key.hashCode()`; otherwise whether
        the key is in the map. */
    method HasKey(key: Option<K>) returns (r: Result<bool>)
      requires Valid()
      ensures key.None? ==> r == Err(NullPointer)
      ensures key.Some? ==> r == Ok(key.value in Mapping())
    {
      if key.None? {
        return Err(NullPointer);
      }
      var i := NormalizeIndex(hash(key.value), capacity);
      var p := SeekEntry(i, key);
      BucketLookup(table[..], hash, capacity, key.value);
      return Ok(p != -1);
    }

    /** `get`: the key's value, or `None` for a `null` or absent key. */
    method Get(key: Option<K>) returns (r: Option<V>)
      requires Valid()
      ensures key.None? ==> r.None?
      ensures key.Some? ==> (r.Some? <==> key.value in Mapping())
      ensures key.Some? && r.Some? ==> r.value == Mapping()[key.value]
    {
      if key.None? {
        return None;
      }
      var i := NormalizeIndex(hash(key.value), capacity);
      var p := SeekEntry(i, key);
      BucketLookup(table[..], hash, capacity, key.value);
      if p != -1 {
        return Some(table[i].value[p].value);
      }
      return None;
    }

    /** Line 110 of `bucketInsertEntry`: an absent bucket is replaced by an
        empty list, which changes no entry. */
    method CreateBucket(i: int)
      requires Valid() && 0 <= i < table.Length && table[i].None?
      modifies table
      ensures Valid()
      ensures table[..] == old(table[..])[i := Some([])]
      ensures Mapping() == old(Mapping())
    {
      ghost var bs := table[..];
      table[i] := Some([]);
      assert table[..] == bs[i := Some([])];
      FlattenEmptyBucket(bs, i);
    }

    /** `insert` / `bucketInsertEntry`, as written. A `null` key is an
        `IllegalArgumentException`. When the key's bucket is `null`, an
        empty list is stored there but the entry is added through the stale
        `null` local, so the call fails with a `NullPointerException` and
        stores nothing. Otherwise an existing key's value is overwritten
        and the old value returned, or the new entry is appended, the size
        grows, the table is resized once the size exceeds the threshold, and
        `None` is returned. */
    method Insert(key: Option<K>, value: V) returns (r: Result<Option<V>>)
      requires Valid()
      modifies this, table
      ensures Valid()
      ensures key.None? ==> r == Err(IllegalArgument) && table == old(table) && table[..] == old(table[..]) && size == old(size)
      ensures key.Some? && old(table[Index(key.value)]).None? ==>
        && r == Err(NullPointer)
        && table == old(table) && table[..] == old(table[..])[old(Index(key.value)) := Some([])]
        && size == old(size) && Mapping() == old(Mapping())
      ensures key.Some? && old(table[Index(key.value)]).Some? ==>
        && r.Ok? && Mapping() == old(Mapping())[key.value := value]
        && r.value == (if key.value in old(Mapping()) then Some(old(Mapping())[key.value]) else None)
      ensures key.Some? && old(table[Index(key.value)]).Some? && key.value in old(Mapping()) ==>
        var b := old(table[Index(key.value)]).value;
        var p := KeyIndex(b, key.value);
        && size == old(size) && capacity == old(capacity) && table == old(table)
        && 0 <= p && table[..] == old(table[..])[old(Index(key.value)) := Some(b[p := Entry(hash(key.value), key.value, value)])]
      ensures key.Some? && old(table[Index(key.value)]).Some? && key.value !in old(Mapping()) ==>
        var b := old(table[Index(key.value)]).value;
        var bs := old(table[..])[old(Index(key.value)) := Some(b + [Entry(hash(key.value), key.value, value)])];
        && size == old(size) + 1
        && (size > old(threshold) ==> capacity == 2 * old(capacity) && fresh(table) && table[..] == Rehash(Flatten(bs), capacity))
        && (size <= old(threshold) ==> capacity == old(capacity) && table == old(table) && table[..] == bs)
    {
      if key.None? {
        return Err(IllegalArgument);
      }
      var k := key.value;
      var e := Entry(hash(k), k, value);
      var i := NormalizeIndex(e.hash, capacity);
      if table[i].None? {
        CreateBucket(i);
        return Err(NullPointer);
      }
      var p := SeekEntry(i, key);
      BucketLookup(table[..], hash, capacity, k);
      if p == -1 {
        AppendEntry(i, e);
        if size > threshold {
          ResizeTable();
        }
        return Ok(None);
      }
      var prior := table[i].value[p].value;
      ReplaceEntry(i, p, e);
      return Ok(Some(prior));
    }

    /** Line 114 when `bucket` is not `null`: the entry for a key the
        bucket lacks is appended to it and the size grows. */
    method AppendEntry(i: int, e: Entry<K, V>)
      requires Valid() && 0 <= i < table.Length && table[i].Some?
      requires e.hash == hash(e.key) && NormalizeIndex(e.hash, capacity) == i
      requires KeyIndex(table[i].value, e.key) == -1
      modifies this, table
      ensures Valid() && table == old(table)
      ensures capacity == old(capacity) && threshold == old(threshold) && size == old(size) + 1
      ensures table[..] == old(table[..])[i := Some(old(table[i]).value + [e])]
      ensures Mapping() == old(Mapping())[e.key := e.value]
    {
      ghost var bs := table[..];
      var b := table[i].value;
      table[i] := Some(b + [e]);
      size := size + 1;
      assert table[..] == bs[i := Some(b + [e])];
      AppendValid(bs, hash, capacity, i, e);
    }

    /** Lines 118-120: the value of the entry at position p of bucket i is
        overwritten; its key and hash stay. */
    method ReplaceEntry(i: int, p: int, e: Entry<K, V>)
      requires Valid() && 0 <= i < table.Length && table[i].Some? && 0 <= p < |table[i].value|
      requires e.key == table[i].value[p].key && e.hash == hash(e.key)
      modifies table
      ensures Valid()
      ensures table[..] == old(table[..])[i := Some(old(table[i]).value[p := e])]
      ensures Mapping() == old(Mapping())[e.key := e.value]
    {
      ghost var bs := table[..];
      var b := table[i].value;
      table[i] := Some(b[p := e]);
      assert table[..] == bs[i := Some(b[p := e])];
      ReplaceValid(bs, hash, capacity, i, p, e);
    }

    /** `remove` / `bucketRemoveEntry`: a present key's entry leaves its
        bucket, the size shrinks and the value is returned; a `null` or
        absent key changes nothing and gives `None`. */
    method Remove(key: Option<K>) returns (r: Option<V>)
      requires Valid()
      modifies this, table
      ensures Valid() && table == old(table) && capacity == old(capacity)
      ensures key.None? || key.value !in old(Mapping()) ==> r.None? && table[..] == old(table[..]) && size == old(size)
      ensures key.Some? && key.value in old(Mapping()) ==>
        && r == Some(old(Mapping())[key.value])
        && Mapping() == old(Mapping()) - {key.value}
        && size == old(size) - 1
        && table[..] == old(table[..])[Index(key.value) := Some(WithoutKey(Items(old(table[Index(key.value)])), key.value))]
    {
      if key.None? {
        return None;
      }
      var k := key.value;
      var p := SeekEntry(NormalizeIndex(hash(k), capacity), key);
      BucketLookup(table[..], hash, capacity, k);
      if p == -1 {
        return None;
      }
      var v := RemoveAt(k, p);
      return Some(v);
    }

    /** Lines 99-103 for a key found at position p of its bucket: its
        entry leaves the bucket and the map, and its value is returned. */
    method RemoveAt(k: K, p: int) returns (v: V)
      requires Valid() && 0 <= p && p == KeyIndex(Items(table[Index(k)]), k)
      requires k in Mapping() && Mapping()[k] == table[Index(k)].value[p].value
      modifies this, table
      ensures Valid() && table == old(table) && capacity == old(capacity)
      ensures v == old(Mapping())[k] && Mapping() == old(Mapping()) - {k} && size == old(size) - 1
      ensures table[..] == old(table[..])[Index(k) := Some(WithoutKey(Items(old(table[Index(k)])), k))]
    {
      var i := NormalizeIndex(hash(k), capacity);
      var b := table[i].value;
      assert WithoutKey(b, k) == b[..p] + b[p + 1..] && b[p].key == k;
      v := b[p].value;
      DeleteEntry(i, p);
    }

    /** Lines 100-103: the entry at position p of bucket i leaves the
        bucket and the size shrinks. */
    method DeleteEntry(i: int, p: int)
      requires Valid() && 0 <= i < table.Length && table[i].Some? && 0 <= p < |table[i].value|
      modifies this, table
      ensures Valid() && table == old(table)
      ensures capacity == old(capacity) && size == old(size) - 1
      ensures table[..] == old(table[..])[i := Some(old(table[i]).value[..p] + old(table[i]).value[p + 1..])]
      ensures Mapping() == old(Mapping()) - {old(table[i]).value[p].key}
    {
      ghost var bs := table[..];
      var b := table[i].value;
      table[i] := Some(b[..p] + b[p + 1..]);
      size := size - 1;
      assert table[..] == bs[i := Some(b[..p] + b[p + 1..])];
      DeleteValid(bs, hash, capacity, i, p);
    }

    /** `resizeTable`: the capacity doubles, the threshold follows it, and
        every entry, bucket by bucket and in bucket order, is appended to
        the bucket of a new table that its cached hash code selects; each
        old bucket is then emptied and set to `null`. */
    method ResizeTable()
      requires Valid()
      modifies this, table
      ensures Valid() && fresh(table)
      ensures capacity == 2 * old(capacity) && size == old(size)
      ensures table[..] == Rehash(Flatten(old(table[..])), capacity)
      ensures Mapping() == old(Mapping())
      ensures forall i :: 0 <= i < old(table).Length ==> old(table)[i].None?
    {
      ghost var s := table[..];
      ghost var oldCapacity := capacity;
      ghost var n := |Flatten(s)|;
      assert size == n;
      capacity := capacity * 2;
      threshold := Threshold(capacity, loadNum, loadDen);
      var newTable := new Bucket<K, V>[capacity](_ => None);
      MoveBuckets(table, newTable);
      RehashValid(s, oldCapacity, capacity, hash);
      assert |Flatten(newTable[..])| == n;
      table := newTable;
    }

    /** The outer loop of `resizeTable`: bucket by bucket, the entries of
        the old table are moved to the new one, and each old bucket is set
        to `null`. */
    static method MoveBuckets(oldTable: array<Bucket<K, V>>, newTable: array<Bucket<K, V>>)
      requires oldTable != newTable && newTable.Length > 0
      requires forall q :: 0 <= q < newTable.Length ==> newTable[q].None?
      modifies oldTable, newTable
      ensures newTable[..] == Rehash(Flatten(old(oldTable[..])), newTable.Length)
      ensures forall q :: 0 <= q < oldTable.Length ==> oldTable[q].None?
    {
      ghost var s := oldTable[..];
      assert newTable[..] == Rehash(Flatten(s[..0]), newTable.Length);
      var i := 0;
      ghost var moved := Flatten(s[..0]);
      while i < oldTable.Length
        invariant 0 <= i <= oldTable.Length == |s|
        invariant moved == Flatten(s[..i])
        invariant newTable[..] == Rehash(moved, newTable.Length)
        invariant forall q :: i <= q < oldTable.Length ==> oldTable[q] == s[q]
        invariant forall q :: 0 <= q < i ==> oldTable[q].None?
      {
        FlattenSnoc(s, i);
        ghost var before := oldTable[..];
        if oldTable[i].Some? {
          MoveBucket(newTable, oldTable[i].value, moved);
          oldTable[i] := None;
        }
        assert oldTable[..] == before[i := None];
        moved := moved + Items(s[i]);
        i := i + 1;
      }
      assert s[..i] == s;
    }

    /** One step of the inner loop of `resizeTable`: the entry is appended
        to the bucket of the new table its hash code selects, which is made
        first if it is still `null`. */
    static method AppendToBucket(newTable: array<Bucket<K, V>>, e: Entry<K, V>)
      requires newTable.Length > 0
      modifies newTable
      ensures var j := NormalizeIndex(e.hash, newTable.Length);
              newTable[..] == old(newTable[..])[j := Some(Items(old(newTable[j])) + [e])]
    {
      var j := NormalizeIndex(e.hash, newTable.Length);
      var nb := newTable[j];
      if nb.None? {
        nb := Some([]);
        newTable[j] := nb;
      }
      newTable[j] := Some(nb.value + [e]);
    }

    /** The inner loop of `resizeTable`: the entries of one old bucket, in
        order, are appended to the buckets of the new table. */
    static method MoveBucket(newTable: array<Bucket<K, V>>, bucket: seq<Entry<K, V>>, ghost prefix: seq<Entry<K, V>>)
      requires newTable.Length > 0 && newTable[..] == Rehash(prefix, newTable.Length)
      modifies newTable
      ensures newTable[..] == Rehash(prefix + bucket, newTable.Length)
    {
      var p := 0;
      ghost var moved := prefix;
      assert bucket[..0] == [];
      assert prefix + bucket[..0] == prefix;
      while p < |bucket|
        invariant 0 <= p <= |bucket|
        invariant moved == prefix + bucket[..p]
        invariant newTable[..] == Rehash(moved, newTable.Length)
      {
        var e := bucket[p];
        RehashSnoc(moved, e, newTable.Length);
        AppendToBucket(newTable, e);
        SnocSlice(prefix, bucket, p);
        moved := moved + [e];
        p := p + 1;
      }
      assert bucket[..p] == bucket;
    }

    /** `keys()`: the keys bucket by bucket, in index order; each key of the
        map once. */
    method Keys() returns (ks: seq<K>)
      requires Valid()
      ensures ks == KeysOf(Flatten(table[..]))
      ensures |ks| == size
      ensures forall k :: k in ks <==> k in Mapping()
      ensures forall a, b :: 0 <= a < b < |ks| ==> ks[a] != ks[b]
    {
      ks := [];
      var i := 0;
      while i < table.Length
        invariant 0 <= i <= table.Length
        invariant ks == KeysOf(Flatten(table[..i]))
      {
        FlattenSnoc(table[..], i);
        assert table[..][..i] == table[..i] && table[..][..i + 1] == table[..i + 1];
        if table[i].Some? {
          var b := table[i].value;
          var p := 0;
          while p < |b|
            invariant 0 <= p <= |b|
            invariant ks == KeysOf(Flatten(table[..i]) + b[..p])
          {
            ks := ks + [b[p].key];
            SnocSlice(Flatten(table[..i]), b, p);
            KeysValuesSnoc(Flatten(table[..i]) + b[..p], b[p]);
            p := p + 1;
          }
          assert b[..p] == b;
        }
        i := i + 1;
      }
      assert table[..i] == table[..];
      FlattenKeysUnique(table[..], hash, capacity);
      forall k
        ensures k in ks <==> k in Mapping()
      {
        MapOfHas(Flatten(table[..]), k);
      }
    }

    /** `values()`: the values in the order of `keys()`, so that the value
        at each position is the one the map gives the key at that
        position. */
    method Values() returns (vs: seq<V>)
      requires Valid()
      ensures vs == ValuesOf(Flatten(table[..]))
      ensures |vs| == size
      ensures forall j :: 0 <= j < |vs| ==>
                KeysOf(Flatten(table[..]))[j] in Mapping() && Mapping()[KeysOf(Flatten(table[..]))[j]] == vs[j]
    {
      vs := [];
      var i := 0;
      while i < table.Length
        invariant 0 <= i <= table.Length
        invariant vs == ValuesOf(Flatten(table[..i]))
      {
        FlattenSnoc(table[..], i);
        assert table[..][..i] == table[..i] && table[..][..i + 1] == table[..i + 1];
        if table[i].Some? {
          var b := table[i].value;
          var p := 0;
          while p < |b|
            invariant 0 <= p <= |b|
            invariant vs == ValuesOf(Flatten(table[..i]) + b[..p])
          {
            vs := vs + [b[p].value];
            SnocSlice(Flatten(table[..i]), b, p);
            KeysValuesSnoc(Flatten(table[..i]) + b[..p], b[p]);
            p := p + 1;
          }
          assert b[..p] == b;
        }
        i := i + 1;
      }
      assert table[..i] == table[..];
      FlattenKeysUnique(table[..], hash, capacity);
      forall j | 0 <= j < |vs|
        ensures KeysOf(Flatten(table[..]))[j] in Mapping() && Mapping()[KeysOf(Flatten(table[..]))[j]] == vs[j]
      {
        MapOfValue(Flatten(table[..]), j);
      }
    }

    /** The evidently intended `bucketInsertEntry`: a `null` bucket is
        replaced by an empty list and the entry then goes into that list, so
        a non-null key is always stored. */
    method InsertIntended(key: K, value: V) returns (prior: Option<V>)
      requires Valid()
      modifies this, table
      ensures Valid()
      ensures Mapping() == old(Mapping())[key := value]
      ensures prior == if key in old(Mapping()) then Some(old(Mapping())[key]) else None
    {
      var i := NormalizeIndex(hash(key), capacity);
      if table[i].None? {
        CreateBucket(i);
      }
      var r := Insert(Some(key), value);
      prior := r.value;
    }
  }

  /** The first insertion into a new table always fails: every bucket of a
      new table is `null`. The failed call leaves the key out of the map. */
  method FirstInsertFails<K(==), V>(hash: K -> Int32, k: K, v: V) returns (r: Result<Option<V>>)
    ensures r == Err(NullPointer)
  {
    var t := new HashTableSeparateChaining<K, V>(DefaultCapacity, DefaultLoadNum, DefaultLoadDen, hash);
    r := t.Insert(Some(k), v);
    assert k !in t.Mapping();
  }
}
