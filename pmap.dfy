/** The hash map `PMap` of src/pmap.py: a size and a vector of buckets, each bucket absent or a
    list of `(key, value)` pairs, with `_Evolver` writing to a working copy of the buckets. */
module PMaps {
  import opened Wrappers
  import opened Bits

  /** A bucket: `None`, or a list of pairs. */
  type Bucket<K, V> = Option<seq<(K, V)>>

  /** The pairs of a bucket; an absent bucket has none. */
  function Pairs<K, V>(b: Bucket<K, V>): seq<(K, V)>
  {
    match b
    case None => []
    case Some(ps) => ps
  }

  /** `hash(key) % len(buckets)`: Python's `%` with a positive divisor gives the residue in
      `[0, n)`, as Dafny's does (see `BucketIndexResidue`). */
  function BucketIndex(h: int, n: nat): (i: nat)
    requires n > 0
    ensures i < n
  {
    h % n
  }

  /** The slot is the residue of the hash: it differs from the hash by a multiple of `n`. */
  lemma BucketIndexResidue(h: int, n: nat)
    requires n > 0
    ensures (h - BucketIndex(h, n)) % n == 0
  {
    DivModUnique(h, n, h / n, h % n);
    DivModUnique(h - h % n, n, h / n, 0);
  }

  /** `_get_bucket`: the slot of `key` and the bucket in it. The slot depends on nothing but
      the key's hash and the number of buckets. */
  function GetBucket<K, V>(buckets: seq<Bucket<K, V>>, key: K, hash: K -> int): (r: (nat, Bucket<K, V>))
    requires |buckets| > 0
    ensures r.0 == BucketIndex(hash(key), |buckets|) && r.1 == buckets[r.0]
  {
    var index := BucketIndex(hash(key), |buckets|);
    (index, buckets[index])
  }

  /** The position of the first pair with key `key`, or `|ps|` when there is none. */
  function KeyIndex<K(==), V>(ps: seq<(K, V)>, key: K): (i: nat)
    ensures i <= |ps|
    ensures forall j :: 0 <= j < i ==> ps[j].0 != key
    ensures i < |ps| ==> ps[i].0 == key
  {
    if ps == [] then 0
    else if ps[0].0 == key then 0
    else 1 + KeyIndex(ps[1..], key)
  }

  /** The value of the first pair with key `key`: what the scan of a bucket finds. */
  function Find<K(==), V>(ps: seq<(K, V)>, key: K): (r: Option<V>)
    ensures r.None? <==> forall j :: 0 <= j < |ps| ==> ps[j].0 != key
    ensures r.Some? ==> KeyIndex(ps, key) < |ps| && ps[KeyIndex(ps, key)] == (key, r.value)
  {
    var i := KeyIndex(ps, key);
    if i < |ps| then Some(ps[i].1) else None
  }

  /** The value the map holds for `key`, if any: the first match in the key's bucket. */
  function Lookup<K(==), V>(buckets: seq<Bucket<K, V>>, key: K, hash: K -> int): Option<V>
    requires |buckets| > 0
  {
    Find(Pairs(buckets[BucketIndex(hash(key), |buckets|)]), key)
  }

  /** `iteritems`: the pairs of every bucket, bucket by bucket. */
  function Items<K, V>(buckets: seq<Bucket<K, V>>): seq<(K, V)>
  {
    if buckets == [] then []
    else Items(buckets[..|buckets| - 1]) + Pairs(buckets[|buckets| - 1])
  }

  ghost predicate UniqueKeys<K, V>(ps: seq<(K, V)>)
  {
    forall a, b :: 0 <= a < b < |ps| ==> ps[a].0 != ps[b].0
  }

  /** Every pair sits in the bucket its key hashes to. */
  ghost predicate Placed<K, V>(buckets: seq<Bucket<K, V>>, hash: K -> int)
    requires |buckets| > 0
  {
    forall j, p :: 0 <= j < |buckets| && p in Pairs(buckets[j]) ==> BucketIndex(hash(p.0), |buckets|) == j
  }

  /** The bucket layout the map keeps: at least one bucket, every pair in its key's bucket, and
      no key twice in a bucket. */
  ghost predicate WellFormed<K, V>(buckets: seq<Bucket<K, V>>, hash: K -> int)
  {
    && |buckets| > 0
    && Placed(buckets, hash)
    && forall j :: 0 <= j < |buckets| ==> UniqueKeys(Pairs(buckets[j]))
  }

  /** The invariant of a map: a well-formed layout, and `size` is the number of pairs. */
  ghost predicate MapInvariant<K, V>(buckets: seq<Bucket<K, V>>, size: int, hash: K -> int)
  {
    WellFormed(buckets, hash) && size == |Items(buckets)|
  }

  // ---------------------------------------------------------------------------------------
  // Items and lookup

  lemma {:induction false} InItems<K, V>(buckets: seq<Bucket<K, V>>, p: (K, V))
    ensures p in Items(buckets) <==> exists j :: 0 <= j < |buckets| && p in Pairs(buckets[j])
  {
    if buckets != [] {
      var front := buckets[..|buckets| - 1];
      InItems(front, p);
      assert forall j :: 0 <= j < |front| ==> front[j] == buckets[j];
    }
  }

  /** Replacing one bucket trades its pairs for the new bucket's pairs. */
  lemma {:induction false} ItemsUpdate<K, V>(buckets: seq<Bucket<K, V>>, j: nat, x: Bucket<K, V>)
    requires j < |buckets|
    ensures multiset(Items(buckets[j := x])) + multiset(Pairs(buckets[j]))
         == multiset(Items(buckets)) + multiset(Pairs(x))
    decreases |buckets|
  {
    var n := |buckets|;
    if j < n - 1 {
      var front, updated := buckets[..n - 1], buckets[j := x];
      ItemsUpdate(front, j, x);
      assert updated[..n - 1] == front[j := x] && updated[n - 1] == buckets[n - 1];
      assert front[j] == buckets[j];
      ItemsUnfold(updated);
      ItemsUnfold(buckets);
      SwapUnion(multiset(Items(front[j := x])), multiset(Pairs(buckets[j])), multiset(Pairs(buckets[n - 1])));
      SwapUnion(multiset(Items(front)), multiset(Pairs(x)), multiset(Pairs(buckets[n - 1])));
    } else {
      assert buckets[j := x][..n - 1] == buckets[..n - 1];
    }
  }

  lemma SwapUnion<T>(a: multiset<T>, b: multiset<T>, c: multiset<T>)
    ensures a + c + b == (a + b) + c
  {
  }

  /** One step of `Items`, as multisets. */
  lemma ItemsUnfold<K, V>(buckets: seq<Bucket<K, V>>)
    requires buckets != []
    ensures multiset(Items(buckets))
         == multiset(Items(buckets[..|buckets| - 1])) + multiset(Pairs(buckets[|buckets| - 1]))
  {
  }

  lemma ItemsLength<K, V>(buckets: seq<Bucket<K, V>>, j: nat, x: Bucket<K, V>)
    requires j < |buckets|
    ensures |Items(buckets[j := x])| == |Items(buckets)| - |Pairs(buckets[j])| + |Pairs(x)|
  {
    ItemsUpdate(buckets, j, x);
    assert |multiset(Items(buckets[j := x])) + multiset(Pairs(buckets[j]))|
        == |multiset(Items(buckets)) + multiset(Pairs(x))|;
  }

  /** In a bucket without repeated keys, the scan finds exactly the pairs the bucket holds. */
  lemma FindUnique<K, V>(ps: seq<(K, V)>, key: K, v: V)
    requires UniqueKeys(ps)
    ensures Find(ps, key) == Some(v) <==> (key, v) in ps
  {
    if (key, v) in ps {
      var m :| 0 <= m < |ps| && ps[m] == (key, v);
      var i := KeyIndex(ps, key);
      assert i <= m;
    }
  }

  /** A well-formed map holds a value for a key exactly when the pair is among its items. */
  lemma LookupIffInItems<K, V>(buckets: seq<Bucket<K, V>>, key: K, v: V, hash: K -> int)
    requires WellFormed(buckets, hash)
    ensures Lookup(buckets, key, hash) == Some(v) <==> (key, v) in Items(buckets)
  {
    var i := BucketIndex(hash(key), |buckets|);
    InItems(buckets, (key, v));
    FindUnique(Pairs(buckets[i]), key, v);
  }

  lemma UniqueConcat<K, V>(a: seq<(K, V)>, b: seq<(K, V)>)
    requires UniqueKeys(a) && UniqueKeys(b)
    requires forall p, q :: p in a && q in b ==> p.0 != q.0
    ensures UniqueKeys(a + b)
  {
    forall x, y | 0 <= x < y < |a + b|
      ensures (a + b)[x].0 != (a + b)[y].0
    {
      if x < |a| && y >= |a| {
        assert (a + b)[x] in a && (a + b)[y] in b;
      }
    }
  }

  lemma {:induction false} PrefixUnique<K, V>(buckets: seq<Bucket<K, V>>, hash: K -> int, m: nat)
    requires WellFormed(buckets, hash) && m <= |buckets|
    ensures UniqueKeys(Items(buckets[..m]))
    ensures forall p :: p in Items(buckets[..m]) ==> BucketIndex(hash(p.0), |buckets|) < m
  {
    if m > 0 {
      PrefixUnique(buckets, hash, m - 1);
      var front := buckets[..m - 1];
      assert buckets[..m][..m - 1] == front;
      assert Items(buckets[..m]) == Items(front) + Pairs(buckets[m - 1]);
      forall p | p in Items(front)
        ensures BucketIndex(hash(p.0), |buckets|) < m - 1
      {
      }
      UniqueConcat(Items(front), Pairs(buckets[m - 1]));
    }
  }

  /** No key appears twice among the items of a well-formed map. */
  lemma ItemsUnique<K, V>(buckets: seq<Bucket<K, V>>, hash: K -> int)
    requires WellFormed(buckets, hash)
    ensures UniqueKeys(Items(buckets))
  {
    PrefixUnique(buckets, hash, |buckets|);
    assert buckets[..|buckets|] == buckets;
  }

  // ---------------------------------------------------------------------------------------
  // Re-hashing: `_reallocate` and `mapping`

  /** One step of the re-hashing loop: `kv` goes to the end of its key's bucket. */
  function Place<K, V>(buckets: seq<Bucket<K, V>>, kv: (K, V), hash: K -> int): (r: seq<Bucket<K, V>>)
    requires |buckets| > 0
    ensures |r| == |buckets|
  {
    var index := BucketIndex(hash(kv.0), |buckets|);
    buckets[index := Some(Pairs(buckets[index]) + [kv])]
  }

  /** The buckets the re-hashing loop builds: `n` empty buckets, then every pair of `items`
      placed in turn. */
  function Rehash<K, V>(items: seq<(K, V)>, n: nat, hash: K -> int): (r: seq<Bucket<K, V>>)
    requires n > 0
    ensures |r| == n
  {
    if items == [] then seq(n, _ => None)
    else Place(Rehash(items[..|items| - 1], n, hash), items[|items| - 1], hash)
  }

  lemma {:induction false} ItemsOfEmpty<K, V>(buckets: seq<Bucket<K, V>>)
    requires forall j :: 0 <= j < |buckets| ==> buckets[j] == None
    ensures Items(buckets) == []
  {
    if buckets != [] {
      ItemsOfEmpty(buckets[..|buckets| - 1]);
    }
  }

  lemma Cancel<X>(a: multiset<X>, b: multiset<X>, c: multiset<X>)
    requires a + c == b + c
    ensures a == b
  {
    forall x
      ensures a[x] == b[x]
    {
      assert (a + c)[x] == (b + c)[x];
    }
  }

  /** Re-hashing keeps exactly the pairs it is given. */
  lemma {:induction false} RehashItems<K, V>(items: seq<(K, V)>, n: nat, hash: K -> int)
    requires n > 0
    ensures multiset(Items(Rehash(items, n, hash))) == multiset(items)
  {
    if items == [] {
      ItemsOfEmpty(Rehash(items, n, hash));
    } else {
      var front, kv := items[..|items| - 1], items[|items| - 1];
      var prev := Rehash(front, n, hash);
      var index := BucketIndex(hash(kv.0), n);
      var ps := Pairs(prev[index]);
      var after := prev[index := Some(ps + [kv])];
      assert Rehash(items, n, hash) == after;
      assert items == front + [kv];
      assert multiset(items) == multiset(front) + multiset{kv};
      RehashItems(front, n, hash);
      ItemsUpdate(prev, index, Some(ps + [kv]));
      var mA, mP, mF := multiset(Items(after)), multiset(ps), multiset(front);
      assert multiset(ps + [kv]) == mP + multiset{kv};
      assert mA + mP == (mF + multiset{kv}) + mP;
      Cancel(mA, mF + multiset{kv}, mP);
    }
  }

  /** Placing a pair whose key the layout does not hold yet keeps the layout well formed. */
  lemma PlaceWellFormed<K, V>(buckets: seq<Bucket<K, V>>, kv: (K, V), hash: K -> int)
    requires WellFormed(buckets, hash)
    requires forall p :: p in Items(buckets) ==> p.0 != kv.0
    ensures WellFormed(Place(buckets, kv, hash), hash)
  {
    var index := BucketIndex(hash(kv.0), |buckets|);
    var ps := Pairs(buckets[index]);
    var after := Place(buckets, kv, hash);
    forall p | p in ps
      ensures p.0 != kv.0
    {
      InItems(buckets, p);
    }
    UniqueConcat(ps, [kv]);
    assert forall j :: 0 <= j < |after| && j != index ==> after[j] == buckets[j];
    assert Pairs(after[index]) == ps + [kv];
  }

  /** Re-hashing pairs with distinct keys gives a well-formed layout. */
  lemma {:induction false} RehashWellFormed<K, V>(items: seq<(K, V)>, n: nat, hash: K -> int)
    requires n > 0 && UniqueKeys(items)
    ensures WellFormed(Rehash(items, n, hash), hash)
  {
    if items == [] {
      var empty := Rehash(items, n, hash);
      assert forall j :: 0 <= j < n ==> Pairs(empty[j]) == [];
    } else {
      var front, kv := items[..|items| - 1], items[|items| - 1];
      assert UniqueKeys(front);
      var prev := Rehash(front, n, hash);
      RehashWellFormed(front, n, hash);
      RehashItems(front, n, hash);
      forall p | p in Items(prev)
        ensures p.0 != kv.0
      {
        assert p in multiset(front);
        var a :| 0 <= a < |front| && front[a] == p;
        assert items[a] == p;
      }
      PlaceWellFormed(prev, kv, hash);
    }
  }

  /** Two well-formed layouts with the same pairs agree on every lookup. */
  lemma SamePairsSameLookup<K, V>(a: seq<Bucket<K, V>>, b: seq<Bucket<K, V>>, hash: K -> int, key: K)
    requires WellFormed(a, hash) && WellFormed(b, hash)
    requires forall p :: p in Items(a) <==> p in Items(b)
    ensures Lookup(a, key, hash) == Lookup(b, key, hash)
  {
    var la, lb := Lookup(a, key, hash), Lookup(b, key, hash);
    if la.Some? {
      LookupIffInItems(a, key, la.value, hash);
      LookupIffInItems(b, key, la.value, hash);
    } else if lb.Some? {
      LookupIffInItems(a, key, lb.value, hash);
      LookupIffInItems(b, key, lb.value, hash);
    }
  }

  /** Re-hashing the items of a well-formed map changes no lookup. */
  lemma RehashLookup<K, V>(buckets: seq<Bucket<K, V>>, n: nat, hash: K -> int, key: K)
    requires WellFormed(buckets, hash) && n > 0
    ensures WellFormed(Rehash(Items(buckets), n, hash), hash)
    ensures Lookup(Rehash(Items(buckets), n, hash), key, hash) == Lookup(buckets, key, hash)
  {
    var items := Items(buckets);
    var rehashed := Rehash(items, n, hash);
    ItemsUnique(buckets, hash);
    RehashWellFormed(items, n, hash);
    RehashItems(items, n, hash);
    forall p
      ensures p in Items(rehashed) <==> p in items
    {
      assert p in Items(rehashed) <==> p in multiset(Items(rehashed));
    }
    SamePairsSameLookup(rehashed, buckets, hash, key);
  }

  /** Re-hashing keeps the number of pairs. */
  lemma RehashSize<K, V>(items: seq<(K, V)>, n: nat, hash: K -> int)
    requires n > 0
    ensures |Items(Rehash(items, n, hash))| == |items|
  {
    RehashItems(items, n, hash);
    assert |multiset(Items(Rehash(items, n, hash)))| == |multiset(items)|;
  }

  // ---------------------------------------------------------------------------------------
  // Writing a pair: `_Evolver.set`

  /** The bucket `set` builds when the key is present: every pair with key `key` gets `val`. */
  function ReplaceValue<K(==), V>(ps: seq<(K, V)>, key: K, val: V): (r: seq<(K, V)>)
    ensures |r| == |ps|
    ensures forall j :: 0 <= j < |ps| ==> r[j].0 == ps[j].0
    ensures forall j :: 0 <= j < |ps| && ps[j].0 != key ==> r[j] == ps[j]
    ensures forall j :: 0 <= j < |ps| && ps[j].0 == key ==> r[j].1 == val
  {
    seq(|ps|, j requires 0 <= j < |ps| => if ps[j].0 != key then ps[j] else (ps[j].0, val))
  }

  /** The buckets after `set` writes `(key, val)`, once any re-hashing is done: a pair already
      held for `key` gets the new value unless it holds `val` already; otherwise the new pair is
      put in front of the other pairs of its bucket, or alone in a new bucket. */
  function Assign<K(==), V(==)>(buckets: seq<Bucket<K, V>>, key: K, val: V, hash: K -> int): (r: seq<Bucket<K, V>>)
    requires |buckets| > 0
    ensures |r| == |buckets|
  {
    var index := BucketIndex(hash(key), |buckets|);
    var ps := Pairs(buckets[index]);
    match Find(ps, key)
    case Some(v) => if v != val then buckets[index := Some(ReplaceValue(ps, key, val))] else buckets
    case None => buckets[index := Some([(key, val)] + ps)]
  }

  /** `set` writes only the key's bucket: every other bucket is left as it was, every pair of
      the key's bucket with another key stays, and the bucket gains a pair exactly when the key
      was absent. */
  lemma AssignLocal<K, V>(buckets: seq<Bucket<K, V>>, key: K, val: V, hash: K -> int)
    requires |buckets| > 0
    ensures forall j :: 0 <= j < |buckets| && j != BucketIndex(hash(key), |buckets|) ==>
      Assign(buckets, key, val, hash)[j] == buckets[j]
    ensures forall p :: p in Pairs(buckets[BucketIndex(hash(key), |buckets|)]) && p.0 != key ==>
      p in Pairs(Assign(buckets, key, val, hash)[BucketIndex(hash(key), |buckets|)])
    ensures |Pairs(Assign(buckets, key, val, hash)[BucketIndex(hash(key), |buckets|)])|
      == |Pairs(buckets[BucketIndex(hash(key), |buckets|)])|
         + if Find(Pairs(buckets[BucketIndex(hash(key), |buckets|)]), key).None? then 1 else 0
  {
  }

  /** Two rows of pairs with the same keys in the same order are scanned alike. */
  lemma SameKeysSameIndex<K, V>(ps: seq<(K, V)>, qs: seq<(K, V)>, k: K)
    requires |ps| == |qs| && forall j :: 0 <= j < |ps| ==> ps[j].0 == qs[j].0
    ensures KeyIndex(ps, k) == KeyIndex(qs, k)
  {
  }

  lemma FindReplace<K, V>(ps: seq<(K, V)>, key: K, val: V, k: K)
    requires Find(ps, key).Some?
    ensures Find(ReplaceValue(ps, key, val), k) == if k == key then Some(val) else Find(ps, k)
  {
    SameKeysSameIndex(ps, ReplaceValue(ps, key, val), k);
  }

  lemma FindPrepend<K, V>(ps: seq<(K, V)>, key: K, val: V, k: K)
    ensures Find([(key, val)] + ps, k) == if k == key then Some(val) else Find(ps, k)
  {
    assert ([(key, val)] + ps)[1..] == ps;
  }

  /** After `set`, the written key holds the new value and every other key holds what it held. */
  lemma AssignLookup<K, V>(buckets: seq<Bucket<K, V>>, key: K, val: V, hash: K -> int, k: K)
    requires |buckets| > 0
    ensures Lookup(Assign(buckets, key, val, hash), k, hash) == if k == key then Some(val) else Lookup(buckets, k, hash)
  {
    var index := BucketIndex(hash(key), |buckets|);
    var ps := Pairs(buckets[index]);
    if BucketIndex(hash(k), |buckets|) == index {
      if Find(ps, key).Some? {
        FindReplace(ps, key, val, k);
      } else {
        FindPrepend(ps, key, val, k);
      }
    }
  }

  /** Putting into slot `index` a bucket of distinct keys that all hash there keeps the layout
      well formed. */
  lemma ReplaceBucket<K, V>(buckets: seq<Bucket<K, V>>, index: nat, x: Bucket<K, V>, hash: K -> int)
    requires WellFormed(buckets, hash) && index < |buckets|
    requires forall j :: 0 <= j < |Pairs(x)| ==> BucketIndex(hash(Pairs(x)[j].0), |buckets|) == index
    requires UniqueKeys(Pairs(x))
    ensures WellFormed(buckets[index := x], hash)
    ensures |Items(buckets[index := x])| == |Items(buckets)| - |Pairs(buckets[index])| + |Pairs(x)|
  {
    var after := buckets[index := x];
    assert forall j :: 0 <= j < |after| && j != index ==> after[j] == buckets[j];
    ItemsLength(buckets, index, x);
  }

  /** `set` keeps the layout well formed and adds a pair exactly when the key was absent. */
  lemma AssignInvariant<K, V>(buckets: seq<Bucket<K, V>>, size: int, key: K, val: V, hash: K -> int)
    requires MapInvariant(buckets, size, hash)
    ensures MapInvariant(Assign(buckets, key, val, hash), size + if Lookup(buckets, key, hash).None? then 1 else 0, hash)
  {
    var index := BucketIndex(hash(key), |buckets|);
    var ps := Pairs(buckets[index]);
    assert forall j :: 0 <= j < |ps| ==> BucketIndex(hash(ps[j].0), |buckets|) == index;
    match Find(ps, key)
    case Some(v) =>
      if v != val {
        var qs := ReplaceValue(ps, key, val);
        assert UniqueKeys(qs);
        ReplaceBucket(buckets, index, Some(qs), hash);
      }
    case None =>
      var qs := [(key, val)] + ps;
      UniqueConcat([(key, val)], ps);
      assert forall j :: 0 < j < |qs| ==> qs[j] == ps[j - 1];
      ReplaceBucket(buckets, index, Some(qs), hash);
  }

  // ---------------------------------------------------------------------------------------
  // Removing a key: `_Evolver.remove`

  /** `[(k, v) for (k, v) in bucket if k != key]`. */
  function Without<K(==), V>(ps: seq<(K, V)>, key: K): (r: seq<(K, V)>)
    ensures |r| < |ps| <==> Find(ps, key).Some?
    ensures |r| <= |ps|
  {
    if ps == [] then []
    else
      var front, last := ps[..|ps| - 1], ps[|ps| - 1];
      var rest := Without(front, key);
      assert forall j :: 0 <= j < |front| ==> front[j] == ps[j];
      if last.0 != key then rest + [last] else rest
  }

  /** The filtered bucket holds exactly the pairs of the bucket whose key is not `key`. */
  lemma {:induction false} WithoutMembers<K, V>(ps: seq<(K, V)>, key: K)
    ensures forall j :: 0 <= j < |Without(ps, key)| ==> Without(ps, key)[j] in ps && Without(ps, key)[j].0 != key
    ensures forall j :: 0 <= j < |ps| && ps[j].0 != key ==> ps[j] in Without(ps, key)
  {
    if ps != [] {
      var front := ps[..|ps| - 1];
      assert forall j :: 0 <= j < |front| ==> front[j] == ps[j];
      WithoutMembers(front, key);
    }
  }

  /** Filtering a bucket without repeated keys leaves none repeated, and drops exactly one pair
      when the key is there. */
  lemma {:induction false} WithoutUnique<K, V>(ps: seq<(K, V)>, key: K)
    requires UniqueKeys(ps)
    ensures UniqueKeys(Without(ps, key))
    ensures Find(ps, key).Some? ==> |Without(ps, key)| == |ps| - 1
  {
    if ps != [] {
      var front, last := ps[..|ps| - 1], ps[|ps| - 1];
      assert forall j :: 0 <= j < |front| ==> front[j] == ps[j];
      WithoutUnique(front, key);
      WithoutMembers(front, key);
      var rest := Without(front, key);
      if last.0 != key {
        assert forall j :: 0 <= j < |rest| ==> rest[j].0 != last.0;
      }
    }
  }

  /** The buckets after `remove` deletes `key` from its bucket; a bucket left empty becomes
      `None`. */
  function Delete<K(==), V>(buckets: seq<Bucket<K, V>>, key: K, hash: K -> int): (r: seq<Bucket<K, V>>)
    requires |buckets| > 0
    ensures |r| == |buckets|
  {
    var index := BucketIndex(hash(key), |buckets|);
    var rest := Without(Pairs(buckets[index]), key);
    buckets[index := if rest == [] then None else Some(rest)]
  }

  /** `remove` writes only the key's bucket, keeping every pair of it whose key is another. */
  lemma DeleteLocal<K, V>(buckets: seq<Bucket<K, V>>, key: K, hash: K -> int)
    requires |buckets| > 0
    ensures forall j :: 0 <= j < |buckets| && j != BucketIndex(hash(key), |buckets|) ==>
      Delete(buckets, key, hash)[j] == buckets[j]
    ensures forall p :: p in Pairs(buckets[BucketIndex(hash(key), |buckets|)]) && p.0 != key ==>
      p in Pairs(Delete(buckets, key, hash)[BucketIndex(hash(key), |buckets|)])
  {
    WithoutMembers(Pairs(buckets[BucketIndex(hash(key), |buckets|)]), key);
  }

  /** After `remove`, the key has no value and every other key holds what it held. */
  lemma DeleteLookup<K, V>(buckets: seq<Bucket<K, V>>, key: K, hash: K -> int, k: K)
    requires WellFormed(buckets, hash)
    ensures Lookup(Delete(buckets, key, hash), k, hash) == if k == key then None else Lookup(buckets, k, hash)
  {
    var index := BucketIndex(hash(key), |buckets|);
    var ps := Pairs(buckets[index]);
    var rest := Pairs(Delete(buckets, key, hash)[index]);
    assert rest == Without(ps, key);
    WithoutMembers(ps, key);
    if BucketIndex(hash(k), |buckets|) == index && k != key {
      WithoutUnique(ps, key);
      var a, b := Find(rest, k), Find(ps, k);
      if a.Some? {
        FindUnique(rest, k, a.value);
        FindUnique(ps, k, a.value);
      } else if b.Some? {
        FindUnique(rest, k, b.value);
        FindUnique(ps, k, b.value);
      }
    }
  }

  /** `remove` of a present key keeps the layout well formed and drops one pair. */
  lemma DeleteInvariant<K, V>(buckets: seq<Bucket<K, V>>, size: int, key: K, hash: K -> int)
    requires MapInvariant(buckets, size, hash) && Lookup(buckets, key, hash).Some?
    ensures MapInvariant(Delete(buckets, key, hash), size - 1, hash)
  {
    var index := BucketIndex(hash(key), |buckets|);
    var ps := Pairs(buckets[index]);
    var rest := Without(ps, key);
    WithoutUnique(ps, key);
    WithoutMembers(ps, key);
    assert forall j :: 0 <= j < |rest| ==> BucketIndex(hash(rest[j].0), |buckets|) == index;
    ReplaceBucket(buckets, index, if rest == [] then None else Some(rest), hash);
  }

  // ---------------------------------------------------------------------------------------
  // `update_with`

  /** Two bucket vectors that hold the same value for every key but `key`. */
  ghost predicate AgreeExcept<K(!new), V>(b: seq<Bucket<K, V>>, c: seq<Bucket<K, V>>, key: K, hash: K -> int)
    requires |b| > 0 && |c| > 0
  {
    forall k :: k != key ==> Lookup(b, k, hash) == Lookup(c, k, hash)
  }

  /** The pairs of several maps, one map after another. */
  function Flatten<K, V>(maps: seq<seq<(K, V)>>): seq<(K, V)>
  {
    if maps == [] then [] else Flatten(maps[..|maps| - 1]) + maps[|maps| - 1]
  }

  /** The value `update_with` leaves for `k` after writing the pairs `ps` in order, starting
      from `init`: a pair for `k` combines the value held so far with its own through `f`, or
      supplies the value when there is none yet. */
  function UpdatedValue<K(==), V>(init: Option<V>, k: K, ps: seq<(K, V)>, f: (V, V) -> V): Option<V>
  {
    if ps == [] then init
    else
      var prev := UpdatedValue(init, k, ps[..|ps| - 1], f);
      var (key, value) := ps[|ps| - 1];
      if key != k then prev
      else Some(if prev.Some? then f(prev.value, value) else value)
  }

  /** `b` holds, for every key, the value `update_with` leaves after writing `ps` into `c`. */
  ghost predicate UpdatedFrom<K(!new), V>(b: seq<Bucket<K, V>>, c: seq<Bucket<K, V>>, ps: seq<(K, V)>, f: (V, V) -> V, hash: K -> int)
    requires |b| > 0 && |c| > 0
  {
    forall k :: Lookup(b, k, hash) == UpdatedValue(Lookup(c, k, hash), k, ps, f)
  }

  lemma PrefixStep<K, V>(done: seq<(K, V)>, items: seq<(K, V)>, j: nat)
    requires j < |items|
    ensures done + items[..j + 1] == done + items[..j] + [(items[j].0, items[j].1)]
  {
    assert items[..j + 1] == items[..j] + [items[j]];
  }

  lemma UpdatedFromNothing<K(!new), V>(c: seq<Bucket<K, V>>, f: (V, V) -> V, hash: K -> int)
    requires |c| > 0
    ensures UpdatedFrom(c, c, [], f, hash)
  {
  }

  /** One write of `update_with`: the key gets `f(held, new)` or the new value, and every other
      key keeps its value. */
  lemma UpdateStep<K(!new), V>(b: seq<Bucket<K, V>>, b': seq<Bucket<K, V>>, c: seq<Bucket<K, V>>,
                               ps: seq<(K, V)>, key: K, value: V, f: (V, V) -> V, hash: K -> int)
    requires |b| > 0 && |b'| > 0 && |c| > 0
    requires UpdatedFrom(b, c, ps, f, hash)
    requires AgreeExcept(b', b, key, hash)
    requires Lookup(b', key, hash) == Some(if Lookup(b, key, hash).Some? then f(Lookup(b, key, hash).value, value) else value)
    ensures UpdatedFrom(b', c, ps + [(key, value)], f, hash)
  {
    assert (ps + [(key, value)])[..|ps|] == ps;
  }

  lemma {:induction false} UpdatedUntouched<K, V>(init: Option<V>, k: K, ps: seq<(K, V)>, f: (V, V) -> V)
    requires forall j :: 0 <= j < |ps| ==> ps[j].0 != k
    ensures UpdatedValue(init, k, ps, f) == init
  {
    if ps != [] {
      UpdatedUntouched(init, k, ps[..|ps| - 1], f);
    }
  }

  /** A key written once by `update_with` ends up with `f(old, new)` when it held a value, and
      with the new value when it held none; a key not written keeps its value. */
  lemma {:induction false} UpdatedOnce<K, V>(init: Option<V>, k: K, ps: seq<(K, V)>, f: (V, V) -> V, m: nat)
    requires m < |ps| && ps[m].0 == k
    requires forall j :: 0 <= j < |ps| && j != m ==> ps[j].0 != k
    ensures UpdatedValue(init, k, ps, f) == Some(if init.Some? then f(init.value, ps[m].1) else ps[m].1)
  {
    var front := ps[..|ps| - 1];
    if m == |ps| - 1 {
      UpdatedUntouched(init, k, front, f);
    } else {
      UpdatedOnce(init, k, front, f, m);
    }
  }

  /** With `f` picking its right argument, as `update` does, a key ends up with the value of
      the last pair written for it. */
  lemma {:induction false} UpdatedKeepsRight<K, V>(init: Option<V>, k: K, ps: seq<(K, V)>, f: (V, V) -> V, m: nat)
    requires forall a, b :: f(a, b) == b
    requires m < |ps| && ps[m].0 == k
    requires forall j :: m < j < |ps| ==> ps[j].0 != k
    ensures UpdatedValue(init, k, ps, f) == Some(ps[m].1)
  {
    var front := ps[..|ps| - 1];
    if m < |ps| - 1 {
      UpdatedKeepsRight(init, k, front, f, m);
    }
  }

  // ---------------------------------------------------------------------------------------
  // What the evolver's writes keep

  /** One turn of the re-hashing loops of `_reallocate` and `mapping`, as src/pmap.py writes it:
      append to a non-empty bucket, otherwise start a new one. */
  lemma PlaceStep<K, V>(buckets: seq<Bucket<K, V>>, kv: (K, V), hash: K -> int)
    requires |buckets| > 0
    ensures Place(buckets, kv, hash)
         == var index := BucketIndex(hash(kv.0), |buckets|);
            buckets[index := if buckets[index].Some? && buckets[index].value != []
                             then Some(buckets[index].value + [kv]) else Some([kv])]
  {
    var index := BucketIndex(hash(kv.0), |buckets|);
    if buckets[index] == Some([]) {
      assert [] + [kv] == [kv];
    }
  }

  /** Re-hashing a map into `n` buckets keeps its invariant and every lookup. */
  lemma RehashFacts<K, V>(buckets: seq<Bucket<K, V>>, size: int, n: nat, hash: K -> int)
    requires MapInvariant(buckets, size, hash) && n > 0
    ensures MapInvariant(Rehash(Items(buckets), n, hash), size, hash)
    ensures forall k :: Lookup(Rehash(Items(buckets), n, hash), k, hash) == Lookup(buckets, k, hash)
  {
    forall k
      ensures Lookup(Rehash(Items(buckets), n, hash), k, hash) == Lookup(buckets, k, hash)
    {
      RehashLookup(buckets, n, hash, k);
    }
    ItemsUnique(buckets, hash);
    RehashWellFormed(Items(buckets), n, hash);
    RehashSize(Items(buckets), n, hash);
  }

  /** What `set` keeps: the invariant, with one more pair when the key was absent, and every
      lookup but the key's. */
  lemma AssignFacts<K, V>(buckets: seq<Bucket<K, V>>, size: int, key: K, val: V, hash: K -> int)
    requires MapInvariant(buckets, size, hash)
    ensures MapInvariant(Assign(buckets, key, val, hash), size + if Lookup(buckets, key, hash).None? then 1 else 0, hash)
    ensures forall k :: Lookup(Assign(buckets, key, val, hash), k, hash) == if k == key then Some(val) else Lookup(buckets, k, hash)
  {
    forall k
      ensures Lookup(Assign(buckets, key, val, hash), k, hash) == if k == key then Some(val) else Lookup(buckets, k, hash)
    {
      AssignLookup(buckets, key, val, hash, k);
    }
    AssignInvariant(buckets, size, key, val, hash);
  }

  /** What `remove` keeps: every lookup but the key's, which it clears. */
  lemma DeleteFacts<K, V>(buckets: seq<Bucket<K, V>>, key: K, hash: K -> int)
    requires WellFormed(buckets, hash)
    ensures forall k :: Lookup(Delete(buckets, key, hash), k, hash) == if k == key then None else Lookup(buckets, k, hash)
  {
    forall k
      ensures Lookup(Delete(buckets, key, hash), k, hash) == if k == key then None else Lookup(buckets, k, hash)
    {
      DeleteLookup(buckets, key, hash, k);
    }
  }

  /** The buckets `set` writes into: re-hashed into twice as many first when there are fewer
      than 0.67 times the size. */
  function Prepared<K, V>(buckets: seq<Bucket<K, V>>, size: int, hash: K -> int): (r: seq<Bucket<K, V>>)
    requires |buckets| > 0
    ensures |r| > 0
  {
    if Overflow(|buckets|, size) then Rehash(Items(buckets), 2 * |buckets|, hash) else buckets
  }

  /** The re-hashing `set` may do first keeps the invariant and every lookup. */
  lemma PreparedFacts<K, V>(buckets: seq<Bucket<K, V>>, size: int, hash: K -> int)
    requires MapInvariant(buckets, size, hash)
    ensures MapInvariant(Prepared(buckets, size, hash), size, hash)
    ensures forall k :: Lookup(Prepared(buckets, size, hash), k, hash) == Lookup(buckets, k, hash)
  {
    if Overflow(|buckets|, size) {
      RehashFacts(buckets, size, 2 * |buckets|, hash);
    }
  }

  /** The lookup `set` consults after re-hashing is the one before. */
  lemma PrepareOutcome<K, V>(buckets: seq<Bucket<K, V>>, size: int, key: K, hash: K -> int)
    requires MapInvariant(buckets, size, hash)
    ensures |Prepared(buckets, size, hash)| > 0
    ensures Lookup(Prepared(buckets, size, hash), key, hash) == Lookup(buckets, key, hash)
  {
    PreparedFacts(buckets, size, hash);
  }

  /** Everything `set` promises, on values: preparing the buckets changes no lookup, and the
      write then keeps the invariant, gives `key` the value `val` and leaves every other key. */
  lemma SetOutcome<K(!new), V>(buckets: seq<Bucket<K, V>>, size: int, key: K, val: V, hash: K -> int,
                               prepared: seq<Bucket<K, V>>, after: seq<Bucket<K, V>>, afterSize: int)
    requires MapInvariant(buckets, size, hash)
    requires prepared == Prepared(buckets, size, hash) && after == Assign(prepared, key, val, hash)
    requires afterSize == size + if Lookup(prepared, key, hash).None? then 1 else 0
    ensures MapInvariant(after, afterSize, hash)
    ensures Lookup(after, key, hash) == Some(val)
    ensures AgreeExcept(after, buckets, key, hash)
  {
    PreparedFacts(buckets, size, hash);
    AssignFacts(prepared, size, key, val, hash);
  }

  /** Everything `remove` of a present key promises, on values. */
  lemma RemoveOutcome<K(!new), V>(buckets: seq<Bucket<K, V>>, size: int, key: K, hash: K -> int,
                                  after: seq<Bucket<K, V>>)
    requires MapInvariant(buckets, size, hash) && Lookup(buckets, key, hash).Some?
    requires after == Delete(buckets, key, hash)
    ensures MapInvariant(after, size - 1, hash)
    ensures Lookup(after, key, hash).None?
    ensures AgreeExcept(after, buckets, key, hash)
  {
    DeleteFacts(buckets, key, hash);
    DeleteInvariant(buckets, size, key, hash);
  }

  lemma AgreeExceptSelf<K(!new), V>(buckets: seq<Bucket<K, V>>, key: K, hash: K -> int)
    requires |buckets| > 0
    ensures AgreeExcept(buckets, buckets, key, hash)
  {
  }

  // ---------------------------------------------------------------------------------------
  // The scans of `_getitem` and `_contains`

  /** The loop over a bucket: the value of the first pair whose key is `key`. */
  method Scan<K(==), V>(ps: seq<(K, V)>, key: K) returns (r: Option<V>)
    ensures r == Find(ps, key)
  {
    for j := 0 to |ps|
      invariant forall i :: 0 <= i < j ==> ps[i].0 != key
    {
      if ps[j].0 == key {
        return Some(ps[j].1);
      }
    }
    return None;
  }

  /** `_getitem`: the value held for `key`, or KeyError. */
  method GetItemIn<K(==), V>(buckets: seq<Bucket<K, V>>, key: K, hash: K -> int) returns (r: Result<V>)
    requires |buckets| > 0
    ensures Lookup(buckets, key, hash).Some? ==> r == Ok(Lookup(buckets, key, hash).value)
    ensures Lookup(buckets, key, hash).None? ==> r == Err(KeyError)
  {
    var (_, bucket) := GetBucket(buckets, key, hash);
    if bucket.Some? && bucket.value != [] {
      var found := Scan(bucket.value, key);
      if found.Some? {
        return Ok(found.value);
      }
    }
    return Err(KeyError);
  }

  /** `_contains`: whether `_getitem` would find a value. */
  method ContainsIn<K(==), V>(buckets: seq<Bucket<K, V>>, key: K, hash: K -> int) returns (b: bool)
    requires |buckets| > 0
    ensures b <==> Lookup(buckets, key, hash).Some?
  {
    var (_, bucket) := GetBucket(buckets, key, hash);
    if bucket.Some? && bucket.value != [] {
      var found := Scan(bucket.value, key);
      return found.Some?;
    }
    return false;
  }

  /** The scan and write of `_Evolver.set` on its buckets: a copy of the key's bucket with the
      value replaced, or with the new pair in front, or a new bucket holding just the pair.
      `grows` says the size goes up, `writes` that a bucket was stored. */
  method WriteBucket<K(==), V(==)>(current: seq<Bucket<K, V>>, key: K, val: V, hash: K -> int)
    returns (updated: seq<Bucket<K, V>>, grows: bool, writes: bool)
    requires |current| > 0
    ensures updated == Assign(current, key, val, hash)
    ensures grows <==> Lookup(current, key, hash).None?
    ensures writes <==> Lookup(current, key, hash) != Some(val)
    ensures !writes ==> updated == current
  {
    var kv := (key, val);
    var (index, bucket) := GetBucket(current, key, hash);
    updated, grows, writes := current, false, false;
    if bucket.Some? && bucket.value != [] {
      var found := Scan(bucket.value, key);
      if found.Some? {
        if found.value != val {
          updated, writes := current[index := Some(ReplaceValue(bucket.value, key, val))], true;
        }
        return;
      }
      updated, grows, writes := current[index := Some([kv] + bucket.value)], true, true;
    } else {
      assert [kv] + Pairs(bucket) == [kv];
      updated, grows, writes := current[index := Some([kv])], true, true;
    }
  }

  /** The body of the evolver's `remove` on the bucket vector: filters `key` out of its bucket
      and stores the rest, or `None` when nothing is left; `removed` says the key was there. */
  method DeleteFrom<K(==), V>(current: seq<Bucket<K, V>>, key: K, hash: K -> int)
    returns (updated: seq<Bucket<K, V>>, removed: bool)
    requires |current| > 0
    ensures removed <==> Lookup(current, key, hash).Some?
    ensures removed ==> updated == Delete(current, key, hash)
    ensures !removed ==> updated == current
  {
    var (index, bucket) := GetBucket(current, key, hash);
    updated, removed := current, false;
    if bucket.Some? && bucket.value != [] {
      var newBucket := Without(bucket.value, key);
      if |bucket.value| > |newBucket| {
        updated, removed := current[index := if newBucket != [] then Some(newBucket) else None], true;
      }
    }
  }

  /** The re-hashing threshold of `set`, `len(buckets) < 0.67 * size`, in integers. */
  predicate Overflow(bucketCount: nat, size: int)
  {
    100 * bucketCount < 67 * size
  }

  // ---------------------------------------------------------------------------------------
  // The map and its evolver

  /** A map handle. In this model its fields are never written after construction, since
      undo, redo and the hash cache are left out. */
  class PMap<K(==,!new), V(==)> {
    const size: int
    const buckets: seq<Bucket<K, V>>
    /** Python's `hash` on keys, which the model does not fix. */
    const hash: K -> int

    ghost predicate Valid()
    {
      MapInvariant(buckets, size, hash)
    }

    /** `__new__`. */
    constructor (size: int, buckets: seq<Bucket<K, V>>, hash: K -> int)
      ensures this.size == size && this.buckets == buckets && this.hash == hash
    {
      this.size := size;
      this.buckets := buckets;
      this.hash := hash;
    }

    /** `__len__`: the number of pairs. */
    function Length(): (n: int)
      requires Valid()
      ensures n == |Items(buckets)|
    {
      size
    }

    /** `__getitem__`. */
    method GetItem(key: K) returns (r: Result<V>)
      requires Valid()
      ensures Lookup(buckets, key, hash).Some? ==> r == Ok(Lookup(buckets, key, hash).value)
      ensures Lookup(buckets, key, hash).None? ==> r == Err(KeyError)
    {
      r := GetItemIn(buckets, key, hash);
    }

    /** `__contains__`. */
    method Contains(key: K) returns (b: bool)
      requires Valid()
      ensures b <==> Lookup(buckets, key, hash).Some?
    {
      b := ContainsIn(buckets, key, hash);
    }

    /** `evolver`: a working copy of this map, not yet written to. */
    method Evolver() returns (e: Evolver<K, V>)
      requires Valid()
      ensures fresh(e) && e.Valid() && e.original == this && !e.dirty
      ensures e.buckets == buckets && e.size == size && e.hash == hash
    {
      e := new Evolver(this);
    }

    /** `set`: a map where `key` holds `val` and every other key holds what it held here. When
        `key` already holds `val` and no re-hashing is due, this same map is returned. */
    method Set(key: K, val: V) returns (m: PMap<K, V>)
      requires Valid()
      ensures m.Valid() && m.hash == hash
      ensures Lookup(m.buckets, key, hash) == Some(val)
      ensures AgreeExcept(m.buckets, buckets, key, hash)
      ensures m.size == size + if Lookup(buckets, key, hash).None? then 1 else 0
      ensures Lookup(buckets, key, hash) == Some(val) && !Overflow(|buckets|, size) ==> m == this
    {
      var e := Evolver();
      e.Set(key, val);
      m := e.Persistent();
    }

    /** `remove`: a map without `key`, or KeyError when this map has no value for it. */
    method Remove(key: K) returns (r: Result<PMap<K, V>>)
      requires Valid()
      ensures Lookup(buckets, key, hash).None? ==> r == Err(KeyError)
      ensures Lookup(buckets, key, hash).Some? ==> r.Ok? && r.value.Valid() && r.value.hash == hash
      ensures r.Ok? ==> r.value.size == size - 1
      ensures r.Ok? ==> Lookup(r.value.buckets, key, hash).None? && AgreeExcept(r.value.buckets, buckets, key, hash)
    {
      var e := Evolver();
      var removed := e.Remove(key);
      if removed.Err? {
        return Err(removed.error);
      }
      var m := e.Persistent();
      return Ok(m);
    }

    /** `update_with`: writes the pairs of `maps` in order; a key already held gets
        `f(held, new)`, any other gets the new value. */
    method UpdateWith(f: (V, V) -> V, maps: seq<seq<(K, V)>>) returns (m: PMap<K, V>)
      requires Valid()
      ensures m.Valid() && m.hash == hash
      ensures UpdatedFrom(m.buckets, buckets, Flatten(maps), f, hash)
    {
      UpdatedFromNothing(buckets, f, hash);
      var e := Evolver();
      for i := 0 to |maps|
        invariant e.Valid() && e.hash == hash
        invariant UpdatedFrom(e.buckets, buckets, Flatten(maps[..i]), f, hash)
      {
        WritePairs(e, f, maps[i], buckets, Flatten(maps[..i]));
        assert maps[..i + 1][..i] == maps[..i];
      }
      assert maps[..|maps|] == maps;
      m := e.Persistent();
    }

    /** `update`: `update_with` keeping the right-hand value. */
    method Update(maps: seq<seq<(K, V)>>) returns (m: PMap<K, V>)
      requires Valid()
      ensures m.Valid() && m.hash == hash
      ensures UpdatedFrom(m.buckets, buckets, Flatten(maps), (l, r) => r, hash)
    {
      m := UpdateWith((l, r) => r, maps);
    }
  }

  /** `_Evolver`: a working copy of a map's buckets and size, written in place. `dirty` records
      whether the copy was written since it was taken or last made persistent; in src/pmap.py
      that flag belongs to the vector of buckets. */
  class Evolver<K(==,!new), V(==)> {
    var original: PMap<K, V>
    var buckets: seq<Bucket<K, V>>
    var size: int
    var dirty: bool
    const hash: K -> int

    ghost predicate Valid()
      reads this
    {
      && MapInvariant(buckets, size, hash)
      && original.hash == hash
      && (!dirty ==> buckets == original.buckets && size == original.size)
    }

    /** `__init__`. */
    constructor (original: PMap<K, V>)
      requires original.Valid()
      ensures this.original == original && buckets == original.buckets && size == original.size
      ensures hash == original.hash && !dirty && Valid()
    {
      this.original := original;
      buckets := original.buckets;
      size := original.size;
      hash := original.hash;
      dirty := false;
    }

    /** `__getitem__`. */
    method GetItem(key: K) returns (r: Result<V>)
      requires Valid()
      ensures Lookup(buckets, key, hash).Some? ==> r == Ok(Lookup(buckets, key, hash).value)
      ensures Lookup(buckets, key, hash).None? ==> r == Err(KeyError)
    {
      r := GetItemIn(buckets, key, hash);
    }

    /** `__contains__`. */
    method Contains(key: K) returns (b: bool)
      requires Valid()
      ensures b <==> Lookup(buckets, key, hash).Some?
    {
      b := ContainsIn(buckets, key, hash);
    }

    /** `__len__`. */
    function Length(): (n: int)
      reads this
      requires Valid()
      ensures n == |Items(buckets)|
    {
      size
    }

    /** `_reallocate`: re-hashes every pair into `newSize` fresh buckets, in the order
        `iteritems` lists them. */
    method Reallocate(newSize: nat)
      requires newSize > 0
      modifies this`buckets, this`dirty
      ensures buckets == Rehash(Items(old(buckets)), newSize, hash) && dirty
    {
      var newList: seq<Bucket<K, V>> := seq(newSize, _ => None);
      var items := Items(buckets);
      for t := 0 to |items|
        invariant newList == Rehash(items[..t], newSize, hash)
      {
        var (k, v) := items[t];
        PlaceStep(newList, (k, v), hash);
        var index := BucketIndex(hash(k), newSize);
        if newList[index].Some? && newList[index].value != [] {
          newList := newList[index := Some(newList[index].value + [(k, v)])];
        } else {
          newList := newList[index := Some([(k, v)])];
        }
        assert items[..t + 1][..t] == items[..t];
      }
      assert items[..|items|] == items;
      buckets := newList;
      dirty := true;
    }

    /** `set`: makes `key` hold `val`, re-hashing into twice as many buckets first when the
        buckets are fewer than 0.67 times the size. */
    method Set(key: K, val: V)
      requires Valid()
      modifies this`buckets, this`size, this`dirty
      ensures Valid() && original == old(original)
      ensures buckets == Assign(Prepared(old(buckets), old(size), hash), key, val, hash)
      ensures Lookup(buckets, key, hash) == Some(val)
      ensures AgreeExcept(buckets, old(buckets), key, hash)
      ensures size == old(size) + if Lookup(old(buckets), key, hash).None? then 1 else 0
      ensures dirty == (old(dirty) || Overflow(|old(buckets)|, old(size)) || Lookup(old(buckets), key, hash) != Some(val))
    {
      ghost var b0, s0 := buckets, size;
      PrepareOutcome(buckets, size, key, hash);
      if 100 * |buckets| < 67 * size {
        Reallocate(2 * |buckets|);
      }
      var updated, grows, writes := WriteBucket(buckets, key, val, hash);
      var newSize := size + if grows then 1 else 0;
      SetOutcome(b0, s0, key, val, hash, buckets, updated, newSize);
      buckets, size, dirty := updated, newSize, dirty || writes;
    }

    /** `remove`: deletes `key`, or raises KeyError and changes nothing when it has no value. */
    method Remove(key: K) returns (r: Result<()>)
      requires Valid()
      modifies this`buckets, this`size, this`dirty
      ensures Valid() && original == old(original)
      ensures Lookup(old(buckets), key, hash).None? ==>
        r == Err(KeyError) && buckets == old(buckets) && size == old(size) && dirty == old(dirty)
      ensures Lookup(old(buckets), key, hash).Some? ==>
        r == Ok(()) && buckets == Delete(old(buckets), key, hash) && size == old(size) - 1 && dirty
      ensures Lookup(buckets, key, hash).None? && AgreeExcept(buckets, old(buckets), key, hash)
    {
      var updated, removed := DeleteFrom(buckets, key, hash);
      if removed {
        RemoveOutcome(buckets, size, key, hash, updated);
        buckets, size, dirty := updated, size - 1, true;
        r := Ok(());
      } else {
        AgreeExceptSelf(buckets, key, hash);
        r := Err(KeyError);
      }
    }

    /** `persistent`: the original map when nothing was written, otherwise a new map over the
        working copy, which then becomes the original. */
    method Persistent() returns (m: PMap<K, V>)
      requires Valid()
      modifies this`original, this`dirty
      ensures m == original && !dirty && Valid() && m.Valid()
      ensures !old(dirty) ==> m == old(original)
      ensures old(dirty) ==> fresh(m) && m.size == size && m.buckets == buckets && m.hash == hash
    {
      if dirty {
        original := new PMap(size, buckets, hash);
        dirty := false;
      }
      m := original;
    }
  }

  /** The inner loop of `update_with`: writes the pairs of one map into the evolver, a key it
      already holds getting `f(held, new)`. */
  method WritePairs<K(==,!new), V(==)>(e: Evolver<K, V>, f: (V, V) -> V, items: seq<(K, V)>,
                                      ghost start: seq<Bucket<K, V>>, ghost done: seq<(K, V)>)
    requires e.Valid() && |start| > 0 && UpdatedFrom(e.buckets, start, done, f, e.hash)
    modifies e`buckets, e`size, e`dirty
    ensures e.Valid() && UpdatedFrom(e.buckets, start, done + items, f, e.hash)
  {
    assert done + items[..0] == done;
    for j := 0 to |items|
      invariant e.Valid() && UpdatedFrom(e.buckets, start, done + items[..j], f, e.hash)
    {
      var key, value := items[j].0, items[j].1;
      ghost var before := e.buckets;
      var present := e.Contains(key);
      var newValue := value;
      if present {
        var held := e.GetItem(key);
        newValue := f(held.value, value);
      }
      e.Set(key, newValue);
      UpdateStep(before, e.buckets, start, done + items[..j], key, value, f, e.hash);
      PrefixStep(done, items, j);
    }
    assert items[..|items|] == items;
  }

  /** Re-hashing the pairs of a dictionary gives a map that holds exactly those pairs. */
  lemma RehashOfDictionary<K, V>(initial: seq<(K, V)>, n: nat, hash: K -> int)
    requires UniqueKeys(initial) && n > 0
    ensures MapInvariant(Rehash(initial, n, hash), |initial|, hash)
    ensures forall k, v :: Lookup(Rehash(initial, n, hash), k, hash) == Some(v) <==> (k, v) in initial
  {
    var buckets := Rehash(initial, n, hash);
    RehashWellFormed(initial, n, hash);
    RehashSize(initial, n, hash);
    RehashItems(initial, n, hash);
    forall k, v
      ensures Lookup(buckets, k, hash) == Some(v) <==> (k, v) in initial
    {
      LookupIffInItems(buckets, k, v, hash);
      assert (k, v) in Items(buckets) <==> (k, v) in multiset(Items(buckets));
    }
  }

  /** `mapping`: a map over the pairs of a dictionary, in eight buckets. */
  method Mapping<K(==,!new), V(==)>(initial: seq<(K, V)>, hash: K -> int) returns (m: PMap<K, V>)
    requires UniqueKeys(initial)
    ensures fresh(m) && m.Valid() && m.hash == hash
    ensures m.size == |initial| && |m.buckets| == 8
    ensures m.buckets == Rehash(initial, 8, hash)
    ensures forall k, v :: Lookup(m.buckets, k, hash) == Some(v) <==> (k, v) in initial
  {
    var size := 8;
    var buckets: seq<Bucket<K, V>> := seq(size, _ => None);
    for t := 0 to |initial|
      invariant buckets == Rehash(initial[..t], size, hash)
    {
      var (k, v) := initial[t];
      PlaceStep(buckets, (k, v), hash);
      var index := BucketIndex(hash(k), size);
      var bucket := buckets[index];
      if bucket.Some? && bucket.value != [] {
        buckets := buckets[index := Some(bucket.value + [(k, v)])];
      } else {
        buckets := buckets[index := Some([(k, v)])];
      }
      assert initial[..t + 1][..t] == initial[..t];
    }
    assert initial[..|initial|] == initial;
    RehashOfDictionary(initial, size, hash);
    m := new PMap(|initial|, buckets, hash);
  }
}
