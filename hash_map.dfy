/** The chained hash map of HashMap/lib/hash_map.rb. Keys are strings, seen
    as their bytes; the table is an array of buckets, each bucket a list of
    [key, value] entries in insertion order. The map starts with 16 buckets
    and doubles (re-inserting every entry) when the load would exceed 3/4. */
module HashTables {

  newtype byte = x: int | 0 <= x < 256

  /** A key string, as the bytes `each_byte` yields. */
  type Key = seq<byte>

  datatype Option<V> = None | Some(value: V)

  const INITIAL_CAPACITY: int := 16
  /** `& 0x7fffffff` keeps the low 31 bits: on a non-negative number it is
      the remainder modulo 2^31. */
  const HASH_MODULUS: int := 0x8000_0000

  /** compute_hash as a fold over the bytes: h := (31 * h + b) & 0x7fffffff. */
  function Hash(key: Key): (h: int)
    ensures 0 <= h < HASH_MODULUS
  {
    if key == [] then 0
    else (31 * Hash(key[..|key| - 1]) + key[|key| - 1] as int) % HASH_MODULUS
  }

  /** The bucket of a key in a table of n buckets: hash(key) % n. */
  function BucketOf(key: Key, n: int): (i: int)
    ensures n > 0 ==> 0 <= i < n
  {
    if n > 0 then Hash(key) % n else 0
  }

  /** compute_hash: `((h << 5) - h) + b`, masked to 31 bits, for each byte. */
  method ComputeHash(key: Key) returns (h: int)
    ensures h == Hash(key)
    ensures 0 <= h < HASH_MODULUS
  {
    h := 0;
    for i := 0 to |key|
      invariant h == Hash(key[..i])
    {
      assert key[..i + 1][..i] == key[..i];
      h := ((h * 32) - h) + key[i] as int;
      h := h % HASH_MODULUS;
    }
    assert key[..|key|] == key;
  }

  /** The hash of "a" is 97 and of "ab" is 31 * 97 + 98. */
  lemma HashExamples()
    ensures Hash([97]) == 97
    ensures Hash([97, 98]) == 3105
  {
    assert [97 as byte, 98][..1] == [97];
  }

  /** get's answer for a key of the abstract map. */
  function MapGet<V>(m: map<Key, V>, k: Key): Option<V>
  {
    if k in m then Some(m[k]) else None
  }

  type Bucket<V> = seq<(Key, V)>

  /** Bucket b is sound as bucket i of a table of n buckets standing for m:
      each of its entries belongs there (hash(key) % n == i) and is a pair of
      m, and no key occurs in it twice. */
  ghost predicate BucketOK<V>(n: int, m: map<Key, V>, b: Bucket<V>, i: int)
  {
    && (forall j :: 0 <= j < |b| ==> n > 0 && BucketOf(b[j].0, n) == i && b[j].0 in m && m[b[j].0] == b[j].1)
    && (forall j1, j2 :: 0 <= j1 < j2 < |b| ==> b[j1].0 != b[j2].0)
  }

  predicate InBucket<V>(b: Bucket<V>, k: Key)
  {
    exists j :: 0 <= j < |b| && b[j].0 == k
  }

  /** Every key of m has an entry in its bucket. */
  ghost predicate Covers<V>(t: seq<Bucket<V>>, m: map<Key, V>)
    requires |t| > 0
  {
    forall k :: k in m ==> InBucket(t[BucketOf(k, |t|)], k)
  }

  /** The table holds exactly the pairs of m, each in bucket hash(key) % capacity, no key twice. */
  ghost predicate WellFormed<V>(t: seq<Bucket<V>>, m: map<Key, V>)
  {
    && |t| > 0
    && (forall i :: 0 <= i < |t| ==> BucketOK(|t|, m, t[i], i))
    && Covers(t, m)
  }

  /** The scan every operation performs on one bucket: the index of the entry
      with the key, or the bucket's length when there is none. */
  method ScanBucket<V>(b: Bucket<V>, key: Key) returns (j: int)
    ensures 0 <= j <= |b|
    ensures j < |b| ==> b[j].0 == key
    ensures forall n :: 0 <= n < j ==> b[n].0 != key
  {
    j := 0;
    while j < |b| && b[j].0 != key
      invariant 0 <= j <= |b|
      invariant forall n :: 0 <= n < j ==> b[n].0 != key
    {
      j := j + 1;
    }
  }

  /** In a well-formed table the scan of the key's bucket finds the key
      exactly when the map holds it, and then finds its value. */
  lemma ScanAgreesWithMap<V>(t: seq<Bucket<V>>, m: map<Key, V>, key: Key, j: int)
    requires WellFormed(t, m)
    requires 0 <= j <= |t[BucketOf(key, |t|)]|
    requires j < |t[BucketOf(key, |t|)]| ==> t[BucketOf(key, |t|)][j].0 == key
    requires forall n :: 0 <= n < j ==> t[BucketOf(key, |t|)][n].0 != key
    ensures key in m <==> j < |t[BucketOf(key, |t|)]|
    ensures key in m ==> m[key] == t[BucketOf(key, |t|)][j].1
  {
    var i := BucketOf(key, |t|);
    assert BucketOK(|t|, m, t[i], i);
    if key in m {
      assert InBucket(t[i], key);
      var n :| 0 <= n < |t[i]| && t[i][n].0 == key;
    }
  }

  /** The buckets other than key's are unaffected by a change of m at key alone. */
  lemma OtherBucketsKeep<V>(t: seq<Bucket<V>>, m: map<Key, V>, m': map<Key, V>, i: int)
    requires WellFormed(t, m) && 0 <= i < |t|
    requires forall k :: BucketOf(k, |t|) != i ==> (k in m' <==> k in m)
    requires forall k :: BucketOf(k, |t|) != i && k in m ==> m'[k] == m[k]
    ensures forall i2 :: 0 <= i2 < |t| && i2 != i ==> BucketOK(|t|, m', t[i2], i2)
  {
    forall i2 | 0 <= i2 < |t| && i2 != i ensures BucketOK(|t|, m', t[i2], i2) {
      assert BucketOK(|t|, m, t[i2], i2);
    }
  }

  /** Replacing bucket i by a sound bucket that covers the keys of bucket i keeps the table well formed. */
  lemma ReplaceBucket<V>(t: seq<Bucket<V>>, m: map<Key, V>, m': map<Key, V>, i: int, nb: Bucket<V>)
    requires WellFormed(t, m) && 0 <= i < |t|
    requires BucketOK(|t|, m', nb, i)
    requires forall i2 :: 0 <= i2 < |t| && i2 != i ==> BucketOK(|t|, m', t[i2], i2)
    requires forall k :: k in m' && BucketOf(k, |t|) == i ==> InBucket(nb, k)
    requires forall k :: k in m' && BucketOf(k, |t|) != i ==> k in m
    ensures WellFormed(t[i := nb], m')
  {
    var t' := t[i := nb];
    forall k | k in m' ensures InBucket(t'[BucketOf(k, |t'|)], k) {
      if BucketOf(k, |t|) != i {
        assert Covers(t, m);
        assert InBucket(t[BucketOf(k, |t|)], k);
      }
    }
  }

  /** Overwriting the value of an entry keeps the table well formed. */
  lemma OverwriteKeepsWellFormed<V>(t: seq<Bucket<V>>, m: map<Key, V>, key: Key, value: V, i: int, j: int, nb: Bucket<V>)
    requires WellFormed(t, m) && i == BucketOf(key, |t|)
    requires 0 <= j < |t[i]| && t[i][j].0 == key && nb == t[i][j := (key, value)]
    ensures WellFormed(t[i := nb], m[key := value])
  {
    var b := t[i];
    var m' := m[key := value];
    OtherBucketsKeep(t, m, m', i);
    assert BucketOK(|t|, m, b, i);
    assert BucketOK(|t|, m', nb, i);
    forall k | k in m' && BucketOf(k, |t|) == i ensures InBucket(nb, k) {
      if k == key {
        assert nb[j].0 == key;
      } else {
        assert Covers(t, m);
        assert InBucket(b, k);
        var n :| 0 <= n < |b| && b[n].0 == k;
        assert nb[n].0 == k;
      }
    }
    ReplaceBucket(t, m, m', i, nb);
  }

  /** Appending an entry for a key its bucket does not hold keeps the table
      well formed, with the key added to the map. */
  lemma AppendKeepsWellFormed<V>(t: seq<Bucket<V>>, m: map<Key, V>, key: Key, value: V, i: int, nb: Bucket<V>)
    requires WellFormed(t, m) && i == BucketOf(key, |t|)
    requires forall n :: 0 <= n < |t[i]| ==> t[i][n].0 != key
    requires nb == t[i] + [(key, value)]
    ensures key !in m
    ensures WellFormed(t[i := nb], m[key := value])
  {
    ScanAgreesWithMap(t, m, key, |t[i]|);
    var b := t[i];
    var m' := m[key := value];
    OtherBucketsKeep(t, m, m', i);
    assert BucketOK(|t|, m, b, i);
    assert BucketOK(|t|, m', nb, i);
    forall k | k in m' && BucketOf(k, |t|) == i ensures InBucket(nb, k) {
      if k == key {
        assert nb[|b|].0 == key;
      } else {
        assert Covers(t, m);
        assert InBucket(b, k);
        var n :| 0 <= n < |b| && b[n].0 == k;
        assert nb[n].0 == k;
      }
    }
    ReplaceBucket(t, m, m', i, nb);
  }

  /** Deleting entry j (key `key`) from a sound bucket leaves a sound bucket
      for the map without `key`, still holding every other key. */
  lemma DeleteFromBucket<V>(n: int, m: map<Key, V>, b: Bucket<V>, i: int, key: Key, j: int)
    requires BucketOK(n, m, b, i) && 0 <= j < |b| && b[j].0 == key
    ensures BucketOK(n, m - {key}, b[..j] + b[j + 1..], i)
    ensures forall k :: k != key && InBucket(b, k) ==> InBucket(b[..j] + b[j + 1..], k)
  {
    var nb := b[..j] + b[j + 1..];
    assert forall p :: 0 <= p < j ==> nb[p] == b[p];
    assert forall p :: j <= p < |nb| ==> nb[p] == b[p + 1];
    forall p | 0 <= p < |nb| ensures nb[p].0 != key {
      if p >= j { assert nb[p] == b[p + 1]; }
    }
    forall p1, p2 | 0 <= p1 < p2 < |nb| ensures nb[p1].0 != nb[p2].0 {
      var s1 := if p1 < j then p1 else p1 + 1;
      var s2 := if p2 < j then p2 else p2 + 1;
      assert nb[p1] == b[s1] && nb[p2] == b[s2];
    }
    forall k | k != key && InBucket(b, k) ensures InBucket(nb, k) {
      var p :| 0 <= p < |b| && b[p].0 == k;
      if p < j {
        assert nb[p].0 == k;
      } else {
        assert nb[p - 1].0 == k;
      }
    }
  }

  /** Deleting the entry of a key keeps the table well formed, with the key
      removed from the map. */
  lemma DeleteKeepsWellFormed<V>(t: seq<Bucket<V>>, m: map<Key, V>, key: Key, i: int, j: int, nb: Bucket<V>)
    requires WellFormed(t, m) && i == BucketOf(key, |t|)
    requires 0 <= j < |t[i]| && t[i][j].0 == key && nb == t[i][..j] + t[i][j + 1..]
    ensures WellFormed(t[i := nb], m - {key})
    ensures |t| > 0 && DeletedFrom(t, t[i := nb], key)
  {
    var b: Bucket<V> := t[i];
    var m': map<Key, V> := m - {key};
    OtherBucketsKeep(t, m, m', i);
    assert BucketOK(|t|, m, b, i);
    DeleteFromBucket(|t|, m, b, i, key, j);
    forall k | k in m' && BucketOf(k, |t|) == i ensures InBucket(nb, k) {
      assert Covers(t, m);
      assert InBucket(b, k);
    }
    ReplaceBucket(t, m, m', i, nb);
    assert DeletedAt(t, t[i := nb], key, j);
  }

  /** `t2` is `t` with the entry at position j of the key's bucket, which
      holds the key, now carrying the value: the overwrite `entry[1] = value`. */
  ghost predicate OverwrittenAt<V>(t: seq<Bucket<V>>, t2: seq<Bucket<V>>, key: Key, value: V, j: int)
    requires |t| > 0
  {
    var i := BucketOf(key, |t|);
    0 <= j < |t[i]| && t[i][j].0 == key && t2 == t[i := t[i][j := (key, value)]]
  }

  /** `t2` is `t` with the pair appended at the end of the key's bucket:
      `bucket << [key, value]`. */
  ghost predicate AppendedTo<V>(t: seq<Bucket<V>>, t2: seq<Bucket<V>>, key: Key, value: V)
    requires |t| > 0
  {
    var i := BucketOf(key, |t|);
    t2 == t[i := t[i] + [(key, value)]]
  }

  /** `t2` is `t` without the entry at position j of the key's bucket, which
      holds the key; the other entries of that bucket keep their order:
      `bucket.delete_at(j)`. */
  ghost predicate DeletedAt<V>(t: seq<Bucket<V>>, t2: seq<Bucket<V>>, key: Key, j: int)
    requires |t| > 0
  {
    var i := BucketOf(key, |t|);
    0 <= j < |t[i]| && t[i][j].0 == key && t2 == t[i := t[i][..j] + t[i][j + 1..]]
  }

  /** `t2` is `t` with the key's entry deleted from its bucket. */
  ghost predicate DeletedFrom<V>(t: seq<Bucket<V>>, t2: seq<Bucket<V>>, key: Key)
    requires |t| > 0
  {
    exists j :: DeletedAt(t, t2, key, j)
  }

  /** A table of empty buckets represents the empty map. */
  lemma EmptyTableWellFormed<V>(t: seq<Bucket<V>>)
    requires |t| > 0 && forall i :: 0 <= i < |t| ==> t[i] == []
    ensures WellFormed(t, map[])
  {
  }

  // -----------------------------------------------------------------------
  // Enumeration order: bucket by bucket, insertion order within a bucket.

  /** The entries of the buckets, in table order. */
  ghost function Flatten<V>(t: seq<Bucket<V>>): seq<(Key, V)>
  {
    if t == [] then [] else Flatten(t[..|t| - 1]) + t[|t| - 1]
  }

  ghost predicate DistinctKeys<V>(s: seq<(Key, V)>)
  {
    forall p, q :: 0 <= p < q < |s| ==> s[p].0 != s[q].0
  }

  ghost function KeySet<V>(s: seq<(Key, V)>): set<Key>
  {
    set p | 0 <= p < |s| :: s[p].0
  }

  lemma KeySetStep<V>(b: seq<(Key, V)>, j: int)
    requires 0 <= j < |b|
    ensures KeySet(b[..j + 1]) == KeySet(b[..j]) + {b[j].0}
  {
    var before, after := b[..j], b[..j + 1];
    assert forall p :: 0 <= p < j ==> after[p] == before[p];
    forall k | k in KeySet(after) ensures k in KeySet(before) + {b[j].0} {
      var p :| 0 <= p < j + 1 && after[p].0 == k;
      if p < j { assert before[p].0 == k; }
    }
    forall k | k in KeySet(before) ensures k in KeySet(after) {
      var p :| 0 <= p < j && before[p].0 == k;
      assert after[p].0 == k;
    }
    assert after[j].0 == b[j].0;
  }

  lemma {:induction false} DistinctKeysCard<V>(s: seq<(Key, V)>)
    requires DistinctKeys(s)
    ensures |KeySet(s)| == |s|
    decreases |s|
  {
    if s != [] {
      var init := s[..|s| - 1];
      DistinctKeysCard(init);
      assert KeySet(s) == KeySet(init) + {s[|s| - 1].0};
      assert s[|s| - 1].0 !in KeySet(init);
    }
  }

  /** Flattening the first n buckets appends bucket n - 1 to the first n - 1. */
  lemma FlattenStep<V>(t: seq<Bucket<V>>, n: int)
    requires 0 < n <= |t|
    ensures Flatten(t[..n]) == Flatten(t[..n - 1]) + t[n - 1]
  {
    assert t[..n][..n - 1] == t[..n - 1];
  }

  /** Enumerating two runs of buckets one after the other. */
  lemma {:induction false} FlattenConcat<V>(a: seq<Bucket<V>>, b: seq<Bucket<V>>)
    ensures Flatten(a + b) == Flatten(a) + Flatten(b)
    decreases |b|
  {
    if b == [] {
      assert a + b == a;
    } else {
      var b' := b[..|b| - 1];
      assert (a + b)[..|a + b| - 1] == a + b';
      assert (a + b)[|a + b| - 1] == b[|b| - 1];
      FlattenConcat(a, b');
    }
  }

  /** Replacing bucket i changes the enumeration only in bucket i's run: the
      entries of the buckets before and after it keep their place and order. */
  lemma FlattenReplace<V>(t: seq<Bucket<V>>, i: int, b: Bucket<V>)
    requires 0 <= i < |t|
    ensures Flatten(t[i := b]) == Flatten(t[..i]) + b + Flatten(t[i + 1..])
  {
    assert t[i := b] == t[..i] + [b] + t[i + 1..];
    FlattenConcat(t[..i] + [b], t[i + 1..]);
    FlattenConcat(t[..i], [b]);
    assert [b][..0] == [];
  }

  /** After an append, the new pair is enumerated right after every entry of
      its own bucket and of the buckets before it, and before the rest. */
  lemma AppendedEnumeration<V>(t: seq<Bucket<V>>, t2: seq<Bucket<V>>, key: Key, value: V)
    requires |t| > 0 && AppendedTo(t, t2, key, value)
    ensures var i := BucketOf(key, |t|);
      Flatten(t2) == Flatten(t[..i + 1]) + [(key, value)] + Flatten(t[i + 1..])
  {
    var i := BucketOf(key, |t|);
    FlattenReplace(t, i, t[i] + [(key, value)]);
    FlattenStep(t, i + 1);
    assert t[..i + 1][..i] == t[..i];
  }

  /** Every entry of the first n buckets lies in one of them and is a pair of m. */
  lemma {:induction false} FlattenSound<V>(t: seq<Bucket<V>>, m: map<Key, V>, n: int)
    requires WellFormed(t, m) && 0 <= n <= |t|
    ensures forall p :: 0 <= p < |Flatten(t[..n])| ==>
              BucketOf(Flatten(t[..n])[p].0, |t|) < n &&
              Flatten(t[..n])[p].0 in m && m[Flatten(t[..n])[p].0] == Flatten(t[..n])[p].1
    decreases n
  {
    if n > 0 {
      FlattenSound(t, m, n - 1);
      var f, b := Flatten(t[..n - 1]), t[n - 1];
      FlattenStep(t, n);
      assert BucketOK(|t|, m, b, n - 1);
      forall p | 0 <= p < |f + b|
        ensures BucketOf((f + b)[p].0, |t|) < n && (f + b)[p].0 in m && m[(f + b)[p].0] == (f + b)[p].1
      {
        if p >= |f| {
          assert (f + b)[p] == b[p - |f|];
        }
      }
    }
  }

  /** No key occurs twice among the entries of the first n buckets. */
  lemma {:induction false} FlattenDistinct<V>(t: seq<Bucket<V>>, m: map<Key, V>, n: int)
    requires WellFormed(t, m) && 0 <= n <= |t|
    ensures DistinctKeys(Flatten(t[..n]))
    decreases n
  {
    if n > 0 {
      FlattenDistinct(t, m, n - 1);
      FlattenSound(t, m, n - 1);
      var f, b := Flatten(t[..n - 1]), t[n - 1];
      FlattenStep(t, n);
      assert BucketOK(|t|, m, b, n - 1);
      forall p, q | 0 <= p < q < |f + b| ensures (f + b)[p].0 != (f + b)[q].0 {
        if q < |f| {
          assert (f + b)[p] == f[p] && (f + b)[q] == f[q];
        } else if p >= |f| {
          assert (f + b)[p] == b[p - |f|] && (f + b)[q] == b[q - |f|];
        } else {
          assert (f + b)[p] == f[p] && (f + b)[q] == b[q - |f|];
        }
      }
    }
  }

  /** Every key of m whose bucket is among the first n has an entry there. */
  lemma {:induction false} FlattenCovers<V>(t: seq<Bucket<V>>, m: map<Key, V>, n: int)
    requires WellFormed(t, m) && 0 <= n <= |t|
    ensures forall k :: k in m && BucketOf(k, |t|) < n ==> k in KeySet(Flatten(t[..n]))
    decreases n
  {
    if n > 0 {
      FlattenCovers(t, m, n - 1);
      var f, b := Flatten(t[..n - 1]), t[n - 1];
      FlattenStep(t, n);
      forall k | k in m && BucketOf(k, |t|) < n ensures k in KeySet(f + b) {
        if BucketOf(k, |t|) == n - 1 {
          assert Covers(t, m);
          assert InBucket(b, k);
          var j :| 0 <= j < |b| && b[j].0 == k;
          assert (f + b)[|f| + j].0 == k;
        } else {
          var p :| 0 <= p < |f| && f[p].0 == k;
          assert (f + b)[p].0 == k;
        }
      }
    }
  }

  /** What `entries` lists: every pair of the map exactly once, so as many
      entries as the map has keys. */
  lemma EntriesAreTheMap<V>(t: seq<Bucket<V>>, m: map<Key, V>)
    requires WellFormed(t, m)
    ensures DistinctKeys(Flatten(t))
    ensures forall p :: 0 <= p < |Flatten(t)| ==> Flatten(t)[p].0 in m && m[Flatten(t)[p].0] == Flatten(t)[p].1
    ensures KeySet(Flatten(t)) == m.Keys
    ensures |Flatten(t)| == |m|
  {
    assert t[..|t|] == t;
    FlattenSound(t, m, |t|);
    FlattenDistinct(t, m, |t|);
    FlattenCovers(t, m, |t|);
    DistinctKeysCard(Flatten(t));
    assert KeySet(Flatten(t)) == m.Keys;
  }

  /** `ks` lists the keys of the entries `es`, in the same order. */
  ghost predicate KeysOf<V>(ks: seq<Key>, es: seq<(Key, V)>)
  {
    |ks| == |es| && forall p :: 0 <= p < |ks| ==> ks[p] == es[p].0
  }

  /** `vs` lists the values of the entries `es`, in the same order. */
  ghost predicate ValuesOf<V>(vs: seq<V>, es: seq<(Key, V)>)
  {
    |vs| == |es| && forall p :: 0 <= p < |vs| ==> vs[p] == es[p].1
  }

  /** One more entry of bucket b, listed by key and by value. */
  lemma ListStep<V>(ks: seq<Key>, vs: seq<V>, done: seq<(Key, V)>, b: Bucket<V>, j: int)
    requires 0 <= j < |b|
    ensures KeysOf(ks, done + b[..j]) ==> KeysOf(ks + [b[j].0], done + b[..j + 1])
    ensures ValuesOf(vs, done + b[..j]) ==> ValuesOf(vs + [b[j].1], done + b[..j + 1])
  {
    assert done + b[..j + 1] == (done + b[..j]) + [b[j]];
  }

  /** The keys of the entries, in order, are the keys of the map, none twice. */
  lemma KeysAreTheMap<V>(t: seq<Bucket<V>>, m: map<Key, V>, ks: seq<Key>)
    requires WellFormed(t, m)
    requires |ks| == |Flatten(t)| && forall p :: 0 <= p < |ks| ==> ks[p] == Flatten(t)[p].0
    ensures |ks| == |m|
    ensures forall k :: k in ks <==> k in m
    ensures forall p, q :: 0 <= p < q < |ks| ==> ks[p] != ks[q]
  {
    var es := Flatten(t);
    EntriesAreTheMap(t, m);
    forall k | k in m ensures k in ks {
      assert k in KeySet(es);
      var p :| 0 <= p < |es| && es[p].0 == k;
      assert ks[p] == k;
    }
    forall k | k in ks ensures k in m {
      var p :| 0 <= p < |ks| && ks[p] == k;
      assert es[p].0 == k;
    }
  }

  lemma MapUpdateCard<V>(m: map<Key, V>, k: Key, v: V)
    ensures |m[k := v]| == |m| + (if k in m then 0 else 1)
  {
    if k in m {
      assert m[k := v].Keys == m.Keys;
    } else {
      assert m[k := v].Keys == m.Keys + {k};
    }
  }

  lemma MapRemoveCard<V>(m: map<Key, V>, k: Key)
    requires k in m
    ensures |m - {k}| == |m| - 1
  {
    assert (m - {k}).Keys == m.Keys - {k};
  }

  /** Removing an absent key leaves the map as it is. */
  lemma MapRemoveAbsent<V>(m: map<Key, V>, k: Key)
    requires k !in m
    ensures m - {k} == m
  {
    assert (m - {k}).Keys == m.Keys;
  }

  lemma SubmapCard<V>(a: map<Key, V>, b: map<Key, V>)
    requires a.Keys <= b.Keys
    ensures |a| <= |b|
  {
    assert |a.Keys| <= |b.Keys| by {
      var rest := b.Keys - a.Keys;
      assert b.Keys == a.Keys + rest;
    }
  }

  /** Rehash progress: c holds exactly the pairs of o whose old bucket
      (hash % n) comes before bucket i, plus the keys `done` of bucket i. */
  ghost predicate Moved<V>(c: map<Key, V>, o: map<Key, V>, n: int, i: int, done: set<Key>)
    requires n > 0
  {
    && (forall k :: k in c <==> k in o && (BucketOf(k, n) < i || (BucketOf(k, n) == i && k in done)))
    && (forall k :: k in c ==> c[k] == o[k])
  }

  /** Re-inserting entry j of old bucket i adds a key not yet moved. */
  lemma RehashEntry<V>(c: map<Key, V>, o: map<Key, V>, n: int, i: int, b: Bucket<V>, j: int)
    requires n > 0 && BucketOK(n, o, b, i) && 0 <= j < |b|
    requires Moved(c, o, n, i, KeySet(b[..j]))
    ensures b[j].0 !in c && b[j].0 in o && o[b[j].0] == b[j].1
    ensures |c| < |o|
    ensures Moved(c[b[j].0 := b[j].1], o, n, i, KeySet(b[..j + 1]))
  {
    var key := b[j].0;
    if key in KeySet(b[..j]) {
      var p :| 0 <= p < j && b[..j][p].0 == key;
      assert b[p].0 == key;
    }
    KeySetStep(b, j);
    SubmapCard(c[key := b[j].1], o);
    MapUpdateCard(c, key, b[j].1);
  }

  /** Once every entry of old bucket i is moved, the next bucket starts. */
  lemma RehashBucketDone<V>(c: map<Key, V>, o: map<Key, V>, t: seq<Bucket<V>>, i: int)
    requires WellFormed(t, o) && 0 <= i < |t|
    requires Moved(c, o, |t|, i, KeySet(t[i]))
    ensures Moved(c, o, |t|, i + 1, {})
  {
    forall k | k in o && BucketOf(k, |t|) == i ensures k in KeySet(t[i]) {
      assert Covers(t, o);
      assert InBucket(t[i], k);
    }
  }

  /** After the last bucket every pair has moved. */
  lemma RehashComplete<V>(c: map<Key, V>, o: map<Key, V>, n: int)
    requires n > 0 && Moved(c, o, n, n, {})
    ensures c == o
  {
  }
}

/** The object of HashMap/lib/hash_map.rb, whose methods update its bucket
    list and entry count in place. */
module HashMaps {
  import opened HashTables

  /** The hash map object. `Contents` is the map it stands for. */
  class HashMap<V> {
    var buckets: seq<Bucket<V>>
    var count: int
    ghost var Contents: map<Key, V>

    /** Every entry is in its key's bucket, no key twice, the buckets hold
        exactly the pairs of `Contents`, `count` is their number, and the
        load is at most 3/4 plus the one entry `set` may add after its check. */
    ghost predicate Valid()
      reads this
    {
      && |buckets| >= INITIAL_CAPACITY
      && WellFormed(buckets, Contents)
      && count == |Contents|
      && 4 * count <= 3 * |buckets| + 4
    }

    /** The entries in enumeration order. */
    ghost function Entries(): seq<(Key, V)>
      reads this
    {
      Flatten(buckets)
    }

    /** initialize: 16 empty buckets, count 0. */
    constructor ()
      ensures Valid()
      ensures Contents == map[] && count == 0 && |buckets| == INITIAL_CAPACITY
    {
      buckets := seq(INITIAL_CAPACITY, i => []);
      count := 0;
      Contents := map[];
      new;
      EmptyTableWellFormed(buckets);
    }

    /** The part of set after grow_if_needed: overwrite the entry of the key
        in its bucket and return nil, or append a new entry at the end of the
        bucket, count it and return the new count. */
    method Insert(key: Key, value: V) returns (r: Option<int>)
      requires Valid() && 4 * count <= 3 * |buckets|
      modifies this
      ensures Valid() && |buckets| == old(|buckets|)
      ensures Contents == old(Contents)[key := value]
      ensures count == old(count) + (if key in old(Contents) then 0 else 1)
      ensures r == if key in old(Contents) then None else Some(count)
      ensures key in old(Contents) ==> exists j :: OverwrittenAt(old(buckets), buckets, key, value, j)
      ensures key !in old(Contents) ==> AppendedTo(old(buckets), buckets, key, value)
    {
      var h := ComputeHash(key);
      var idx := h % |buckets|;
      var bucket := buckets[idx];
      var j := ScanBucket(bucket, key);
      ScanAgreesWithMap(buckets, Contents, key, j);
      var nb;
      ghost var before := buckets;
      if j < |bucket| {
        nb := bucket[j := (key, value)];
        OverwriteKeepsWellFormed(buckets, Contents, key, value, idx, j, nb);
        r := None;
      } else {
        nb := bucket + [(key, value)];
        AppendKeepsWellFormed(buckets, Contents, key, value, idx, nb);
        count := count + 1;
        r := Some(count);
      }
      MapUpdateCard(Contents, key, value);
      buckets := buckets[idx := nb];
      Contents := Contents[key := value];
      assert j < |bucket| ==> OverwrittenAt(before, buckets, key, value, j);
    }

    /** grow_if_needed: when count / capacity exceeds 3/4, a bucket list of
        twice the capacity receives every entry again, bucket by bucket,
        through set. */
    method GrowIfNeeded()
      requires Valid()
      modifies this
      ensures Valid()
      ensures Contents == old(Contents) && count == old(count)
      ensures |buckets| == if 4 * old(count) > 3 * old(|buckets|) then 2 * old(|buckets|) else old(|buckets|)
      ensures 4 * count <= 3 * |buckets|
      ensures 4 * old(count) <= 3 * old(|buckets|) ==> buckets == old(buckets)
    {
      if 4 * count > 3 * |buckets| {
        var oldBuckets := buckets;
        ghost var oldContents := Contents;
        var oldLength := |buckets|;
        buckets := seq(2 * oldLength, i => []);
        count := 0;
        Contents := map[];
        EmptyTableWellFormed(buckets);
        for i := 0 to oldLength
          invariant Valid() && |buckets| == 2 * oldLength
          invariant Moved(Contents, oldContents, oldLength, i, {})
        {
          var bucket := oldBuckets[i];
          assert BucketOK(oldLength, oldContents, bucket, i);
          ReinsertBucket(bucket, oldContents, oldLength, i);
          RehashBucketDone(Contents, oldContents, oldBuckets, i);
        }
        RehashComplete(Contents, oldContents, oldLength);
      }
    }

    /** The inner loop of grow_if_needed: `set` for every entry of old bucket
        i, in order. The new list is twice the old length, so the load check
        at the head of each nested set never fires. */
    method ReinsertBucket(bucket: Bucket<V>, ghost oldContents: map<Key, V>, ghost oldLength: int, ghost i: int)
      requires Valid() && oldLength > 0 && |buckets| == 2 * oldLength
      requires 4 * |oldContents| <= 3 * oldLength + 4
      requires BucketOK(oldLength, oldContents, bucket, i)
      requires Moved(Contents, oldContents, oldLength, i, {})
      modifies this
      ensures Valid() && |buckets| == old(|buckets|)
      ensures Moved(Contents, oldContents, oldLength, i, KeySet(bucket))
    {
      assert bucket[..0] == [];
      for j := 0 to |bucket|
        invariant Valid() && |buckets| == 2 * oldLength
        invariant Moved(Contents, oldContents, oldLength, i, KeySet(bucket[..j]))
      {
        RehashEntry(Contents, oldContents, oldLength, i, bucket, j);
        // the grow_if_needed at the head of the nested set finds nothing to do
        assert !(4 * count > 3 * |buckets|);
        var _ := Insert(bucket[j].0, bucket[j].1);
      }
      assert bucket[..|bucket|] == bucket;
    }

    /** set: grows if needed, then overwrites or appends. Afterwards the key
        maps to the value and every other key is as it was. The result is
        nil after an overwrite and the new count after an insertion. When no
        grow happens, the bucket list is the old one with the key's entry
        overwritten in place or the new pair appended to its bucket. */
    method Set(key: Key, value: V) returns (r: Option<int>)
      requires Valid()
      modifies this
      ensures Valid()
      ensures Contents == old(Contents)[key := value]
      ensures count == old(count) + (if key in old(Contents) then 0 else 1)
      ensures r == if key in old(Contents) then None else Some(count)
      ensures 4 * old(count) <= 3 * old(|buckets|) && key in old(Contents) ==>
        exists j :: OverwrittenAt(old(buckets), buckets, key, value, j)
      ensures 4 * old(count) <= 3 * old(|buckets|) && key !in old(Contents) ==>
        AppendedTo(old(buckets), buckets, key, value)
    {
      GrowIfNeeded();
      r := Insert(key, value);
    }

    /** get: the value stored for the key, or nil. */
    method Get(key: Key) returns (r: Option<V>)
      requires Valid()
      ensures r == MapGet(Contents, key)
    {
      var h := ComputeHash(key);
      var bucket := buckets[h % |buckets|];
      var j := ScanBucket(bucket, key);
      ScanAgreesWithMap(buckets, Contents, key, j);
      if j < |bucket| {
        return Some(bucket[j].1);
      }
      return None;
    }

    /** has?: whether some entry of the key's bucket has the key. */
    method Has(key: Key) returns (r: bool)
      requires Valid()
      ensures r <==> key in Contents
    {
      var h := ComputeHash(key);
      var bucket := buckets[h % |buckets|];
      var j := ScanBucket(bucket, key);
      ScanAgreesWithMap(buckets, Contents, key, j);
      r := j < |bucket|;
    }

    /** remove: deletes the key's entry and returns its value, or returns nil
        and changes nothing. */
    method Remove(key: Key) returns (r: Option<V>)
      requires Valid()
      modifies this
      ensures Valid() && |buckets| == old(|buckets|)
      ensures r == MapGet(old(Contents), key)
      ensures Contents == old(Contents) - {key}
      ensures count == old(count) - (if key in old(Contents) then 1 else 0)
      ensures r.None? ==> buckets == old(buckets)
      ensures r.Some? ==> DeletedFrom(old(buckets), buckets, key)
    {
      var h := ComputeHash(key);
      var idx := h % |buckets|;
      var bucket := buckets[idx];
      var j := ScanBucket(bucket, key);
      ScanAgreesWithMap(buckets, Contents, key, j);
      if j < |bucket| {
        var value := bucket[j].1;
        var nb := bucket[..j] + bucket[j + 1..];
        DeleteKeepsWellFormed(buckets, Contents, key, idx, j, nb);
        MapRemoveCard(Contents, key);
        buckets := buckets[idx := nb];
        count := count - 1;
        Contents := Contents - {key};
        r := Some(value);
      } else {
        MapRemoveAbsent(Contents, key);
        r := None;
      }
    }

    /** length: the entry count, which is the size of the map. */
    method Length() returns (n: int)
      requires Valid()
      ensures n == |Contents| == |Entries()|
    {
      EntriesAreTheMap(buckets, Contents);
      return count;
    }

    /** clear: 16 fresh empty buckets, count 0. */
    method Clear()
      requires Valid()
      modifies this
      ensures Valid()
      ensures Contents == map[] && count == 0 && |buckets| == INITIAL_CAPACITY
    {
      buckets := seq(INITIAL_CAPACITY, i => []);
      count := 0;
      Contents := map[];
      EmptyTableWellFormed(buckets);
    }

    /** keys: the key of every entry, bucket by bucket; as many as `length`,
        none twice, and exactly the keys of the map. */
    method Keys() returns (res: seq<Key>)
      requires Valid()
      ensures |res| == |Entries()| == |Contents|
      ensures forall p :: 0 <= p < |res| ==> res[p] == Entries()[p].0
      ensures forall k :: k in res <==> k in Contents
      ensures forall p, q :: 0 <= p < q < |res| ==> res[p] != res[q]
    {
      res := [];
      for i := 0 to |buckets|
        invariant KeysOf(res, Flatten(buckets[..i]))
      {
        var bucket := buckets[i];
        ghost var done := Flatten(buckets[..i]);
        assert done + bucket[..0] == done;
        for j := 0 to |bucket|
          invariant KeysOf(res, done + bucket[..j])
        {
          ListStep(res, [], done, bucket, j);
          res := res + [bucket[j].0];
        }
        FlattenStep(buckets, i + 1);
        assert bucket[..|bucket|] == bucket;
      }
      assert buckets[..|buckets|] == buckets;
      KeysAreTheMap(buckets, Contents, res);
    }

    /** values: the value of every entry, in the same order as keys, so that
        keys[i] maps to values[i]. */
    method Values() returns (res: seq<V>)
      requires Valid()
      ensures |res| == |Entries()| == |Contents|
      ensures forall p :: 0 <= p < |res| ==> res[p] == Entries()[p].1
      ensures forall p :: 0 <= p < |res| ==> Entries()[p].0 in Contents && Contents[Entries()[p].0] == res[p]
    {
      res := [];
      for i := 0 to |buckets|
        invariant ValuesOf(res, Flatten(buckets[..i]))
      {
        var bucket := buckets[i];
        ghost var done := Flatten(buckets[..i]);
        assert done + bucket[..0] == done;
        for j := 0 to |bucket|
          invariant ValuesOf(res, done + bucket[..j])
        {
          ListStep([], res, done, bucket, j);
          res := res + [bucket[j].1];
        }
        FlattenStep(buckets, i + 1);
        assert bucket[..|bucket|] == bucket;
      }
      assert buckets[..|buckets|] == buckets;
      EntriesAreTheMap(buckets, Contents);
    }

    /** entries: every [key, value] pair, in the same order as keys. */
    method EntryList() returns (res: seq<(Key, V)>)
      requires Valid()
      ensures res == Entries()
      ensures |res| == |Contents|
      ensures forall p :: 0 <= p < |res| ==> res[p].0 in Contents && Contents[res[p].0] == res[p].1
    {
      res := [];
      for i := 0 to |buckets|
        invariant res == Flatten(buckets[..i])
      {
        var bucket := buckets[i];
        ghost var done := Flatten(buckets[..i]);
        for j := 0 to |bucket|
          invariant res == done + bucket[..j]
        {
          assert bucket[..j + 1] == bucket[..j] + [bucket[j]];
          res := res + [bucket[j]];
        }
        FlattenStep(buckets, i + 1);
        assert bucket[..|bucket|] == bucket;
      }
      assert buckets[..|buckets|] == buckets;
      EntriesAreTheMap(buckets, Contents);
    }
  }
}
