/**
 * The separate-chaining hash table of lms.py: a fixed number of buckets,
 * each a list of key/value pairs.  The bucket of a key is `hash(key) % 10`,
 * where `hash` is a parameter standing for the runtime's hash function, so
 * every property below holds for any hash function.
 */
module HashTables {
  import opened Wrappers

  /** The number of buckets (the constructor's default `size`). */
  const Size: nat := 10

  type Bucket<K, V> = seq<(K, V)>

  datatype HashTable<K, V> = HashTable(buckets: seq<Bucket<K, V>>)

  /**
   * `hash_function`.  The divisor is positive, so Dafny's Euclidean `%`
   * agrees with the language's floored `%` and a negative hash still lands
   * in 0..Size-1.
   */
  function Index<K>(hash: K -> int, key: K): (i: nat)
    ensures i < Size
  {
    hash(key) % Size
  }

  /** A fresh table: Size empty buckets. */
  function New<K, V>(): (t: HashTable<K, V>)
    ensures |t.buckets| == Size
    ensures forall i :: 0 <= i < Size ==> t.buckets[i] == []
  {
    HashTable(seq(Size, _ => []))
  }

  /** The keys stored in a bucket. */
  function BucketKeys<K, V>(b: Bucket<K, V>): set<K>
  {
    if |b| == 0 then {} else {b[0].0} + BucketKeys(b[1..])
  }

  /** The scan of `get`: the value of the first pair holding `key`, or None. */
  function BucketGet<K(==), V>(b: Bucket<K, V>, key: K): (r: Option<V>)
    ensures r.None? <==> key !in BucketKeys(b)
    ensures r.Some? ==> (key, r.value) in b
    ensures r.Some? ==> FirstMatch(b, key, r.value)
  {
    if |b| == 0 then None
    else if b[0].0 == key then Some(b[0].1)
    else
      var r := BucketGet(b[1..], key);
      assert r.Some? ==> FirstMatch(b, key, r.value) by {
        if r.Some? {
          var i :| 0 <= i < |b[1..]| && b[1..][i] == (key, r.value) && forall j :: 0 <= j < i ==> b[1..][j].0 != key;
          forall j | 0 <= j < i + 1 ensures b[j].0 != key {
            if j > 0 {
              assert b[j] == b[1..][j - 1];
            }
          }
          assert b[i + 1] == b[1..][i];
        }
      }
      r
  }

  /** The pair `(key, value)` is the first pair of the bucket holding `key`. */
  ghost predicate FirstMatch<K, V>(b: Bucket<K, V>, key: K, value: V)
  {
    exists i :: 0 <= i < |b| && b[i] == (key, value) && forall j :: 0 <= j < i ==> b[j].0 != key
  }

  ghost predicate DistinctKeys<K, V>(b: Bucket<K, V>)
  {
    forall i, j :: 0 <= i < j < |b| ==> b[i].0 != b[j].0
  }

  /**
   * The scan of `insert`: overwrite the value of the first pair holding
   * `key`, or append a new pair when there is none.
   */
  function BucketInsert<K(==,!new), V>(b: Bucket<K, V>, key: K, value: V): (r: Bucket<K, V>)
    ensures BucketGet(r, key) == Some(value)
    ensures forall k :: k != key ==> BucketGet(r, k) == BucketGet(b, k)
    ensures BucketKeys(r) == BucketKeys(b) + {key}
    ensures |r| == if key in BucketKeys(b) then |b| else |b| + 1
  {
    if |b| == 0 then [(key, value)]
    else if b[0].0 == key then
      assert BucketKeys(b) == {key} + BucketKeys(b[1..]);
      assert ([(key, value)] + b[1..])[1..] == b[1..];
      [(key, value)] + b[1..]
    else
      var rest := BucketInsert(b[1..], key, value);
      assert ([b[0]] + rest)[1..] == rest;
      [b[0]] + rest
  }

  /** The scan of `insert` never puts a second pair for a key into the bucket. */
  lemma {:induction false} BucketInsertDistinct<K(!new), V>(b: Bucket<K, V>, key: K, value: V)
    requires DistinctKeys(b)
    ensures DistinctKeys(BucketInsert(b, key, value))
  {
    if |b| > 0 && b[0].0 != key {
      var rest := BucketInsert(b[1..], key, value);
      var r := [b[0]] + rest;
      assert BucketInsert(b, key, value) == r;
      BucketInsertDistinct(b[1..], key, value);
      DistinctKeysNotInTail(b);
      forall i, j | 0 <= i < j < |r| ensures r[i].0 != r[j].0 {
        if i == 0 {
          KeyOfMember(rest, j - 1);
        } else {
          assert r[i] == rest[i - 1] && r[j] == rest[j - 1];
        }
      }
    } else if |b| > 0 {
      var r := BucketInsert(b, key, value);
      forall i, j | 0 <= i < j < |r| ensures r[i].0 != r[j].0 {
        assert r[j] == b[j];
        if i > 0 {
          assert r[i] == b[i];
        }
      }
    }
  }

  lemma {:induction false} KeyOfMember<K, V>(b: Bucket<K, V>, j: nat)
    requires j < |b|
    ensures b[j].0 in BucketKeys(b)
  {
    if j > 0 {
      KeyOfMember(b[1..], j - 1);
    }
  }

  lemma {:induction false} NotInKeys<K, V>(b: Bucket<K, V>, k: K)
    requires forall j :: 0 <= j < |b| ==> b[j].0 != k
    ensures k !in BucketKeys(b)
  {
    if |b| > 0 {
      NotInKeys(b[1..], k);
    }
  }

  lemma DistinctKeysNotInTail<K, V>(b: Bucket<K, V>)
    requires |b| > 0 && DistinctKeys(b)
    ensures b[0].0 !in BucketKeys(b[1..])
  {
    NotInKeys(b[1..], b[0].0);
  }

  /** Every key sits in the bucket its hash selects, once. */
  ghost predicate Valid<K, V>(hash: K -> int, t: HashTable<K, V>)
  {
    && |t.buckets| == Size
    && (forall i, k :: 0 <= i < Size && k in BucketKeys(t.buckets[i]) ==> Index(hash, k) == i)
    && (forall i :: 0 <= i < Size ==> DistinctKeys(t.buckets[i]))
  }

  /** The key is stored somewhere in the table. */
  ghost predicate Contains<K, V>(t: HashTable<K, V>, key: K)
  {
    exists i :: 0 <= i < |t.buckets| && key in BucketKeys(t.buckets[i])
  }

  /** `insert`: write the pair into the bucket the key hashes to. */
  function Insert<K(==,!new), V>(hash: K -> int, t: HashTable<K, V>, key: K, value: V): (r: HashTable<K, V>)
    requires |t.buckets| == Size
    ensures |r.buckets| == Size
    ensures Get(hash, r, key) == Some(value)
    ensures forall k :: k != key ==> Get(hash, r, k) == Get(hash, t, k)
  {
    var i := Index(hash, key);
    var r := HashTable(t.buckets[i := BucketInsert(t.buckets[i], key, value)]);
    assert forall k :: k != key ==> Get(hash, r, k) == Get(hash, t, k) by {
      forall k | k != key ensures Get(hash, r, k) == Get(hash, t, k) {
        if Index(hash, k) != i {
          assert r.buckets[Index(hash, k)] == t.buckets[Index(hash, k)];
        }
      }
    }
    r
  }

  /** `get`: the value of `key` in its bucket, or None. */
  function Get<K(==), V>(hash: K -> int, t: HashTable<K, V>, key: K): Option<V>
    requires |t.buckets| == Size
  {
    BucketGet(t.buckets[Index(hash, key)], key)
  }

  /** A fresh table is valid and finds nothing. */
  lemma NewIsEmpty<K, V>(hash: K -> int, key: K)
    ensures Valid(hash, New<K, V>())
    ensures Get(hash, New<K, V>(), key) == None
  {
  }

  /** Insertion keeps every key in its own bucket, once; the stored keys grow by exactly the inserted key. */
  lemma InsertValid<K(!new), V>(hash: K -> int, t: HashTable<K, V>, key: K, value: V)
    requires Valid(hash, t)
    ensures Valid(hash, Insert(hash, t, key, value))
    ensures forall k :: Contains(Insert(hash, t, key, value), k) <==> Contains(t, k) || k == key
  {
    var r := Insert(hash, t, key, value);
    var i := Index(hash, key);
    assert r.buckets[i] == BucketInsert(t.buckets[i], key, value);
    BucketInsertDistinct(t.buckets[i], key, value);
    forall j | 0 <= j < Size && j != i ensures r.buckets[j] == t.buckets[j] {
    }
    forall k ensures Contains(r, k) <==> Contains(t, k) || k == key {
      if Contains(r, k) {
        var j :| 0 <= j < Size && k in BucketKeys(r.buckets[j]);
        if j != i {
          assert Contains(t, k);
        }
      }
      if Contains(t, k) {
        var j :| 0 <= j < Size && k in BucketKeys(t.buckets[j]);
        assert k in BucketKeys(r.buckets[j]);
      }
      if k == key {
        assert k in BucketKeys(r.buckets[i]);
      }
    }
  }

  /** In a valid table, `get` finds exactly the stored keys: a key that is not stored yields None. */
  lemma GetFindsStored<K, V>(hash: K -> int, t: HashTable<K, V>, key: K)
    requires Valid(hash, t)
    ensures Get(hash, t, key).Some? <==> Contains(t, key)
  {
    if Contains(t, key) {
      var j :| 0 <= j < Size && key in BucketKeys(t.buckets[j]);
      assert j == Index(hash, key);
    }
  }
}
